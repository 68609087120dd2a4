/**
 Counting facet values: what GROUP BY and ORDER BY promise about a column of values, and the counting loop
 with its sort that keeps the same promise.
 */
module Facets {
  import opened Common

  /** One facet value and how many of the counted values it equals. */
  datatype Entry = Entry(value: string, count: nat)

  /** The order of strings both engines sort by. */
  ghost predicate IsTotalOrder(leq: (string, string) -> bool) {
    (forall a, b :: leq(a, b) || leq(b, a)) &&
    (forall a, b :: leq(a, b) && leq(b, a) ==> a == b) &&
    (forall a, b, c :: leq(a, b) && leq(b, c) ==> leq(a, c))
  }

  /** count DESC, value ASC. */
  predicate Precedes(leq: (string, string) -> bool, a: Entry, b: Entry) {
    a.count > b.count || (a.count == b.count && leq(a.value, b.value))
  }

  function Occurrences(values: seq<Option<string>>, value: string): nat {
    if values == [] then 0 else
      Occurrences(values[..|values| - 1], value) + if values[|values| - 1] == Some(value) then 1 else 0
  }

  ghost predicate Distinct(entries: seq<Entry>) {
    forall i, j | 0 <= i < j < |entries| :: entries[i].value != entries[j].value
  }

  ghost predicate Sorted(leq: (string, string) -> bool, entries: seq<Entry>) {
    forall i, j | 0 <= i < j < |entries| :: Precedes(leq, entries[i], entries[j])
  }

  /** Each entry counts its value among the non-null values, and every such value has an entry. */
  ghost predicate CountsAll(values: seq<Option<string>>, entries: seq<Entry>) {
    (forall i | 0 <= i < |entries| :: entries[i].count == Occurrences(values, entries[i].value) > 0) &&
    (forall v | Occurrences(values, v) > 0 :: Entry(v, Occurrences(values, v)) in entries)
  }

  /** SELECT value, COUNT(*) ... WHERE value IS NOT NULL GROUP BY value ORDER BY count DESC, value ASC. */
  ghost predicate IsGroupCount(leq: (string, string) -> bool, values: seq<Option<string>>, entries: seq<Entry>) {
    Distinct(entries) && CountsAll(values, entries) && Sorted(leq, entries)
  }

  // ---------- the promise has one answer ----------

  lemma SameEntries(values: seq<Option<string>>, a: seq<Entry>, b: seq<Entry>)
    requires CountsAll(values, a) && CountsAll(values, b)
    ensures forall e :: e in a <==> e in b
  {
  }

  lemma HeadLeads(leq: (string, string) -> bool, a: seq<Entry>, e: Entry)
    requires Sorted(leq, a) && e in a && e != a[0]
    ensures Precedes(leq, a[0], e)
  {
    var i :| 0 <= i < |a| && a[i] == e;
  }

  lemma HeadsAgree(leq: (string, string) -> bool, a: seq<Entry>, b: seq<Entry>)
    requires IsTotalOrder(leq) && Sorted(leq, a) && Sorted(leq, b)
    requires a != [] && b != [] && a[0] in b && b[0] in a
    ensures a[0] == b[0]
  {
    if a[0] != b[0] {
      HeadLeads(leq, a, b[0]);
      HeadLeads(leq, b, a[0]);
    }
  }

  lemma TailsHaveSameEntries(a: seq<Entry>, b: seq<Entry>)
    requires Distinct(a) && Distinct(b) && a != [] && b != [] && a[0] == b[0]
    requires forall e :: e in a <==> e in b
    ensures forall e :: e in a[1..] <==> e in b[1..]
  {
    forall e ensures e in a[1..] ==> e in b[1..] {
      if e in a[1..] {
        var i :| 1 <= i < |a| && a[i] == e;
        assert e in b && a[0].value != e.value;
        var j :| 0 <= j < |b| && b[j] == e;
        assert b[1..][j - 1] == e;
      }
    }
    forall e ensures e in b[1..] ==> e in a[1..] {
      if e in b[1..] {
        var i :| 1 <= i < |b| && b[i] == e;
        assert e in a && b[0].value != e.value;
        var j :| 0 <= j < |a| && a[j] == e;
        assert a[1..][j - 1] == e;
      }
    }
  }

  lemma {:induction false} SortedIsUnique(leq: (string, string) -> bool, a: seq<Entry>, b: seq<Entry>)
    requires IsTotalOrder(leq) && Distinct(a) && Distinct(b) && Sorted(leq, a) && Sorted(leq, b)
    requires forall e :: e in a <==> e in b
    ensures a == b
  {
    assert b != [] ==> b[0] in a;
    if a != [] {
      assert a[0] in b;
      assert b[0] in a;
      HeadsAgree(leq, a, b);
      TailsHaveSameEntries(a, b);
      SortedIsUnique(leq, a[1..], b[1..]);
      assert a == [a[0]] + a[1..] && b == [b[0]] + b[1..];
    }
  }

  /** Two answers to the same query are the same list. */
  lemma GroupCountIsUnique(leq: (string, string) -> bool, values: seq<Option<string>>, a: seq<Entry>, b: seq<Entry>)
    requires IsTotalOrder(leq) && IsGroupCount(leq, values, a) && IsGroupCount(leq, values, b)
    ensures a == b
  {
    SameEntries(values, a, b);
    SortedIsUnique(leq, a, b);
  }

  // ---------- the counting loop ----------

  /** counts.set(value, (counts.get(value) ?? 0) + 1), in a map that remembers insertion order. */
  function Bump(entries: seq<Entry>, value: string): seq<Entry> {
    if entries == [] then [Entry(value, 1)]
    else if entries[0].value == value then [Entry(value, entries[0].count + 1)] + entries[1..]
    else [entries[0]] + Bump(entries[1..], value)
  }

  function CountOf(entries: seq<Entry>, value: string): nat {
    if entries == [] then 0
    else if entries[0].value == value then entries[0].count
    else CountOf(entries[1..], value)
  }

  function Sum(entries: seq<Entry>): nat {
    if entries == [] then 0 else entries[0].count + Sum(entries[1..])
  }

  ghost predicate HasValue(entries: seq<Entry>, value: string) {
    exists i | 0 <= i < |entries| :: entries[i].value == value
  }

  lemma {:induction false} BumpCounts(entries: seq<Entry>, value: string, v: string)
    ensures CountOf(Bump(entries, value), v) == CountOf(entries, v) + if v == value then 1 else 0
    ensures HasValue(Bump(entries, value), v) <==> HasValue(entries, v) || v == value
    ensures Sum(Bump(entries, value)) == Sum(entries) + 1
  {
    var bumped := Bump(entries, value);
    if entries == [] {
      if v == value { assert bumped[0].value == v; }
    } else if entries[0].value == value {
      assert bumped[1..] == entries[1..];
      assert forall i | 0 <= i < |entries| :: bumped[i].value == entries[i].value;
    } else {
      BumpCounts(entries[1..], value, v);
      assert bumped[1..] == Bump(entries[1..], value);
      HasValueSplits(entries, v);
      HasValueSplits(bumped, v);
    }
  }

  lemma HasValueSplits(entries: seq<Entry>, v: string)
    requires entries != []
    ensures HasValue(entries, v) <==> entries[0].value == v || HasValue(entries[1..], v)
  {
    if HasValue(entries[1..], v) {
      var i :| 0 <= i < |entries[1..]| && entries[1..][i].value == v;
      assert entries[i + 1].value == v;
    }
    if HasValue(entries, v) && entries[0].value != v {
      var i :| 0 <= i < |entries| && entries[i].value == v;
      assert entries[1..][i - 1].value == v;
    }
  }

  lemma DistinctSplits(entries: seq<Entry>)
    requires entries != []
    ensures Distinct(entries) <==> !HasValue(entries[1..], entries[0].value) && Distinct(entries[1..])
  {
    if !HasValue(entries[1..], entries[0].value) && Distinct(entries[1..]) {
      forall i, j | 0 <= i < j < |entries| ensures entries[i].value != entries[j].value {
        assert entries[1..][j - 1] == entries[j];
        if i > 0 { assert entries[1..][i - 1] == entries[i]; }
      }
    }
  }

  lemma {:induction false} BumpKeepsDistinct(entries: seq<Entry>, value: string)
    requires Distinct(entries)
    ensures Distinct(Bump(entries, value))
  {
    if entries != [] {
      var bumped := Bump(entries, value);
      DistinctSplits(entries);
      if entries[0].value == value {
        assert bumped[1..] == entries[1..];
      } else {
        assert bumped[1..] == Bump(entries[1..], value);
        BumpKeepsDistinct(entries[1..], value);
        BumpCounts(entries[1..], value, entries[0].value);
      }
      DistinctSplits(bumped);
    }
  }

  /** The entries after counting the values in order; null values are skipped. */
  function Tally(values: seq<Option<string>>): seq<Entry> {
    if values == [] then [] else
      var counted := Tally(values[..|values| - 1]);
      match values[|values| - 1]
      case Some(v) => Bump(counted, v)
      case None => counted
  }

  function NonNull(values: seq<Option<string>>): nat {
    if values == [] then 0 else
      NonNull(values[..|values| - 1]) + if values[|values| - 1].Some? then 1 else 0
  }

  lemma {:induction false} TallyCounts(values: seq<Option<string>>, v: string)
    ensures CountOf(Tally(values), v) == Occurrences(values, v)
    ensures HasValue(Tally(values), v) <==> Occurrences(values, v) > 0
    ensures Distinct(Tally(values)) && Sum(Tally(values)) == NonNull(values)
  {
    if values != [] {
      var init, last := values[..|values| - 1], values[|values| - 1];
      TallyCounts(init, v);
      if last.Some? {
        BumpCounts(Tally(init), last.value, v);
        BumpKeepsDistinct(Tally(init), last.value);
      }
    }
  }

  lemma {:induction false} CountOfEntry(entries: seq<Entry>, i: nat)
    requires Distinct(entries) && i < |entries|
    ensures CountOf(entries, entries[i].value) == entries[i].count
  {
    DistinctSplits(entries);
    if i > 0 {
      assert entries[i] == entries[1..][i - 1];
      CountOfEntry(entries[1..], i - 1);
    }
  }

  lemma TallyCountsAll(values: seq<Option<string>>)
    ensures Distinct(Tally(values)) && CountsAll(values, Tally(values))
  {
    var entries := Tally(values);
    TallyCounts(values, "");
    forall i | 0 <= i < |entries| ensures entries[i].count == Occurrences(values, entries[i].value) > 0 {
      CountOfEntry(entries, i);
      TallyCounts(values, entries[i].value);
    }
    forall v | Occurrences(values, v) > 0 ensures Entry(v, Occurrences(values, v)) in entries {
      TallyCounts(values, v);
      var i :| 0 <= i < |entries| && entries[i].value == v;
      CountOfEntry(entries, i);
      assert entries[i] == Entry(v, Occurrences(values, v));
    }
  }

  // ---------- the sort ----------

  function Insert(leq: (string, string) -> bool, e: Entry, sorted: seq<Entry>): seq<Entry> {
    if sorted == [] || Precedes(leq, e, sorted[0]) then [e] + sorted
    else [sorted[0]] + Insert(leq, e, sorted[1..])
  }

  function Sort(leq: (string, string) -> bool, entries: seq<Entry>): seq<Entry> {
    if entries == [] then [] else Insert(leq, entries[0], Sort(leq, entries[1..]))
  }

  lemma {:induction false} InsertKeeps(leq: (string, string) -> bool, e: Entry, sorted: seq<Entry>)
    ensures multiset(Insert(leq, e, sorted)) == multiset(sorted) + multiset{e}
    ensures Sum(Insert(leq, e, sorted)) == Sum(sorted) + e.count
  {
    if sorted == [] || Precedes(leq, e, sorted[0]) {
      assert ([e] + sorted)[1..] == sorted;
    } else {
      InsertKeeps(leq, e, sorted[1..]);
      assert sorted == [sorted[0]] + sorted[1..];
      assert ([sorted[0]] + Insert(leq, e, sorted[1..]))[1..] == Insert(leq, e, sorted[1..]);
    }
  }

  lemma PrecedesIsOrder(leq: (string, string) -> bool, a: Entry, b: Entry, c: Entry)
    requires IsTotalOrder(leq)
    ensures Precedes(leq, a, b) || Precedes(leq, b, a)
    ensures Precedes(leq, a, b) && Precedes(leq, b, c) ==> Precedes(leq, a, c)
  {
  }

  lemma {:induction false} InsertSorts(leq: (string, string) -> bool, e: Entry, sorted: seq<Entry>)
    requires IsTotalOrder(leq) && Sorted(leq, sorted)
    ensures Sorted(leq, Insert(leq, e, sorted))
  {
    if sorted == [] {
    } else if Precedes(leq, e, sorted[0]) {
      forall j | 0 <= j < |sorted| ensures Precedes(leq, e, sorted[j]) {
        PrecedesIsOrder(leq, e, sorted[0], sorted[j]);
      }
    } else {
      var rest := Insert(leq, e, sorted[1..]);
      InsertSorts(leq, e, sorted[1..]);
      InsertKeeps(leq, e, sorted[1..]);
      PrecedesIsOrder(leq, e, sorted[0], sorted[0]);
      forall j | 0 <= j < |rest| ensures Precedes(leq, sorted[0], rest[j]) {
        assert rest[j] in multiset(rest);
        assert rest[j] == e || rest[j] in sorted[1..];
      }
    }
  }

  lemma {:induction false} SortSorts(leq: (string, string) -> bool, entries: seq<Entry>)
    requires IsTotalOrder(leq)
    ensures Sorted(leq, Sort(leq, entries))
    ensures multiset(Sort(leq, entries)) == multiset(entries)
    ensures Sum(Sort(leq, entries)) == Sum(entries)
  {
    if entries != [] {
      SortSorts(leq, entries[1..]);
      InsertSorts(leq, entries[0], Sort(leq, entries[1..]));
      InsertKeeps(leq, entries[0], Sort(leq, entries[1..]));
      assert entries == [entries[0]] + entries[1..];
    }
  }

  lemma PermutationKeepsDistinct(a: seq<Entry>, b: seq<Entry>)
    requires Distinct(a) && multiset(a) == multiset(b)
    ensures Distinct(b)
  {
    forall i, j | 0 <= i < j < |b| ensures b[i].value != b[j].value {
      if b[i].value == b[j].value {
        assert b[i] in multiset(b) && b[j] in multiset(b);
        var k :| 0 <= k < |a| && a[k] == b[i];
        var l :| 0 <= l < |a| && a[l] == b[j];
        assert k == l;
        TwiceIn(b, i, j);
        OnceIn(a, k);
      }
    }
  }

  lemma TwiceIn(b: seq<Entry>, i: nat, j: nat)
    requires i < j < |b| && b[i] == b[j]
    ensures multiset(b)[b[i]] >= 2
  {
    assert b == b[..j] + [b[j]] + b[j + 1..];
    assert b[i] in b[..j];
  }

  lemma OnceIn(a: seq<Entry>, k: nat)
    requires Distinct(a) && k < |a|
    ensures multiset(a)[a[k]] == 1
  {
    assert a == a[..k] + [a[k]] + a[k + 1..];
    assert a[k] !in a[..k] && a[k] !in a[k + 1..];
  }

  function GroupCounts(leq: (string, string) -> bool, values: seq<Option<string>>): seq<Entry> {
    Sort(leq, Tally(values))
  }

  /** The greatest count comes first, and of equal counts the value that is first in the order of strings. */
  ghost predicate ListsMostFirst(leq: (string, string) -> bool, entries: seq<Entry>) {
    forall i, j | 0 <= i < j < |entries| ::
      entries[i].count >= entries[j].count &&
      (entries[i].count == entries[j].count ==> leq(entries[i].value, entries[j].value))
  }

  lemma SortedListsMostFirst(leq: (string, string) -> bool, entries: seq<Entry>)
    requires Sorted(leq, entries)
    ensures ListsMostFirst(leq, entries)
  {
    forall i, j | 0 <= i < j < |entries|
      ensures entries[i].count >= entries[j].count
      ensures entries[i].count == entries[j].count ==> leq(entries[i].value, entries[j].value)
    {
      assert Precedes(leq, entries[i], entries[j]);
    }
  }

  /** Counting in a loop and sorting the entries answers what the grouping query promises. */
  lemma LoopAnswersTheQuery(leq: (string, string) -> bool, values: seq<Option<string>>)
    requires IsTotalOrder(leq)
    ensures IsGroupCount(leq, values, GroupCounts(leq, values))
    ensures ListsMostFirst(leq, GroupCounts(leq, values))
  {
    var tally, sorted := Tally(values), GroupCounts(leq, values);
    TallyCountsAll(values);
    SortSorts(leq, tally);
    PermutationKeepsDistinct(tally, sorted);
    SortedListsMostFirst(leq, sorted);
    forall i | 0 <= i < |sorted| ensures sorted[i].count == Occurrences(values, sorted[i].value) > 0 {
      assert sorted[i] in multiset(sorted);
      assert sorted[i] in tally;
    }
    forall v | Occurrences(values, v) > 0 ensures Entry(v, Occurrences(values, v)) in sorted {
      assert Entry(v, Occurrences(values, v)) in multiset(tally);
    }
  }

  /** The counts of an answer add up to the number of values that are not null. */
  lemma CountsAddUp(leq: (string, string) -> bool, values: seq<Option<string>>, entries: seq<Entry>)
    requires IsTotalOrder(leq) && IsGroupCount(leq, values, entries)
    ensures Sum(entries) == NonNull(values)
  {
    LoopAnswersTheQuery(leq, values);
    GroupCountIsUnique(leq, values, entries, GroupCounts(leq, values));
    TallyCounts(values, "");
    SortSorts(leq, Tally(values));
  }
}
