/**
 Page sizes, the slice a page shows, and the links from page to page.
 */
module Paging {
  import opened Common

  const MAX_PAGE_SIZE: nat := 50
  const DEFAULT_PAGE_SIZE: nat := 20

  /** A number of the host language, whose fraction is kept. */
  datatype Number = NaN | Infinite | Finite(value: real)

  datatype Page = Page(page: int, size: int)

  /** Rounds toward zero. */
  function Trunc(r: real): int {
    if r >= 0.0 then r.Floor else -(-r).Floor
  }

  lemma TruncIsTowardZero(r: real)
    ensures Trunc(-r) == -Trunc(r)
    ensures r >= 0.0 ==> 0 <= Trunc(r) && Trunc(r) as real <= r < (Trunc(r) + 1) as real
  {
  }

  function Max(a: int, b: int): int { if a < b then b else a }

  function ClampPagination(page: Number, size: Number): (r: Page)
    ensures r.page >= 1 && 1 <= r.size <= 50
    ensures size.Finite? && 1.0 <= size.value < 51.0 ==>
              r.size as real <= size.value < (r.size + 1) as real
    ensures size.Finite? && size.value < 1.0 ==> r.size == 1
    ensures size.Finite? && size.value >= 51.0 ==> r.size == 50
    ensures !size.Finite? ==> r.size == 20
    ensures page.Finite? && page.value >= 1.0 ==> r.page as real <= page.value < (r.page + 1) as real
    ensures page.Finite? && page.value < 1.0 ==> r.page == 1
    ensures !page.Finite? ==> r.page == 1
  {
    Page(Max(1, if page.Finite? then Trunc(page.value) else 1),
         Min(MAX_PAGE_SIZE, Max(1, if size.Finite? then Trunc(size.value) else DEFAULT_PAGE_SIZE)))
  }

  /** xs.slice(offset, offset + size): both ends stop at the length. */
  function Slice<T>(xs: seq<T>, offset: nat, size: nat): seq<T> {
    xs[Min(offset, |xs|)..Min(offset + size, |xs|)]
  }

  function PageOf<T>(xs: seq<T>, page: Page): seq<T>
    requires page.page >= 1 && page.size >= 1
  {
    Slice(xs, (page.page - 1) * page.size, page.size)
  }

  function NextPage(page: Page, total: nat): Option<int> {
    if page.page * page.size < total then Some(page.page + 1) else None
  }

  lemma NextOffset(page: Page)
    ensures page.page * page.size == (page.page - 1) * page.size + page.size
  {
  }

  /** The pages seen by following the next link from a page to the end. */
  function FollowNext<T>(xs: seq<T>, page: Page): seq<seq<T>>
    requires page.page >= 1 && page.size >= 1
    decreases |xs| - (page.page - 1) * page.size
  {
    NextOffset(page);
    [PageOf(xs, page)] +
    match NextPage(page, |xs|)
    case Some(next) => FollowNext(xs, page.(page := next))
    case None => []
  }

  function Concat<T>(pages: seq<seq<T>>): seq<T> {
    if pages == [] then [] else pages[0] + Concat(pages[1..])
  }

  lemma {:induction false} FollowNextShowsTheRest<T>(xs: seq<T>, page: Page)
    requires page.page >= 1 && page.size >= 1 && (page.page - 1) * page.size <= |xs|
    ensures Concat(FollowNext(xs, page)) == xs[(page.page - 1) * page.size..]
    decreases |xs| - (page.page - 1) * page.size
  {
    NextOffset(page);
    var offset := (page.page - 1) * page.size;
    var pages := FollowNext(xs, page);
    assert pages[0] == xs[offset..Min(offset + page.size, |xs|)];
    if offset + page.size < |xs| {
      var next := page.(page := page.page + 1);
      FollowNextShowsTheRest(xs, next);
      assert pages[1..] == FollowNext(xs, next);
      assert xs[offset..] == xs[offset..offset + page.size] + xs[offset + page.size..];
    } else {
      assert pages[1..] == [];
      assert xs[offset..|xs|] + [] == xs[offset..];
    }
  }

  lemma {:induction false} FollowNextCounts<T>(xs: seq<T>, page: Page)
    requires page.page >= 1 && page.size >= 1 && (page.page - 1) * page.size <= |xs|
    ensures var n := |FollowNext(xs, page)|;
            n >= 1 && |xs| <= (page.page - 1 + n) * page.size &&
            (n > 1 ==> (page.page - 2 + n) * page.size < |xs|)
    decreases |xs| - (page.page - 1) * page.size
  {
    NextOffset(page);
    if page.page * page.size < |xs| {
      FollowNextCounts(xs, page.(page := page.page + 1));
    }
  }

  /**
   Following the next link from page 1 shows the whole list once, in ceil(total / size) pages, and one page
   when the list is empty.
   */
  lemma PagesAreTheWholeList<T>(xs: seq<T>, size: int)
    requires size >= 1
    ensures Concat(FollowNext(xs, Page(1, size))) == xs
    ensures |FollowNext(xs, Page(1, size))| == if xs == [] then 1 else (|xs| + size - 1) / size
  {
    FollowNextShowsTheRest(xs, Page(1, size));
    FollowNextCounts(xs, Page(1, size));
    if xs != [] {
      CeilIs(|xs|, size, |FollowNext(xs, Page(1, size))|);
    }
  }

  lemma CeilIs(total: nat, size: nat, n: nat)
    requires size >= 1 && n >= 1 && (n - 1) * size < total <= n * size
    ensures (total + size - 1) / size == n
  {
    var q := (total + size - 1) / size;
    var r := (total + size - 1) % size;
    assert q * size + r == total + size - 1;
    assert (n - 1) * size + size == n * size && (n + 1) * size == n * size + size;
    if q < n {
      MulKeepsOrder(q, n - 1, size);
    } else if q > n {
      MulKeepsOrder(n + 1, q, size);
    }
  }

  lemma MulKeepsOrder(a: nat, b: nat, size: nat)
    requires a <= b
    ensures a * size <= b * size
  {
    assert b * size == a * size + (b - a) * size;
  }

  // ---------- the order of the pages' list ----------

  /** A stable sort by score: an element stays before the later ones it ties with. */
  function InsertStable<T>(score: T -> nat, x: T, sorted: seq<T>): seq<T> {
    if sorted == [] || score(x) <= score(sorted[0]) then [x] + sorted
    else [sorted[0]] + InsertStable(score, x, sorted[1..])
  }

  function StableSort<T>(score: T -> nat, xs: seq<T>): seq<T> {
    if xs == [] then [] else InsertStable(score, xs[0], StableSort(score, xs[1..]))
  }

  /** The elements with that score, in the order they stand. */
  function Bucket<T>(score: T -> nat, xs: seq<T>, s: nat): seq<T> {
    if xs == [] then [] else (if score(xs[0]) == s then [xs[0]] else []) + Bucket(score, xs[1..], s)
  }

  function Buckets<T>(score: T -> nat, xs: seq<T>): seq<T> {
    Bucket(score, xs, 0) + Bucket(score, xs, 1) + Bucket(score, xs, 2)
  }

  ghost predicate AllScore<T>(score: T -> nat, xs: seq<T>, s: nat) {
    forall i | 0 <= i < |xs| :: score(xs[i]) == s
  }

  lemma {:induction false} BucketScores<T>(score: T -> nat, xs: seq<T>, s: nat)
    ensures AllScore(score, Bucket(score, xs, s), s)
  {
    if xs != [] { BucketScores(score, xs[1..], s); }
  }

  lemma {:induction false} InsertPasses<T>(score: T -> nat, x: T, low: seq<T>, rest: seq<T>, s: nat)
    requires AllScore(score, low, s) && s < score(x)
    ensures InsertStable(score, x, low + rest) == low + InsertStable(score, x, rest)
  {
    if low == [] {
      assert low + rest == rest;
    } else {
      var more := low[1..] + rest;
      assert low + rest == [low[0]] + more && (low + rest)[1..] == more;
      assert score(low[0]) == s;
      InsertPasses(score, x, low[1..], rest, s);
      assert InsertStable(score, x, low + rest) == [low[0]] + (low[1..] + InsertStable(score, x, rest));
    }
  }

  lemma InsertStops<T>(score: T -> nat, x: T, rest: seq<T>)
    requires forall i | 0 <= i < |rest| :: score(x) <= score(rest[i])
    ensures InsertStable(score, x, rest) == [x] + rest
  {
  }

  lemma InsertIntoBuckets<T>(score: T -> nat, x: T, b0: seq<T>, b1: seq<T>, b2: seq<T>)
    requires AllScore(score, b0, 0) && AllScore(score, b1, 1) && AllScore(score, b2, 2) && score(x) <= 2
    ensures InsertStable(score, x, b0 + b1 + b2) ==
            (if score(x) == 0 then [x] + b0 else b0) + (if score(x) == 1 then [x] + b1 else b1)
            + (if score(x) == 2 then [x] + b2 else b2)
  {
    assert b0 + b1 + b2 == b0 + (b1 + b2);
    if score(x) == 0 {
      InsertStops(score, x, b0 + b1 + b2);
      assert [x] + (b0 + b1 + b2) == [x] + b0 + b1 + b2;
    } else {
      InsertPasses(score, x, b0, b1 + b2, 0);
      if score(x) == 1 {
        InsertStops(score, x, b1 + b2);
        assert b0 + ([x] + (b1 + b2)) == b0 + ([x] + b1) + b2;
      } else {
        InsertPasses(score, x, b1, b2, 1);
        InsertStops(score, x, b2);
        assert b0 + (b1 + ([x] + b2)) == b0 + b1 + ([x] + b2);
      }
    }
  }

  lemma {:induction false} InsertKeepsElements<T>(score: T -> nat, x: T, sorted: seq<T>)
    ensures multiset(InsertStable(score, x, sorted)) == multiset(sorted) + multiset{x}
  {
    if sorted != [] && score(x) > score(sorted[0]) {
      InsertKeepsElements(score, x, sorted[1..]);
      assert sorted == [sorted[0]] + sorted[1..];
    }
  }

  ghost predicate ScoresRise<T>(score: T -> nat, xs: seq<T>) {
    forall i, j | 0 <= i < j < |xs| :: score(xs[i]) <= score(xs[j])
  }

  lemma RiseFrom<T>(score: T -> nat, x: T, rest: seq<T>)
    requires ScoresRise(score, rest) && forall j | 0 <= j < |rest| :: score(x) <= score(rest[j])
    ensures ScoresRise(score, [x] + rest)
  {
  }

  lemma {:induction false} InsertKeepsScores<T>(score: T -> nat, x: T, sorted: seq<T>)
    requires ScoresRise(score, sorted)
    ensures ScoresRise(score, InsertStable(score, x, sorted))
  {
    if sorted == [] || score(x) <= score(sorted[0]) {
      RiseFrom(score, x, sorted);
    } else {
      var rest := InsertStable(score, x, sorted[1..]);
      InsertKeepsScores(score, x, sorted[1..]);
      InsertKeepsElements(score, x, sorted[1..]);
      forall j | 0 <= j < |rest| ensures score(sorted[0]) <= score(rest[j]) {
        assert rest[j] in multiset(rest);
        assert rest[j] == x || rest[j] in sorted[1..];
      }
      RiseFrom(score, sorted[0], rest);
    }
  }

  /** The sort lists the same elements, a smaller score always before a greater one. */
  lemma {:induction false} SortOrdersScores<T>(score: T -> nat, xs: seq<T>)
    ensures ScoresRise(score, StableSort(score, xs)) && multiset(StableSort(score, xs)) == multiset(xs)
  {
    if xs != [] {
      SortOrdersScores(score, xs[1..]);
      InsertKeepsScores(score, xs[0], StableSort(score, xs[1..]));
      InsertKeepsElements(score, xs[0], StableSort(score, xs[1..]));
      assert xs == [xs[0]] + xs[1..];
    }
  }

  /** Sorting by a score of 0, 1 or 2 lists the three buckets one after the other, each in its old order. */
  lemma {:induction false} SortIsBucketing<T>(score: T -> nat, xs: seq<T>)
    requires forall i | 0 <= i < |xs| :: score(xs[i]) <= 2
    ensures StableSort(score, xs) == Buckets(score, xs)
  {
    if xs != [] {
      var x, rest := xs[0], xs[1..];
      SortIsBucketing(score, rest);
      forall s { BucketScores(score, rest, s); }
      InsertIntoBuckets(score, x, Bucket(score, rest, 0), Bucket(score, rest, 1), Bucket(score, rest, 2));
      forall s
        ensures Bucket(score, xs, s) ==
                if score(x) == s then [x] + Bucket(score, rest, s) else Bucket(score, rest, s)
      {
      }
    }
  }
}
