/**
 The two engines behind the search contract as objects: documents filtered and counted in loops, and rows
 asked for through the clauses of SearchFilters. They answer alike.
 */
module SearchEngines {
  import opened Common
  import opened Catalog
  import opened Sql
  import opened SearchFilters
  import opened Facets
  import opened Paging

  datatype FacetCount = FacetCount(dimension: Dimension, value: string, count: nat)

  /** The page is what the caller asked for; an engine's `Search` takes the text as it is once trimmed. */
  datatype Query = Query(text: string, filters: seq<Filter>, page: Number, size: Number)

  datatype Results = Results(results: seq<Summary>, totalMatches: nat, facets: seq<FacetCount>, page: Page)

  function Without(filters: seq<Filter>, dimension: Dimension): seq<Filter> {
    if filters == [] then [] else
      (if filters[0].dimension == dimension then [] else [filters[0]]) + Without(filters[1..], dimension)
  }

  function Labelled(dimension: Dimension, entries: seq<Entry>): seq<FacetCount> {
    seq(|entries|, i requires 0 <= i < |entries| => FacetCount(dimension, entries[i].value, entries[i].count))
  }

  // ---------- the in-memory engine ----------

  function MatchedDocs(env: Env, docs: seq<Document>, text: string, filters: seq<Filter>): seq<Document> {
    if docs == [] then [] else
      MatchedDocs(env, docs[..|docs| - 1], text, filters)
      + if Matches(env, docs[|docs| - 1], text, filters) then [docs[|docs| - 1]] else []
  }

  function FacetColumn(docs: seq<Document>, dimension: Dimension): seq<Option<string>> {
    seq(|docs|, i requires 0 <= i < |docs| => FacetValue(docs[i], dimension))
  }

  /** The facet values the engine counts for a dimension: all other filters apply. */
  function MemoryColumn(env: Env, docs: seq<Document>, text: string, filters: seq<Filter>, dimension: Dimension)
    : seq<Option<string>>
  {
    FacetColumn(MatchedDocs(env, docs, text, Without(filters, dimension)), dimension)
  }

  function MemoryFacets(leq: (string, string) -> bool, env: Env, docs: seq<Document>, text: string,
                        filters: seq<Filter>, dimensions: seq<Dimension>): seq<FacetCount>
  {
    if dimensions == [] then [] else
      Labelled(dimensions[0], GroupCounts(leq, MemoryColumn(env, docs, text, filters, dimensions[0])))
      + MemoryFacets(leq, env, docs, text, filters, dimensions[1..])
  }

  /** Title prefix before title infix before the rest, both read in lower case. */
  function TitleScore(lower: string -> string, text: string): Document -> nat {
    (doc: Document) =>
      var title := lower(doc.summary.title);
      if text <= title then 0 else if Contains(title, text) then 1 else 2
  }

  function Ranked(lower: string -> string, text: string, docs: seq<Document>): seq<Document> {
    if text == "" then docs else StableSort(TitleScore(lower, text), docs)
  }

  /** With a text, the matches are listed by title score, each score in the order of the documents. */
  lemma RankedIsBucketed(lower: string -> string, text: string, docs: seq<Document>)
    requires text != ""
    ensures Ranked(lower, text, docs) == Buckets(TitleScore(lower, text), docs)
  {
    SortIsBucketing(TitleScore(lower, text), docs);
  }

  /**
   In the list shown for a text, a title that starts with it comes before any that does not, and a title that
   contains it before any that does not; the list has the matches, each as often as it matched.
   */
  lemma RankedPutsTitlesFirst(lower: string -> string, text: string, docs: seq<Document>)
    ensures multiset(Ranked(lower, text, docs)) == multiset(docs)
    ensures text != "" ==>
              var ranked := Ranked(lower, text, docs);
              forall i, j | 0 <= i < j < |ranked| ::
                var before, after := lower(ranked[i].summary.title), lower(ranked[j].summary.title);
                (text <= after ==> text <= before) && (Contains(after, text) ==> Contains(before, text))
  {
    SortOrdersScores(TitleScore(lower, text), docs);
    if text != "" {
      var ranked, score := Ranked(lower, text, docs), TitleScore(lower, text);
      forall i, j | 0 <= i < j < |ranked|
        ensures var before, after := lower(ranked[i].summary.title), lower(ranked[j].summary.title);
                (text <= after ==> text <= before) && (Contains(after, text) ==> Contains(before, text))
      {
        assert score(ranked[i]) <= score(ranked[j]);
        StartIsContained(lower(ranked[i].summary.title), text);
      }
    }
  }

  lemma StartIsContained(title: string, text: string)
    ensures text <= title ==> Contains(title, text)
  {
    assert title[0..] == title;
  }

  class InMemorySearchService {
    const documents: seq<Document>
    const env: Env
    const leq: (string, string) -> bool
    const lower: string -> string

    constructor (documents: seq<Document>, env: Env, leq: (string, string) -> bool, lower: string -> string)
      ensures this.documents == documents && this.env == env && this.leq == leq && this.lower == lower
    {
      this.documents, this.env, this.leq, this.lower := documents, env, leq, lower;
    }

    method Matching(text: string, filters: seq<Filter>) returns (matched: seq<Document>)
      ensures matched == MatchedDocs(env, documents, text, filters)
    {
      matched := [];
      for i := 0 to |documents|
        invariant matched == MatchedDocs(env, documents[..i], text, filters)
      {
        assert documents[..i + 1][..i] == documents[..i];
        if Matches(env, documents[i], text, filters) {
          matched := matched + [documents[i]];
        }
      }
      assert documents[..|documents|] == documents;
    }

    method ComputeFacets(text: string, filters: seq<Filter>) returns (facets: seq<FacetCount>)
      ensures facets == MemoryFacets(leq, env, documents, text, filters, DIMENSIONS)
    {
      facets := [];
      for k := 0 to |DIMENSIONS|
        invariant facets + MemoryFacets(leq, env, documents, text, filters, DIMENSIONS[k..])
               == MemoryFacets(leq, env, documents, text, filters, DIMENSIONS)
      {
        var dimension := DIMENSIONS[k];
        var base := Matching(text, Without(filters, dimension));
        var counts := CountValues(base, dimension);
        assert DIMENSIONS[k..][1..] == DIMENSIONS[k + 1..];
        facets := facets + Labelled(dimension, Sort(leq, counts));
      }
    }

    method CountValues(base: seq<Document>, dimension: Dimension) returns (counts: seq<Entry>)
      ensures counts == Tally(FacetColumn(base, dimension))
    {
      counts := [];
      ghost var column := FacetColumn(base, dimension);
      for i := 0 to |base|
        invariant counts == Tally(column[..i])
      {
        assert column[..i + 1][..i] == column[..i];
        var value := FacetValue(base[i], dimension);
        if value == None {
          continue;
        }
        counts := Bump(counts, value.value);
      }
      assert column[..|base|] == column;
    }

    method Search(query: Query) returns (r: Results)
      ensures r.page == ClampPagination(query.page, query.size)
      ensures var matched := MatchedDocs(env, documents, query.text, query.filters);
              r.totalMatches == |matched| &&
              r.results == Summaries(PageOf(Ranked(lower, query.text, matched), r.page)) &&
              r.facets == MemoryFacets(leq, env, documents, query.text, query.filters, DIMENSIONS)
    {
      var page := ClampPagination(query.page, query.size);
      var matched := Matching(query.text, query.filters);
      var totalMatches := |matched|;
      if query.text != "" {
        matched := StableSort(TitleScore(lower, query.text), matched);
      }
      var facets := ComputeFacets(query.text, query.filters);
      r := Results(Summaries(PageOf(matched, page)), totalMatches, facets, page);
    }
  }

  function Summaries(docs: seq<Document>): seq<Summary> {
    seq(|docs|, i requires 0 <= i < |docs| => docs[i].summary)
  }

  // ---------- the Postgres engine ----------

  function SelectedRows(env: Env, rows: seq<Row>, condition: Expr): seq<Row> {
    if rows == [] then [] else
      SelectedRows(env, rows[..|rows| - 1], condition)
      + if Selects(env, rows[|rows| - 1], condition) then [rows[|rows| - 1]] else []
  }

  function AsText(v: Value): Option<string> {
    match v
    case Text(s) => Some(s)
    case _ => None
  }

  function SqlColumn(env: Env, rows: seq<Row>, e: Expr): seq<Option<string>> {
    seq(|rows|, i requires 0 <= i < |rows| => AsText(Eval(env, rows[i], e)))
  }

  function RowSummaries(rows: seq<Row>, now: int): seq<Summary> {
    seq(|rows|, i requires 0 <= i < |rows| => ToSummary(rows[i], now))
  }

  class PostgresSearchService {
    const rows: seq<Row>
    const env: Env
    const leq: (string, string) -> bool

    /** The joined rows, in the order of the query's ORDER BY. */
    constructor (rows: seq<Row>, env: Env, leq: (string, string) -> bool)
      ensures this.rows == rows && this.env == env && this.leq == leq
    {
      this.rows, this.env, this.leq := rows, env, leq;
    }

    /** The grouping query; its answer is known only by what the database promises. */
    method GroupedQuery(e: Expr, condition: Expr) returns (entries: seq<Entry>)
      requires IsTotalOrder(leq)
      ensures IsGroupCount(leq, SqlColumn(env, SelectedRows(env, rows, condition), e), entries)
    {
      var column := SqlColumn(env, SelectedRows(env, rows, condition), e);
      LoopAnswersTheQuery(leq, column);
      entries := GroupCounts(leq, column);
    }

    method ComputeFacets(text: string, filters: seq<Filter>) returns (facets: Option<seq<FacetCount>>)
      requires IsTotalOrder(leq)
      ensures facets == SqlFacets(leq, env, rows, text, filters, DIMENSIONS)
    {
      var counted: seq<FacetCount> := [];
      PrependedTwice([], [], SqlFacets(leq, env, rows, text, filters, DIMENSIONS));
      assert DIMENSIONS[0..] == DIMENSIONS;
      for k := 0 to |DIMENSIONS|
        invariant SqlFacets(leq, env, rows, text, filters, DIMENSIONS) ==
                  Prepended(counted, SqlFacets(leq, env, rows, text, filters, DIMENSIONS[k..]))
      {
        var dimension := DIMENSIONS[k];
        assert DIMENSIONS[k..][1..] == DIMENSIONS[k + 1..];
        var whereSql := BuildWhereSql(text, Without(filters, dimension));
        if whereSql == None {
          return None;
        }
        var entries := GroupedQuery(FacetValueExpr(dimension), whereSql.value);
        ghost var column := SqlColumn(env, SelectedRows(env, rows, whereSql.value), FacetValueExpr(dimension));
        LoopAnswersTheQuery(leq, column);
        GroupCountIsUnique(leq, column, entries, GroupCounts(leq, column));
        PrependedTwice(counted, Labelled(dimension, entries),
                       SqlFacets(leq, env, rows, text, filters, DIMENSIONS[k + 1..]));
        counted := counted + Labelled(dimension, entries);
      }
      PrependedTwice(counted, [], Some([]));
      facets := Some(counted);
    }

    /** No answer when the database refuses a filter; the facet queries then have nothing new to refuse. */
    method Search(query: Query) returns (r: Option<Results>)
      requires IsTotalOrder(leq)
      ensures r.Some? <==> WhereSql(query.text, query.filters).Some?
      ensures r.Some? ==>
                var selected := SelectedRows(env, rows, WhereSql(query.text, query.filters).value);
                r.value.page == ClampPagination(query.page, query.size) &&
                r.value.totalMatches == |selected| &&
                r.value.results == RowSummaries(PageOf(selected, r.value.page), env.now) &&
                Some(r.value.facets) == SqlFacets(leq, env, rows, query.text, query.filters, DIMENSIONS)
    {
      var page := ClampPagination(query.page, query.size);
      var whereSql := BuildWhereSql(query.text, query.filters);
      if whereSql == None {
        return None;
      }
      FacetQueriesAreBuilt(leq, env, rows, query.text, query.filters, DIMENSIONS);
      var selected := SelectedRows(env, rows, whereSql.value);
      var facets := ComputeFacets(query.text, query.filters);
      r := Some(Results(RowSummaries(PageOf(selected, page), env.now), |selected|, facets.value, page));
    }
  }

  /** The facet lists of the dimensions, None when a clause cannot be built. */
  function SqlFacets(leq: (string, string) -> bool, env: Env, rows: seq<Row>, text: string, filters: seq<Filter>,
                     dimensions: seq<Dimension>): Option<seq<FacetCount>>
  {
    if dimensions == [] then Some([]) else
      var dimension := dimensions[0];
      match WhereSql(text, Without(filters, dimension))
      case None => None
      case Some(condition) =>
        var column := SqlColumn(env, SelectedRows(env, rows, condition), FacetValueExpr(dimension));
        Prepended(Labelled(dimension, GroupCounts(leq, column)),
                  SqlFacets(leq, env, rows, text, filters, dimensions[1..]))
  }

  function Prepended(first: seq<FacetCount>, rest: Option<seq<FacetCount>>): Option<seq<FacetCount>> {
    match rest
    case None => None
    case Some(more) => Some(first + more)
  }

  lemma PrependedTwice(a: seq<FacetCount>, b: seq<FacetCount>, rest: Option<seq<FacetCount>>)
    ensures Prepended(a, Prepended(b, rest)) == Prepended(a + b, rest)
    ensures Prepended([], rest) == rest && a + [] == a
  {
    if rest.Some? {
      assert a + (b + rest.value) == a + b + rest.value;
      assert [] + rest.value == rest.value;
    }
  }

  lemma {:induction false} WithoutKeepsParts(filters: seq<Filter>, dimension: Dimension)
    requires forall k | 0 <= k < |filters| :: FilterSql(filters[k]).Some?
    ensures forall k | 0 <= k < |Without(filters, dimension)| :: FilterSql(Without(filters, dimension)[k]).Some?
  {
    if filters != [] { WithoutKeepsParts(filters[1..], dimension); }
  }

  lemma {:induction false} FacetQueriesAreBuilt(leq: (string, string) -> bool, env: Env, rows: seq<Row>, text: string,
                                                filters: seq<Filter>, dimensions: seq<Dimension>)
    requires WhereSql(text, filters).Some?
    ensures SqlFacets(leq, env, rows, text, filters, dimensions).Some?
  {
    if dimensions != [] {
      var parts := if text == "" then TRUE else And(TRUE, TextMatch(text));
      WhereNeedsEveryPart(parts, filters);
      WithoutKeepsParts(filters, dimensions[0]);
      WhereNeedsEveryPart(parts, Without(filters, dimensions[0]));
      FacetQueriesAreBuilt(leq, env, rows, text, filters, dimensions[1..]);
    }
  }

  // ---------- one meaning ----------

  function ProjectAll(rows: seq<Row>, now: int): seq<Document> {
    seq(|rows|, i requires 0 <= i < |rows| => Project(rows[i], now))
  }

  /** The rows the WHERE clause selects are, in order, those whose documents the in-memory engine matches. */
  lemma {:induction false} SelectionAgrees(env: Env, rows: seq<Row>, text: string, filters: seq<Filter>)
    requires forall k | 0 <= k < |filters| :: IsWellFormed(filters[k])
    requires forall i | 0 <= i < |rows| :: !BlankScope(rows[i])
    ensures WhereSql(text, filters).Some?
    ensures MatchedDocs(env, ProjectAll(rows, env.now), text, filters) ==
            ProjectAll(SelectedRows(env, rows, WhereSql(text, filters).value), env.now)
  {
    WhereNeedsEveryPart(if text == "" then TRUE else And(TRUE, TextMatch(text)), filters);
    if rows != [] {
      var init, last := rows[..|rows| - 1], rows[|rows| - 1];
      SelectionAgrees(env, init, text, filters);
      WhereAgrees(env, last, text, filters);
      var docs := ProjectAll(rows, env.now);
      assert docs[..|rows| - 1] == ProjectAll(init, env.now);
    }
  }

  lemma {:induction false} RowColumnIsDocColumn(env: Env, rows: seq<Row>, dimension: Dimension)
    requires forall i | 0 <= i < |rows| :: !BlankScope(rows[i])
    ensures SqlColumn(env, rows, FacetValueExpr(dimension)) == FacetColumn(ProjectAll(rows, env.now), dimension)
  {
    forall i | 0 <= i < |rows|
      ensures AsText(Eval(env, rows[i], FacetValueExpr(dimension))) == FacetValue(Project(rows[i], env.now), dimension)
    {
      FacetValueAgrees(env, rows[i], dimension);
    }
  }

  lemma {:induction false} SelectedAreNotBlank(env: Env, rows: seq<Row>, condition: Expr)
    requires forall i | 0 <= i < |rows| :: !BlankScope(rows[i])
    ensures forall i | 0 <= i < |SelectedRows(env, rows, condition)| ::
              !BlankScope(SelectedRows(env, rows, condition)[i])
  {
    if rows != [] { SelectedAreNotBlank(env, rows[..|rows| - 1], condition); }
  }

  lemma {:induction false} WithoutStaysWellFormed(filters: seq<Filter>, dimension: Dimension)
    requires forall k | 0 <= k < |filters| :: IsWellFormed(filters[k])
    ensures forall k | 0 <= k < |Without(filters, dimension)| :: IsWellFormed(Without(filters, dimension)[k])
  {
    if filters != [] { WithoutStaysWellFormed(filters[1..], dimension); }
  }

  lemma {:induction false} FacetsAgree(leq: (string, string) -> bool, env: Env, rows: seq<Row>, text: string,
                                       filters: seq<Filter>, dimensions: seq<Dimension>)
    requires forall k | 0 <= k < |filters| :: IsWellFormed(filters[k])
    requires forall i | 0 <= i < |rows| :: !BlankScope(rows[i])
    ensures SqlFacets(leq, env, rows, text, filters, dimensions) ==
            Some(MemoryFacets(leq, env, ProjectAll(rows, env.now), text, filters, dimensions))
  {
    if dimensions != [] {
      var d := dimensions[0];
      WithoutStaysWellFormed(filters, d);
      SelectionAgrees(env, rows, text, Without(filters, d));
      var condition := WhereSql(text, Without(filters, d)).value;
      SelectedAreNotBlank(env, rows, condition);
      RowColumnIsDocColumn(env, SelectedRows(env, rows, condition), d);
      FacetsAgree(leq, env, rows, text, filters, dimensions[1..]);
    }
  }

  /**
   One contract, two engines: over the same catalog and well-formed filters they find the same resources,
   so the same total, and show the same facet list, value for value and count for count.
   */
  lemma EnginesAgree(leq: (string, string) -> bool, env: Env, rows: seq<Row>, text: string, filters: seq<Filter>)
    requires forall k | 0 <= k < |filters| :: IsWellFormed(filters[k])
    requires forall i | 0 <= i < |rows| :: !BlankScope(rows[i])
    ensures WhereSql(text, filters).Some?
    ensures var selected := SelectedRows(env, rows, WhereSql(text, filters).value);
            var matched := MatchedDocs(env, ProjectAll(rows, env.now), text, filters);
            |selected| == |matched| && RowSummaries(selected, env.now) == Summaries(matched)
    ensures SqlFacets(leq, env, rows, text, filters, DIMENSIONS) ==
            Some(MemoryFacets(leq, env, ProjectAll(rows, env.now), text, filters, DIMENSIONS))
  {
    SelectionAgrees(env, rows, text, filters);
    FacetsAgree(leq, env, rows, text, filters, DIMENSIONS);
  }

  // ---------- what is found ----------

  lemma MatchedSingly(env: Env, doc: Document, text: string, filters: seq<Filter>)
    ensures MatchedDocs(env, [doc], text, filters) == if Matches(env, doc, text, filters) then [doc] else []
  {
    assert [doc][..0] == [];
    assert MatchedDocs(env, [], text, filters) == [];
  }

  lemma MatchedLast(env: Env, docs: seq<Document>, text: string, filters: seq<Filter>)
    requires docs != []
    ensures MatchedDocs(env, docs, text, filters) ==
            MatchedDocs(env, docs[..|docs| - 1], text, filters)
            + MatchedDocs(env, [docs[|docs| - 1]], text, filters)
  {
    MatchedSingly(env, docs[|docs| - 1], text, filters);
  }

  /** The matches of two parts of a catalog are those of the parts, in order. */
  lemma {:induction false} MatchedInParts(env: Env, a: seq<Document>, b: seq<Document>, text: string,
                                          filters: seq<Filter>)
    ensures MatchedDocs(env, a + b, text, filters) ==
            MatchedDocs(env, a, text, filters) + MatchedDocs(env, b, text, filters)
  {
    if b == [] {
      assert a + b == a;
    } else {
      var init, all := b[..|b| - 1], a + b;
      assert all[..|all| - 1] == a + init && all[|all| - 1] == b[|b| - 1];
      MatchedInParts(env, a, init, text, filters);
      MatchedLast(env, all, text, filters);
      MatchedLast(env, b, text, filters);
    }
  }

  lemma SelectedSingly(env: Env, row: Row, condition: Expr)
    ensures SelectedRows(env, [row], condition) == if Selects(env, row, condition) then [row] else []
  {
    assert [row][..0] == [];
    assert SelectedRows(env, [], condition) == [];
  }

  lemma SelectedLast(env: Env, rows: seq<Row>, condition: Expr)
    requires rows != []
    ensures SelectedRows(env, rows, condition) ==
            SelectedRows(env, rows[..|rows| - 1], condition) + SelectedRows(env, [rows[|rows| - 1]], condition)
  {
    SelectedSingly(env, rows[|rows| - 1], condition);
  }

  lemma {:induction false} SelectedInParts(env: Env, a: seq<Row>, b: seq<Row>, condition: Expr)
    ensures SelectedRows(env, a + b, condition) == SelectedRows(env, a, condition) + SelectedRows(env, b, condition)
  {
    if b == [] {
      assert a + b == a;
    } else {
      var init, all := b[..|b| - 1], a + b;
      assert all[..|all| - 1] == a + init && all[|all| - 1] == b[|b| - 1];
      SelectedInParts(env, a, init, condition);
      SelectedLast(env, all, condition);
      SelectedLast(env, b, condition);
    }
  }

  /** The text predicate finds at least what contains the query. */
  ghost predicate FindsSubstrings(env: Env) {
    forall text, query :: Contains(text, query) ==> env.hit(text, query)
  }

  lemma WhereWithoutText(env: Env, row: Row, text: string, filters: seq<Filter>)
    requires FindsSubstrings(env) && FieldHas(row, text) && WhereSql(text, filters).Some?
    ensures forall k | 0 <= k < |filters| :: FilterSql(filters[k]).Some?
    ensures Selects(env, row, WhereSql(text, filters).value) <==>
            forall k | 0 <= k < |filters| :: Selects(env, row, FilterSql(filters[k]).value)
  {
    var parts := if text == "" then TRUE else And(TRUE, TextMatch(text));
    WhereNeedsEveryPart(parts, filters);
    WhereIsConjunction(env, row, parts, filters);
    SearchTextHasWhatAFieldHas(row, text);
    if text != "" {
      ConjunctionTest(env, row, TRUE, TextMatch(text));
      assert Eval(env, row, TextMatch(text)) == Bool(env.hit(SearchText(row), text));
    }
  }

  /**
   A row one of whose title, description, author, isbn and doi contains the query is found by both engines
   exactly when it has the value of every filter.
   */
  lemma FieldsAreSearched(env: Env, row: Row, text: string, filters: seq<Filter>)
    requires FindsSubstrings(env) && FieldHas(row, text) && !BlankScope(row)
    requires forall k | 0 <= k < |filters| :: IsWellFormed(filters[k])
    ensures WhereSql(text, filters).Some?
    ensures Selects(env, row, WhereSql(text, filters).value) <==>
            forall k | 0 <= k < |filters| :: RowHas(row, filters[k], env.now)
    ensures Matches(env, Project(row, env.now), text, filters) <==>
            forall k | 0 <= k < |filters| :: RowHas(row, filters[k], env.now)
  {
    WhereAgrees(env, row, text, filters);
    WhereWithoutText(env, row, text, filters);
    forall k | 0 <= k < |filters| { FilterSelectsExactly(env, row, filters[k]); }
  }

  // ---------- what the counts mean ----------

  lemma MatchesOneMore(env: Env, doc: Document, text: string, filters: seq<Filter>, filter: Filter)
    ensures Matches(env, doc, text, filters + [filter]) <==>
            Matches(env, doc, text, filters) && MatchesFilter(doc, filter)
  {
    var narrowed := filters + [filter];
    assert narrowed[|filters|] == filter;
    assert forall k | 0 <= k < |filters| :: narrowed[k] == filters[k];
  }

  lemma ColumnOfOneMore(docs: seq<Document>, doc: Document, dimension: Dimension, value: string)
    ensures Occurrences(FacetColumn(docs + [doc], dimension), value) ==
            Occurrences(FacetColumn(docs, dimension), value) + One(FacetValue(doc, dimension) == Some(value))
  {
    assert FacetColumn(docs + [doc], dimension)[..|docs|] == FacetColumn(docs, dimension);
  }

  lemma {:induction false} OneMoreFilter(env: Env, docs: seq<Document>, text: string, filters: seq<Filter>,
                                         dimension: Dimension, value: string)
    ensures Occurrences(FacetColumn(MatchedDocs(env, docs, text, filters), dimension), value) ==
            |MatchedDocs(env, docs, text, filters + [Filter(dimension, value)])|
  {
    if docs != [] {
      var init, last := docs[..|docs| - 1], docs[|docs| - 1];
      var base := MatchedDocs(env, init, text, filters);
      OneMoreFilter(env, init, text, filters, dimension, value);
      FacetValueIsFilter(last, dimension, value);
      MatchesOneMore(env, last, text, filters, Filter(dimension, value));
      ColumnOfOneMore(base, last, dimension, value);
      assert base + [] == base;
    }
  }

  /**
   Drilling down is exact: a facet shows (dimension, value, n) exactly when n > 0 documents match the query
   with its filters on that dimension replaced by that value.
   */
  lemma DrillDownIsExact(leq: (string, string) -> bool, env: Env, docs: seq<Document>, text: string,
                         filters: seq<Filter>, dimension: Dimension, value: string, n: nat)
    requires IsTotalOrder(leq)
    ensures FacetCount(dimension, value, n) in MemoryFacets(leq, env, docs, text, filters, DIMENSIONS) <==>
            n > 0 && n == |MatchedDocs(env, docs, text, Without(filters, dimension) + [Filter(dimension, value)])|
  {
    var column := MemoryColumn(env, docs, text, filters, dimension);
    var entries := GroupCounts(leq, column);
    LoopAnswersTheQuery(leq, column);
    OneMoreFilter(env, docs, text, Without(filters, dimension), dimension, value);
    assert Entry(value, n) in entries <==> n > 0 && n == Occurrences(column, value);
    FacetsOfDimension(leq, env, docs, text, filters, DIMENSIONS, dimension, value, n);
    assert dimension in DIMENSIONS by {
      match dimension {
        case TypeDim => assert DIMENSIONS[0] == dimension;
        case DepartmentDim => assert DIMENSIONS[1] == dimension;
        case YearDim => assert DIMENSIONS[2] == dimension;
        case LanguageDim => assert DIMENSIONS[3] == dimension;
        case DegreeDim => assert DIMENSIONS[4] == dimension;
        case AccessDim => assert DIMENSIONS[5] == dimension;
      }
    }
  }

  lemma LabelledHas(dimension: Dimension, entries: seq<Entry>, d: Dimension, value: string, n: nat)
    ensures FacetCount(d, value, n) in Labelled(dimension, entries) <==> d == dimension && Entry(value, n) in entries
  {
    if d == dimension && Entry(value, n) in entries {
      var i :| 0 <= i < |entries| && entries[i] == Entry(value, n);
      assert Labelled(dimension, entries)[i] == FacetCount(d, value, n);
    }
  }

  lemma {:induction false} FacetsOfDimension(leq: (string, string) -> bool, env: Env, docs: seq<Document>, text: string,
                                             filters: seq<Filter>, dimensions: seq<Dimension>, d: Dimension,
                                             value: string, n: nat)
    ensures FacetCount(d, value, n) in MemoryFacets(leq, env, docs, text, filters, dimensions) <==>
            d in dimensions && Entry(value, n) in GroupCounts(leq, MemoryColumn(env, docs, text, filters, d))
  {
    if dimensions != [] {
      FacetsOfDimension(leq, env, docs, text, filters, dimensions[1..], d, value, n);
      LabelledHas(dimensions[0], GroupCounts(leq, MemoryColumn(env, docs, text, filters, dimensions[0])), d, value, n);
      assert dimensions == [dimensions[0]] + dimensions[1..];
    }
  }

  lemma {:induction false} WithoutIsExact(filters: seq<Filter>, dimension: Dimension, filter: Filter)
    ensures filter in Without(filters, dimension) <==> filter in filters && filter.dimension != dimension
  {
    if filters != [] {
      WithoutIsExact(filters[1..], dimension, filter);
      assert filters == [filters[0]] + filters[1..];
    }
  }

  /** Of two facets of one dimension the one listed first has another value and the greater count, or its like. */
  ghost predicate FacetsInOrder(leq: (string, string) -> bool, facets: seq<FacetCount>) {
    forall i, j | 0 <= i < j < |facets| && facets[i].dimension == facets[j].dimension ::
      facets[i].value != facets[j].value && facets[i].count >= facets[j].count &&
      (facets[i].count == facets[j].count ==> leq(facets[i].value, facets[j].value))
  }

  lemma FacetsInTwoParts(leq: (string, string) -> bool, dimension: Dimension, entries: seq<Entry>,
                         rest: seq<FacetCount>)
    requires Distinct(entries) && ListsMostFirst(leq, entries) && FacetsInOrder(leq, rest)
    requires forall j | 0 <= j < |rest| :: rest[j].dimension != dimension
    ensures FacetsInOrder(leq, Labelled(dimension, entries) + rest)
  {
    var first := Labelled(dimension, entries);
    var facets := first + rest;
    assert forall j | |first| <= j < |facets| :: facets[j] == rest[j - |first|];
    forall i, j | 0 <= i < j < |facets| && facets[i].dimension == facets[j].dimension
      ensures facets[i].value != facets[j].value && facets[i].count >= facets[j].count
      ensures facets[i].count == facets[j].count ==> leq(facets[i].value, facets[j].value)
    {
      if i < |first| { assert facets[i] == first[i]; }
    }
  }

  lemma {:induction false} FacetListIsInOrder(leq: (string, string) -> bool, env: Env, docs: seq<Document>,
                                              text: string, filters: seq<Filter>, dimensions: seq<Dimension>)
    requires IsTotalOrder(leq)
    requires forall i, j | 0 <= i < j < |dimensions| :: dimensions[i] != dimensions[j]
    ensures FacetsInOrder(leq, MemoryFacets(leq, env, docs, text, filters, dimensions))
    ensures forall k | 0 <= k < |MemoryFacets(leq, env, docs, text, filters, dimensions)| ::
              MemoryFacets(leq, env, docs, text, filters, dimensions)[k].dimension in dimensions
  {
    if dimensions != [] {
      var d, column := dimensions[0], MemoryColumn(env, docs, text, filters, dimensions[0]);
      FacetListIsInOrder(leq, env, docs, text, filters, dimensions[1..]);
      LoopAnswersTheQuery(leq, column);
      assert d !in dimensions[1..];
      FacetsInTwoParts(leq, d, GroupCounts(leq, column),
                       MemoryFacets(leq, env, docs, text, filters, dimensions[1..]));
    }
  }

  /** The facet list a visitor sees names each value of a dimension once, the greatest counts first. */
  lemma FacetsAreListedInOrder(leq: (string, string) -> bool, env: Env, docs: seq<Document>, text: string,
                               filters: seq<Filter>)
    requires IsTotalOrder(leq)
    ensures FacetsInOrder(leq, MemoryFacets(leq, env, docs, text, filters, DIMENSIONS))
  {
    FacetListIsInOrder(leq, env, docs, text, filters, DIMENSIONS);
  }

  /** The counts of a dimension add up to the documents it was counted over that have a value in it. */
  lemma FacetCountsAddUp(leq: (string, string) -> bool, env: Env, docs: seq<Document>, text: string,
                         filters: seq<Filter>, dimension: Dimension)
    requires IsTotalOrder(leq)
    ensures Sum(GroupCounts(leq, MemoryColumn(env, docs, text, filters, dimension))) ==
            NonNull(MemoryColumn(env, docs, text, filters, dimension))
    ensures (dimension == TypeDim || dimension == LanguageDim || dimension == AccessDim) &&
            Without(filters, dimension) == filters ==>
              Sum(GroupCounts(leq, MemoryColumn(env, docs, text, filters, dimension))) ==
              |MatchedDocs(env, docs, text, filters)|
  {
    var column := MemoryColumn(env, docs, text, filters, dimension);
    LoopAnswersTheQuery(leq, column);
    CountsAddUp(leq, column, GroupCounts(leq, column));
    if dimension == TypeDim || dimension == LanguageDim || dimension == AccessDim {
      NothingIsNull(column);
    }
  }

  lemma {:induction false} NothingIsNull(column: seq<Option<string>>)
    requires forall i | 0 <= i < |column| :: column[i].Some?
    ensures NonNull(column) == |column|
  {
    if column != [] { NothingIsNull(column[..|column| - 1]); }
  }
}
