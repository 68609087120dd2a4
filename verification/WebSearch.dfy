/**
 The search page of the portal: how a request becomes a query, which links the page offers, and what a
 visitor who follows them sees.
 */
module WebSearch {
  import opened Common
  import opened Numerals
  import opened Catalog
  import opened Sql
  import opened SearchFilters
  import opened Facets
  import opened Paging
  import opened SearchEngines

  const DEFAULT_PAGE: int := 1
  const DEFAULT_SIZE: int := 10

  /** The parameters of a search request, as they came. */
  datatype Request = Request(q: Option<string>, resourceType: Option<string>, department: Option<string>,
                             page: Option<string>, size: Option<string>)

  datatype Param = Param(name: string, value: string)

  predicate IsSet(s: Option<string>) {
    s.Some? && s.value != ""
  }

  /** Text that is no number, and zero, read as the default. */
  function NumberOr(s: Option<string>, default: int): int {
    match s
    case None => default
    case Some(text) =>
      match ParseInt(text)
      case None => default
      case Some(n) => if n == 0 then default else n
  }

  /** A number that is written and not zero is read, and anything else is the default. */
  ghost predicate ReadsNumber(s: Option<string>, default: int, number: Number) {
    (forall n: int | n != 0 && s == Some(Numeral(n)) :: number == Finite(n as real)) &&
    (s == None || s == Some(Numeral(0)) || ParseInt(s.value) == None ==> number == Finite(default as real))
  }

  lemma NumberIsRead(s: Option<string>, default: int)
    ensures ReadsNumber(s, default, Finite(NumberOr(s, default) as real))
  {
    ParseNumeral(0);
    forall n: int | n != 0 && s == Some(Numeral(n)) ensures NumberOr(s, default) == n {
      ParseNumeral(n);
    }
  }

  function FilterOn(dimension: Dimension, value: Option<string>): seq<Filter> {
    if IsSet(value) then [Filter(dimension, value.value)] else []
  }

  function QueryOf(input: Request): Query {
    Query(OrEmpty(input.q), FilterOn(TypeDim, input.resourceType) + FilterOn(DepartmentDim, input.department),
          Finite(NumberOr(input.page, DEFAULT_PAGE) as real), Finite(NumberOr(input.size, DEFAULT_SIZE) as real))
  }

  /** The text asked for or none, a filter exactly for what is set, and the numbers as written or 1 and 10. */
  lemma QueryIsExact(input: Request)
    ensures QueryOf(input).text == if input.q.Some? then input.q.value else ""
    ensures forall filter :: filter in QueryOf(input).filters <==>
              filter.value != "" && ((filter.dimension == TypeDim && input.resourceType == Some(filter.value)) ||
                                     (filter.dimension == DepartmentDim && input.department == Some(filter.value)))
    ensures |QueryOf(input).filters| == One(IsSet(input.resourceType)) + One(IsSet(input.department))
    ensures ReadsNumber(input.page, 1, QueryOf(input).page) && ReadsNumber(input.size, 10, QueryOf(input).size)
  {
    NumberIsRead(input.page, DEFAULT_PAGE);
    NumberIsRead(input.size, DEFAULT_SIZE);
  }

  method ToSearchQuery(input: Request) returns (query: Query)
    ensures query == QueryOf(input)
  {
    var filters: seq<Filter> := [];
    if IsSet(input.resourceType) {
      filters := filters + [Filter(TypeDim, input.resourceType.value)];
    }
    if IsSet(input.department) {
      filters := filters + [Filter(DepartmentDim, input.department.value)];
    }
    query := Query(OrEmpty(input.q), filters, Finite(NumberOr(input.page, DEFAULT_PAGE) as real),
                   Finite(NumberOr(input.size, DEFAULT_SIZE) as real));
  }

  // ---------- links ----------

  function ParamOf(name: string, value: Option<string>): seq<Param> {
    if IsSet(value) then [Param(name, value.value)] else []
  }

  /** What every link of the page carries along: the type is not in it. */
  function Carried(input: Request): seq<Param> {
    ParamOf("q", input.q) + ParamOf("department", input.department) + ParamOf("size", input.size)
  }

  method BuildQueryString(input: Request) returns (params: seq<Param>)
    ensures params == Carried(input)
    ensures forall k | 0 <= k < |params| :: params[k].name != "type" && params[k].name != "page"
  {
    params := [];
    if IsSet(input.q) {
      params := params + [Param("q", input.q.value)];
    }
    if IsSet(input.department) {
      params := params + [Param("department", input.department.value)];
    }
    if IsSet(input.size) {
      params := params + [Param("size", input.size.value)];
    }
  }

  function Read(params: seq<Param>, name: string): Option<string> {
    if params == [] then None
    else if params[0].name == name then Some(params[0].value)
    else Read(params[1..], name)
  }

  /** The request a link makes. */
  function RequestOf(params: seq<Param>): Request {
    Request(Read(params, "q"), Read(params, "type"), Read(params, "department"), Read(params, "page"),
            Read(params, "size"))
  }

  function PageLink(input: Request, page: int): Request {
    RequestOf([Param("page", Numeral(page))] + Carried(input))
  }

  function TypeLink(input: Request, value: string): Request {
    RequestOf([Param("type", value)] + Carried(input))
  }

  /** A parameter that is not set is as good as none. */
  function Kept(s: Option<string>): Option<string> {
    if IsSet(s) then s else None
  }

  lemma {:induction false} ReadInTurn(a: seq<Param>, b: seq<Param>, name: string)
    ensures Read(a + b, name) == if Read(a, name).Some? then Read(a, name) else Read(b, name)
  {
    if a == [] {
      assert a + b == b;
    } else {
      assert (a + b)[1..] == a[1..] + b;
      ReadInTurn(a[1..], b, name);
    }
  }

  lemma ReadParamOf(name: string, value: Option<string>, wanted: string)
    ensures Read(ParamOf(name, value), wanted) == if wanted == name then Kept(value) else None
  {
  }

  /** Nothing that was set is lost but the type. */
  lemma CarriedRead(first: Param, input: Request, name: string)
    ensures Read([first] + Carried(input), name) ==
            if name == first.name then Some(first.value)
            else if name == "q" then Kept(input.q)
            else if name == "department" then Kept(input.department)
            else if name == "size" then Kept(input.size)
            else None
  {
    var q, d, s := ParamOf("q", input.q), ParamOf("department", input.department), ParamOf("size", input.size);
    ReadInTurn([first], Carried(input), name);
    ReadInTurn(q + d, s, name);
    ReadInTurn(q, d, name);
    ReadParamOf("q", input.q, name);
    ReadParamOf("department", input.department, name);
    ReadParamOf("size", input.size, name);
    assert [first][1..] == [];
  }

  lemma LinkReads(first: Param, input: Request)
    ensures var r := RequestOf([first] + Carried(input));
            (first.name == "page" ==>
               r == Request(Kept(input.q), None, Kept(input.department), Some(first.value), Kept(input.size))) &&
            (first.name == "type" ==>
               r == Request(Kept(input.q), Some(first.value), Kept(input.department), None, Kept(input.size)))
  {
    CarriedRead(first, input, "q");
    CarriedRead(first, input, "type");
    CarriedRead(first, input, "department");
    CarriedRead(first, input, "page");
    CarriedRead(first, input, "size");
  }

  lemma UnsetNumberIsDefault(s: Option<string>, default: int)
    ensures NumberOr(Kept(s), default) == NumberOr(s, default)
  {
    assert ParseInt("") == None;
  }

  /** A link to a page asks the same but for the page, and for the type, which it drops. */
  lemma PageLinkDropsTheType(input: Request, page: int)
    requires page >= 1
    ensures QueryOf(PageLink(input, page)) == QueryOf(input.(resourceType := None)).(page := Finite(page as real))
  {
    LinkReads(Param("page", Numeral(page)), input);
    ParseNumeral(page);
    UnsetNumberIsDefault(input.size, DEFAULT_SIZE);
  }

  /** So it asks the same query exactly when the request set no type. */
  lemma PageLinkIsExact(input: Request, page: int)
    requires page >= 1
    ensures QueryOf(PageLink(input, page)) == QueryOf(input).(page := Finite(page as real)) <==>
            !IsSet(input.resourceType)
  {
    PageLinkDropsTheType(input, page);
    if IsSet(input.resourceType) {
      assert |QueryOf(input).filters| == |QueryOf(PageLink(input, page)).filters| + 1;
    }
  }

  // ---------- what a request comes to ----------

  /** The request as the engine sees it: what was not set is gone, and the page is clamped. */
  datatype Ask = Ask(text: string, resourceType: Option<string>, department: Option<string>, page: Page)
  {
    predicate Valid() {
      page.page >= 1 && page.size >= 1
    }

    function Filters(): seq<Filter> {
      FilterOn(TypeDim, resourceType) + FilterOn(DepartmentDim, department)
    }

    function WithoutType(): Ask {
      this.(resourceType := None)
    }

    function Next(): Ask {
      this.(resourceType := None, page := page.(page := page.page + 1))
    }
  }

  function AskOf(input: Request): (ask: Ask)
    ensures ask.Valid() && ask.Filters() == QueryOf(input).filters && ask.text == QueryOf(input).text
  {
    Ask(OrEmpty(input.q), Kept(input.resourceType), Kept(input.department),
        ClampPagination(QueryOf(input).page, QueryOf(input).size))
  }

  /** The next link on the page of a request asks for the next page, without the type. */
  lemma NextLinkIsNext(input: Request)
    ensures AskOf(PageLink(input, AskOf(input).page.page + 1)) == AskOf(input).Next()
  {
    var n := AskOf(input).page.page + 1;
    LinkReads(Param("page", Numeral(n)), input);
    ParseNumeral(n);
    UnsetNumberIsDefault(input.size, DEFAULT_SIZE);
  }

  // ---------- following the next links ----------

  /** What an engine that lists its matches in some order finds for the request. */
  function Found<T>(list: (string, seq<Filter>) -> seq<T>, ask: Ask): seq<T> {
    list(ask.text, ask.Filters())
  }

  predicate HasNext<T>(list: (string, seq<Filter>) -> seq<T>, ask: Ask) {
    NextPage(ask.page, |Found(list, ask)|).Some?
  }

  /** The pages a visitor sees who follows the next link while there is one. */
  function Follow<T>(list: (string, seq<Filter>) -> seq<T>, ask: Ask): seq<seq<T>>
    requires ask.Valid()
    decreases ask.resourceType.Some?, |Found(list, ask)| - (ask.page.page - 1) * ask.page.size
  {
    NextOffset(ask.page);
    [PageOf(Found(list, ask), ask.page)] + if HasNext(list, ask) then Follow(list, ask.Next()) else []
  }

  /** Every next link on the way asks, but for the page, what the page it stands on answers. */
  predicate LinksAskTheSame<T(==)>(list: (string, seq<Filter>) -> seq<T>, ask: Ask)
    requires ask.Valid()
    decreases ask.resourceType.Some?, |Found(list, ask)| - (ask.page.page - 1) * ask.page.size
  {
    NextOffset(ask.page);
    HasNext(list, ask) ==> ask.Next().(page := ask.page) == ask && LinksAskTheSame(list, ask.Next())
  }

  /** They do exactly when the request set no type or there is no next page. */
  lemma {:induction false} LinksAreExact<T>(list: (string, seq<Filter>) -> seq<T>, ask: Ask)
    requires ask.Valid()
    ensures LinksAskTheSame(list, ask) <==>
            ask.resourceType == None || |Found(list, ask)| <= ask.page.page * ask.page.size
    decreases ask.resourceType.Some?, |Found(list, ask)| - (ask.page.page - 1) * ask.page.size
  {
    NextOffset(ask.page);
    if HasNext(list, ask) { LinksAreExact(list, ask.Next()); }
  }

  lemma {:induction false} FollowWithoutType<T>(list: (string, seq<Filter>) -> seq<T>, ask: Ask)
    requires ask.Valid() && ask.resourceType == None
    ensures Follow(list, ask) == FollowNext(Found(list, ask), ask.page)
    decreases |Found(list, ask)| - (ask.page.page - 1) * ask.page.size
  {
    NextOffset(ask.page);
    if HasNext(list, ask) {
      FollowWithoutType(list, ask.Next());
    }
  }

  /** While the links ask the same, the visitor sees each match once, in ceil(total / size) pages. */
  lemma EveryMatchIsOnOnePage<T>(list: (string, seq<Filter>) -> seq<T>, ask: Ask)
    requires ask.Valid() && ask.page.page == 1 && LinksAskTheSame(list, ask)
    ensures Concat(Follow(list, ask)) == Found(list, ask)
    ensures |Follow(list, ask)| ==
            if Found(list, ask) == [] then 1 else (|Found(list, ask)| + ask.page.size - 1) / ask.page.size
  {
    LinksAreExact(list, ask);
    PagesAreTheWholeList(Found(list, ask), ask.page.size);
    if ask.resourceType == None {
      FollowWithoutType(list, ask);
    } else {
      assert Follow(list, ask) == FollowNext(Found(list, ask), ask.page);
    }
  }

  lemma PageTwoOn<T>(wider: seq<T>, size: nat)
    requires size >= 1
    ensures Concat(FollowNext(wider, Page(2, size))) == if size <= |wider| then wider[size..] else []
  {
    if size <= |wider| {
      FollowNextShowsTheRest(wider, Page(2, size));
    } else {
      var pages := FollowNext(wider, Page(2, size));
      assert pages[0] == [] && pages[1..] == [];
    }
  }

  /** With a type set, the pages from the second on are those of the query without it. */
  lemma PagesAfterTheFirst<T>(list: (string, seq<Filter>) -> seq<T>, ask: Ask)
    requires ask.Valid() && ask.page.page == 1 && ask.page.size < |Found(list, ask)|
    ensures var found, wider, size := Found(list, ask), Found(list, ask.WithoutType()), ask.page.size;
            Concat(Follow(list, ask)) == found[..size] + if size <= |wider| then wider[size..] else []
  {
    FollowWithoutType(list, ask.Next());
    PageTwoOn(Found(list, ask.WithoutType()), ask.page.size);
    var pages := Follow(list, ask);
    assert pages[0] == Found(list, ask)[..ask.page.size];
    assert pages[1..] == Follow(list, ask.Next());
  }

  /**
   So a visitor who starts on page 1 sees the matches, each once, exactly when the request set no type, all
   matches fit on the page, or leaving out the type finds nothing more.
   */
  lemma VisitorSeesTheMatchesExactly<T>(list: (string, seq<Filter>) -> seq<T>, ask: Ask)
    requires ask.Valid() && ask.page.page == 1
    requires var found, wider := Found(list, ask), Found(list, ask.WithoutType());
             |found| <= |wider| && (|found| == |wider| ==> found == wider)
    ensures Concat(Follow(list, ask)) == Found(list, ask) <==>
            ask.resourceType == None || |Found(list, ask)| <= ask.page.size ||
            |Found(list, ask.WithoutType())| == |Found(list, ask)|
  {
    var found, wider, size := Found(list, ask), Found(list, ask.WithoutType()), ask.page.size;
    LinksAreExact(list, ask);
    if ask.resourceType == None || |found| <= size {
      EveryMatchIsOnOnePage(list, ask);
    } else {
      PagesAfterTheFirst(list, ask);
      assert found == found[..size] + found[size..];
      assert |found[..size] + wider[size..]| == |wider|;
    }
  }

  // ---------- the two engines ----------

  /** `plain` trims the text and reads it in lower case. */
  function MemoryList(lower: string -> string, plain: string -> string, env: Env, docs: seq<Document>)
    : (string, seq<Filter>) -> seq<Summary>
  {
    (text: string, filters: seq<Filter>) =>
      Summaries(Ranked(lower, plain(text), MatchedDocs(env, docs, plain(text), filters)))
  }

  /** `trim` trims the text; a filter the database refuses lists nothing. */
  function PostgresList(trim: string -> string, env: Env, rows: seq<Row>): (string, seq<Filter>) -> seq<Summary> {
    (text: string, filters: seq<Filter>) =>
      match WhereSql(trim(text), filters)
      case Some(condition) => RowSummaries(SelectedRows(env, rows, condition), env.now)
      case None => []
  }

  lemma {:induction false} FewerFiltersMatchMore(env: Env, docs: seq<Document>, text: string, fewer: seq<Filter>,
                                                 filter: Filter)
    ensures var found, wider := MatchedDocs(env, docs, text, [filter] + fewer), MatchedDocs(env, docs, text, fewer);
            |found| <= |wider| && (|found| == |wider| ==> found == wider)
  {
    if docs != [] {
      FewerFiltersMatchMore(env, docs[..|docs| - 1], text, fewer, filter);
      var filters := [filter] + fewer;
      assert forall k | 0 <= k < |fewer| :: filters[k + 1] == fewer[k];
      assert Matches(env, docs[|docs| - 1], text, filters) ==> Matches(env, docs[|docs| - 1], text, fewer);
    }
  }

  lemma {:induction false} SortKeepsLength<T>(score: T -> nat, xs: seq<T>)
    ensures |StableSort(score, xs)| == |xs|
  {
    if xs != [] {
      SortKeepsLength(score, xs[1..]);
      InsertAddsOne(score, xs[0], StableSort(score, xs[1..]));
    }
  }

  lemma {:induction false} InsertAddsOne<T>(score: T -> nat, x: T, sorted: seq<T>)
    ensures |InsertStable(score, x, sorted)| == |sorted| + 1
  {
    if sorted != [] { InsertAddsOne(score, x, sorted[1..]); }
  }

  lemma TypeFilterNarrows(env: Env, docs: seq<Document>, text: string, ask: Ask)
    ensures var found := MatchedDocs(env, docs, text, ask.Filters());
            var wider := MatchedDocs(env, docs, text, ask.WithoutType().Filters());
            |found| <= |wider| && (|found| == |wider| ==> found == wider)
  {
    var fewer := FilterOn(DepartmentDim, ask.department);
    assert [] + fewer == fewer;
    if IsSet(ask.resourceType) {
      FewerFiltersMatchMore(env, docs, text, fewer, Filter(TypeDim, ask.resourceType.value));
    }
  }

  lemma RankingKeepsLength(lower: string -> string, text: string, docs: seq<Document>)
    ensures |Ranked(lower, text, docs)| == |docs|
  {
    SortKeepsLength(TitleScore(lower, text), docs);
  }

  /** For the in-memory engine. */
  lemma MemoryVisitorIsExact(lower: string -> string, plain: string -> string, env: Env, docs: seq<Document>, ask: Ask)
    requires ask.Valid() && ask.page.page == 1
    ensures var list := MemoryList(lower, plain, env, docs);
            Concat(Follow(list, ask)) == Found(list, ask) <==>
            ask.resourceType == None || |Found(list, ask)| <= ask.page.size ||
            |Found(list, ask.WithoutType())| == |Found(list, ask)|
  {
    var text := plain(ask.text);
    TypeFilterNarrows(env, docs, text, ask);
    RankingKeepsLength(lower, text, MatchedDocs(env, docs, text, ask.Filters()));
    RankingKeepsLength(lower, text, MatchedDocs(env, docs, text, ask.WithoutType().Filters()));
    VisitorSeesTheMatchesExactly(MemoryList(lower, plain, env, docs), ask);
  }

  lemma TypeIsWhatIsRefused(text: string, input: Request)
    ensures WhereSql(text, QueryOf(input).filters).Some? <==>
            (IsSet(input.resourceType) ==> IsTypeName(input.resourceType.value))
  {
    var filters := QueryOf(input).filters;
    WhereNeedsEveryPart(if text == "" then TRUE else And(TRUE, TextMatch(text)), filters);
    if IsSet(input.resourceType) { assert filters[0] == Filter(TypeDim, input.resourceType.value); }
  }

  lemma PostgresFinds(trim: string -> string, env: Env, rows: seq<Row>, ask: Ask)
    requires forall i | 0 <= i < |rows| :: !BlankScope(rows[i])
    requires IsSet(ask.resourceType) ==> IsTypeName(ask.resourceType.value)
    ensures Found(PostgresList(trim, env, rows), ask) ==
            Summaries(MatchedDocs(env, ProjectAll(rows, env.now), trim(ask.text), ask.Filters()))
  {
    var filters := ask.Filters();
    assert forall k | 0 <= k < |filters| :: IsWellFormed(filters[k]);
    SelectionAgrees(env, rows, trim(ask.text), filters);
  }

  /** And for the Postgres engine, when the type is one the database knows. */
  lemma PostgresVisitorIsExact(trim: string -> string, env: Env, rows: seq<Row>, ask: Ask)
    requires ask.Valid() && ask.page.page == 1
    requires forall i | 0 <= i < |rows| :: !BlankScope(rows[i])
    requires IsSet(ask.resourceType) ==> IsTypeName(ask.resourceType.value)
    ensures var list := PostgresList(trim, env, rows);
            Concat(Follow(list, ask)) == Found(list, ask) <==>
            ask.resourceType == None || |Found(list, ask)| <= ask.page.size ||
            |Found(list, ask.WithoutType())| == |Found(list, ask)|
  {
    PostgresFinds(trim, env, rows, ask);
    PostgresFinds(trim, env, rows, ask.WithoutType());
    TypeFilterNarrows(env, ProjectAll(rows, env.now), trim(ask.text), ask);
    VisitorSeesTheMatchesExactly(PostgresList(trim, env, rows), ask);
  }

  // ---------- the page a request is answered with ----------

  lemma SliceOfSummaries(docs: seq<Document>, offset: nat, size: nat)
    ensures Slice(Summaries(docs), offset, size) == Summaries(Slice(docs, offset, size))
  {
    var a, b := Slice(Summaries(docs), offset, size), Summaries(Slice(docs, offset, size));
    var from := Min(offset, |docs|);
    assert |a| == |b|;
    forall k | 0 <= k < |a| ensures a[k] == b[k] {
      assert a[k] == Summaries(docs)[from + k] && b[k] == Slice(docs, offset, size)[k].summary;
    }
  }

  lemma SliceOfRowSummaries(rows: seq<Row>, now: int, offset: nat, size: nat)
    ensures Slice(RowSummaries(rows, now), offset, size) == RowSummaries(Slice(rows, offset, size), now)
  {
    var a, b := Slice(RowSummaries(rows, now), offset, size), RowSummaries(Slice(rows, offset, size), now);
    var from := Min(offset, |rows|);
    assert |a| == |b|;
    forall k | 0 <= k < |a| ensures a[k] == b[k] {
      assert a[k] == RowSummaries(rows, now)[from + k] && b[k] == ToSummary(Slice(rows, offset, size)[k], now);
    }
  }

  lemma PageIsSlice<T>(xs: seq<T>, page: Page, offset: nat)
    requires page.page >= 1 && page.size >= 1 && offset == (page.page - 1) * page.size
    ensures PageOf(xs, page) == Slice(xs, offset, page.size)
  {
  }

  lemma OffsetOf(page: Page) returns (offset: nat)
    requires page.page >= 1 && page.size >= 1
    ensures offset == (page.page - 1) * page.size
  {
    MulKeepsOrder(0, page.page - 1, page.size);
    offset := (page.page - 1) * page.size;
  }

  /** A page of the listed summaries is the summaries of that page. */
  lemma PagesAreOfSummaries(docs: seq<Document>, rows: seq<Row>, now: int, page: Page)
    requires page.page >= 1 && page.size >= 1
    ensures PageOf(Summaries(docs), page) == Summaries(PageOf(docs, page))
    ensures PageOf(RowSummaries(rows, now), page) == RowSummaries(PageOf(rows, page), now)
  {
    var offset := OffsetOf(page);
    SliceOfSummaries(docs, offset, page.size);
    SliceOfRowSummaries(rows, now, offset, page.size);
    PageIsSlice(docs, page, offset);
    PageIsSlice(rows, page, offset);
    PageIsSlice(Summaries(docs), page, offset);
    PageIsSlice(RowSummaries(rows, now), page, offset);
  }

  datatype PageModel = PageModel(results: Results, prevPage: Option<int>, nextPage: Option<int>,
                                 queryString: seq<Param>)

  /** The page shows the part of the list that was asked for, and offers the next link exactly when there is more. */
  ghost predicate Shows(list: (string, seq<Filter>) -> seq<Summary>, input: Request, model: PageModel) {
    var ask := AskOf(input);
    model.results.page == ask.page &&
    model.results.results == PageOf(Found(list, ask), ask.page) &&
    model.results.totalMatches == |Found(list, ask)| &&
    model.nextPage == (if HasNext(list, ask) then Some(ask.page.page + 1) else None) &&
    model.prevPage == (if ask.page.page > 1 then Some(ask.page.page - 1) else None) &&
    model.queryString == Carried(input)
  }

  method BuildModel(input: Request, results: Results) returns (model: PageModel)
    ensures model.results == results && model.queryString == Carried(input)
    ensures model.nextPage == NextPage(results.page, results.totalMatches)
    ensures model.prevPage == if results.page.page > 1 then Some(results.page.page - 1) else None
  {
    var queryString := BuildQueryString(input);
    model := PageModel(results,
                       if results.page.page > 1 then Some(results.page.page - 1) else None,
                       if results.page.page * results.page.size < results.totalMatches
                         then Some(results.page.page + 1) else None,
                       queryString);
  }

  method MemoryPage(service: InMemorySearchService, plain: string -> string, input: Request)
    returns (model: PageModel)
    ensures Shows(MemoryList(service.lower, plain, service.env, service.documents), input, model)
  {
    var query := ToSearchQuery(input);
    var text := plain(query.text);
    var results := service.Search(query.(text := text));
    ghost var matched := MatchedDocs(service.env, service.documents, text, query.filters);
    ghost var ask := AskOf(input);
    assert Found(MemoryList(service.lower, plain, service.env, service.documents), ask) ==
           Summaries(Ranked(service.lower, text, matched));
    assert results.page == ask.page;
    PagesAreOfSummaries(Ranked(service.lower, text, matched), [], 0, ask.page);
    RankingKeepsLength(service.lower, text, matched);
    model := BuildModel(input, results);
  }

  /** No page when the database refuses the type. */
  method PostgresPage(service: PostgresSearchService, trim: string -> string, input: Request)
    returns (model: Option<PageModel>)
    requires IsTotalOrder(service.leq)
    ensures model.Some? <==> (IsSet(input.resourceType) ==> IsTypeName(input.resourceType.value))
    ensures model.Some? ==> Shows(PostgresList(trim, service.env, service.rows), input, model.value)
  {
    var query := ToSearchQuery(input);
    var text := trim(query.text);
    var results := service.Search(query.(text := text));
    TypeIsWhatIsRefused(text, input);
    if results == None {
      return None;
    }
    ghost var selected := SelectedRows(service.env, service.rows, WhereSql(text, query.filters).value);
    ghost var ask := AskOf(input);
    assert Found(PostgresList(trim, service.env, service.rows), ask) == RowSummaries(selected, service.env.now);
    assert results.value.page == ask.page;
    PagesAreOfSummaries([], selected, service.env.now, ask.page);
    var page := BuildModel(input, results.value);
    model := Some(page);
  }

  /** The first page of a walk is the page the service answers with; the link on it asks for the second. */
  lemma WalkStartsAtThePage(list: (string, seq<Filter>) -> seq<Summary>, input: Request, model: PageModel)
    requires Shows(list, input, model)
    ensures Follow(list, AskOf(input)) ==
            [model.results.results] +
            if model.nextPage.Some? then Follow(list, AskOf(PageLink(input, model.nextPage.value))) else []
  {
    NextLinkIsNext(input);
  }

  // ---------- a visitor who sees a match twice ----------

  function Sample(id: int, detail: Detail): Document {
    Document(Summary(id, "", Available, None, detail), "", None, "en", None)
  }

  const BOOK: Document := Sample(1, BookDetail(None, None, None))
  const THESIS_A: Document := Sample(2, ThesisDetail(None, None))
  const THESIS_B: Document := Sample(3, ThesisDetail(None, None))

  const CATALOG: seq<Document> := [BOOK, THESIS_A, THESIS_B]

  /** All theses, one a page. */
  const THESES: Request := Request(None, Some("THESIS"), None, None, Some("1"))

  lemma ThesesAsk()
    ensures AskOf(THESES) == Ask("", Some("THESIS"), None, Page(1, 1))
  {
    assert Numeral(1) == "1";
    ParseNumeral(1);
  }

  lemma MatchedInTurn(env: Env, a: Document, b: Document, c: Document, filters: seq<Filter>)
    ensures MatchedDocs(env, [a, b, c], "", filters) ==
            (if Matches(env, a, "", filters) then [a] else []) + (if Matches(env, b, "", filters) then [b] else [])
            + (if Matches(env, c, "", filters) then [c] else [])
  {
    assert [a, b, c][..2] == [a, b] && [a, b][..1] == [a] && [a][..0] == [];
    assert MatchedDocs(env, [a], "", filters) == if Matches(env, a, "", filters) then [a] else [];
    assert MatchedDocs(env, [a, b], "", filters) ==
           MatchedDocs(env, [a], "", filters) + if Matches(env, b, "", filters) then [b] else [];
  }

  lemma TypeOnlyMatches(env: Env, doc: Document)
    ensures Matches(env, doc, "", [Filter(TypeDim, "THESIS")]) <==> doc.summary.detail.ThesisDetail?
    ensures Matches(env, doc, "", [])
  {
    assert MatchesFilter(doc, [Filter(TypeDim, "THESIS")][0]) <==> doc.summary.detail.ThesisDetail?;
  }

  lemma CatalogMatches(env: Env)
    ensures MatchedDocs(env, CATALOG, "", [Filter(TypeDim, "THESIS")]) == [THESIS_A, THESIS_B]
    ensures MatchedDocs(env, CATALOG, "", []) == CATALOG
  {
    TypeOnlyMatches(env, BOOK);
    TypeOnlyMatches(env, THESIS_A);
    TypeOnlyMatches(env, THESIS_B);
    MatchedInTurn(env, BOOK, THESIS_A, THESIS_B, [Filter(TypeDim, "THESIS")]);
    MatchedInTurn(env, BOOK, THESIS_A, THESIS_B, []);
  }

  lemma CatalogFinds(lower: string -> string, plain: string -> string, env: Env, page: Page)
    requires plain("") == ""
    ensures var list := MemoryList(lower, plain, env, CATALOG);
            Found(list, Ask("", Some("THESIS"), None, page)) == [THESIS_A.summary, THESIS_B.summary] &&
            Found(list, Ask("", None, None, page)) == [BOOK.summary, THESIS_A.summary, THESIS_B.summary]
  {
    CatalogMatches(env);
    assert Ask("", Some("THESIS"), None, page).Filters() == [Filter(TypeDim, "THESIS")];
    assert Ask("", None, None, page).Filters() == [];
    assert Summaries([THESIS_A, THESIS_B]) == [THESIS_A.summary, THESIS_B.summary];
    assert Summaries(CATALOG) == [BOOK.summary, THESIS_A.summary, THESIS_B.summary];
  }

  /** With a book before two theses, the theses one a page: the second page shows the first thesis again. */
  lemma TypeIsLostOnTheWay(lower: string -> string, plain: string -> string, env: Env)
    requires plain("") == ""
    ensures var list := MemoryList(lower, plain, env, CATALOG);
            Found(list, AskOf(THESES)) == [THESIS_A.summary, THESIS_B.summary] &&
            Concat(Follow(list, AskOf(THESES))) == [THESIS_A.summary, THESIS_A.summary, THESIS_B.summary]
  {
    ThesesAsk();
    CatalogFinds(lower, plain, env, Page(1, 1));
    PagesAfterTheFirst(MemoryList(lower, plain, env, CATALOG), AskOf(THESES));
  }

  // ---------- the facet links ----------

  lemma {:induction false} SameFiltersMatchTheSame(env: Env, docs: seq<Document>, text: string, a: seq<Filter>,
                                                   b: seq<Filter>)
    requires forall filter :: filter in a <==> filter in b
    ensures MatchedDocs(env, docs, text, a) == MatchedDocs(env, docs, text, b)
  {
    if docs != [] {
      SameFiltersMatchTheSame(env, docs[..|docs| - 1], text, a, b);
      var doc := docs[|docs| - 1];
      assert forall k | 0 <= k < |a| :: a[k] in b;
      assert forall k | 0 <= k < |b| :: b[k] in a;
    }
  }

  lemma {:induction false} NoTypeIsEmpty(env: Env, docs: seq<Document>, text: string, filters: seq<Filter>)
    requires Filter(TypeDim, "") in filters
    ensures MatchedDocs(env, docs, text, filters) == []
  {
    if docs != [] {
      NoTypeIsEmpty(env, docs[..|docs| - 1], text, filters);
      var k :| 0 <= k < |filters| && filters[k] == Filter(TypeDim, "");
      assert !MatchesFilter(docs[|docs| - 1], filters[k]);
    }
  }

  lemma OthersAreTheDepartment(ask: Ask)
    ensures Without(ask.Filters(), TypeDim) == FilterOn(DepartmentDim, ask.department)
  {
    var t, d := FilterOn(TypeDim, ask.resourceType), FilterOn(DepartmentDim, ask.department);
    assert Without(d, TypeDim) == d by { if d != [] { assert d[1..] == []; } }
    if t != [] { assert (t + d)[1..] == d; } else { assert t + d == d; }
  }

  lemma TypeLinkIs(input: Request, value: string)
    ensures AskOf(TypeLink(input, value)) ==
            AskOf(input).(resourceType := Kept(Some(value)), page := AskOf(input).page.(page := 1))
  {
    LinkReads(Param("type", value), input);
    UnsetNumberIsDefault(input.size, DEFAULT_SIZE);
  }

  /** The link of a type facet leads to the first page of as many matches as the facet shows. */
  lemma FacetLinkKeepsItsPromise(leq: (string, string) -> bool, env: Env, docs: seq<Document>, text: string,
                                 input: Request, value: string, n: nat)
    requires IsTotalOrder(leq)
    requires FacetCount(TypeDim, value, n) in MemoryFacets(leq, env, docs, text, AskOf(input).Filters(), DIMENSIONS)
    ensures AskOf(TypeLink(input, value)) ==
            AskOf(input).(resourceType := Some(value), page := AskOf(input).page.(page := 1))
    ensures |MatchedDocs(env, docs, text, AskOf(TypeLink(input, value)).Filters())| == n
  {
    var ask := AskOf(input);
    var others := Without(ask.Filters(), TypeDim);
    var drilled := others + [Filter(TypeDim, value)];
    DrillDownIsExact(leq, env, docs, text, ask.Filters(), TypeDim, value, n);
    TypeLinkIs(input, value);
    OthersAreTheDepartment(ask);
    if value == "" {
      assert drilled[|others|] == Filter(TypeDim, "");
      NoTypeIsEmpty(env, docs, text, drilled);
    } else {
      assert AskOf(TypeLink(input, value)).Filters() == [Filter(TypeDim, value)] + others;
      SameFiltersMatchTheSame(env, docs, text, drilled, [Filter(TypeDim, value)] + others);
    }
  }
}
