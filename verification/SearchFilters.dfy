/**
 One search query, two engines: the WHERE clause the Postgres engine builds and the filter predicate of the
 in-memory engine, and exactly when they accept the same resources.
 */
module SearchFilters {
  import opened Common
  import opened Catalog
  import opened Sql
  import opened Numerals

  datatype Dimension = TypeDim | DepartmentDim | YearDim | LanguageDim | DegreeDim | AccessDim

  const DIMENSIONS: seq<Dimension> := [TypeDim, DepartmentDim, YearDim, LanguageDim, DegreeDim, AccessDim]

  datatype Filter = Filter(dimension: Dimension, value: string)

  // ---------- the Postgres engine ----------

  const TRUE: Expr := Literal(Bool(true))
  const FALSE: Expr := Literal(Bool(false))

  const YEAR: Expr := Coalesce(Col(PublicationYearColumn), Coalesce(Col(ReportYearColumn), Col(CreatedYearColumn)))

  function IsType(t: ResourceType): Expr {
    Equal(Col(ResourceTypeColumn), Literal(Text(TypeName(t))))
  }

  const EMBARGO: Expr := Col(EmbargoUntilColumn)
  const SCOPE: Expr := Col(DepartmentScopeColumn)

  const UNDER_EMBARGO: Expr := And(And(IsType(Thesis), IsNotNull(EMBARGO)), Greater(EMBARGO, CurrentDate))
  const EMBARGO_OVER: Expr := And(IsType(Thesis), Or(IsNull(EMBARGO), AtMost(EMBARGO, CurrentDate)))
  const SCOPED: Expr := And(IsType(ResearchReport), IsNotNull(SCOPE))
  const UNSCOPED: Expr := And(IsType(ResearchReport), IsNull(SCOPE))

  predicate IsTypeName(s: string) {
    s in ["PHYSICAL_BOOK", "THESIS", "JOURNAL_ARTICLE", "RESEARCH_REPORT", "RARE_MATERIAL"]
  }

  predicate IsDegreeName(s: string) {
    s in ["BACHELOR", "MASTER", "PHD"]
  }

  function AccessStatusFilterSql(value: string): Expr {
    if value == "AVAILABLE" then Or(Or(IsType(PhysicalBook), EMBARGO_OVER), UNSCOPED)
    else if value == "EMBARGOED" then UNDER_EMBARGO
    else if value == "LICENSE_GATED" then IsType(JournalArticle)
    else if value == "DEPARTMENT_SCOPED" then SCOPED
    else if value == "SUPERVISED_ONLY" then IsType(RareMaterial)
    else FALSE
  }

  /** None when the database refuses the cast of the value, or the year is no number. */
  function FilterSql(filter: Filter): Option<Expr> {
    match filter.dimension
    case TypeDim =>
      if IsTypeName(filter.value) then Some(Equal(Col(ResourceTypeColumn), Literal(Text(filter.value)))) else None
    case DepartmentDim => Some(Equal(Col(DepartmentColumn), Literal(Text(filter.value))))
    case YearDim =>
      (match ParseInt(filter.value)
       case Some(n) => Some(Equal(YEAR, Literal(Int(n))))
       case None => None)
    case LanguageDim => Some(if filter.value == "en" then TRUE else FALSE)
    case DegreeDim =>
      if IsDegreeName(filter.value) then Some(Equal(Col(DegreeTypeColumn), Literal(Text(filter.value)))) else None
    case AccessDim => Some(AccessStatusFilterSql(filter.value))
  }

  /** The conjunction of the parts joined so far and those of the remaining filters. */
  function JoinFilters(parts: Expr, filters: seq<Filter>): Option<Expr>
    decreases |filters|
  {
    if filters == [] then Some(parts) else
      match FilterSql(filters[0])
      case None => None
      case Some(part) => JoinFilters(And(parts, part), filters[1..])
  }

  function WhereSql(text: string, filters: seq<Filter>): Option<Expr> {
    JoinFilters(if text == "" then TRUE else And(TRUE, TextMatch(text)), filters)
  }

  method BuildWhereSql(text: string, filters: seq<Filter>) returns (r: Option<Expr>)
    ensures r == WhereSql(text, filters)
    ensures r.Some? <==> forall k | 0 <= k < |filters| :: FilterSql(filters[k]).Some?
  {
    WhereNeedsEveryPart(if text == "" then TRUE else And(TRUE, TextMatch(text)), filters);
    var parts := TRUE;
    if text != "" {
      parts := And(parts, TextMatch(text));
    }
    for k := 0 to |filters|
      invariant JoinFilters(parts, filters[k..]) == WhereSql(text, filters)
    {
      var part := FilterSql(filters[k]);
      if part == None {
        return None;
      }
      assert filters[k..][1..] == filters[k + 1..];
      parts := And(parts, part.value);
    }
    r := Some(parts);
  }

  lemma {:induction false} WhereNeedsEveryPart(parts: Expr, filters: seq<Filter>)
    ensures JoinFilters(parts, filters).Some? <==> forall k | 0 <= k < |filters| :: FilterSql(filters[k]).Some?
    decreases |filters|
  {
    if filters != [] {
      var first := FilterSql(filters[0]);
      if first.Some? {
        WhereNeedsEveryPart(And(parts, first.value), filters[1..]);
        assert forall k | 0 <= k < |filters| - 1 :: filters[1..][k] == filters[k + 1];
        assert forall k | 1 <= k < |filters| :: filters[k] == filters[1..][k - 1];
      }
    }
  }

  /** The clause selects a row exactly when the text matches and every filter's part is true of it. */
  lemma {:induction false} WhereIsConjunction(env: Env, row: Row, parts: Expr, filters: seq<Filter>)
    requires JoinFilters(parts, filters).Some?
    ensures forall k | 0 <= k < |filters| :: FilterSql(filters[k]).Some?
    ensures Selects(env, row, JoinFilters(parts, filters).value) <==>
            Selects(env, row, parts) && forall k | 0 <= k < |filters| :: Selects(env, row, FilterSql(filters[k]).value)
    decreases |filters|
  {
    WhereNeedsEveryPart(parts, filters);
    if filters != [] {
      WhereIsConjunction(env, row, And(parts, FilterSql(filters[0]).value), filters[1..]);
      assert forall k | 0 <= k < |filters| - 1 :: filters[1..][k] == filters[k + 1];
      assert forall k | 1 <= k < |filters| :: filters[k] == filters[1..][k - 1];
    }
  }

  function FacetValueExpr(dimension: Dimension): Expr {
    match dimension
    case TypeDim => ToText(Col(ResourceTypeColumn))
    case DepartmentDim => Col(DepartmentColumn)
    case YearDim => ToText(YEAR)
    case LanguageDim => Literal(Text("en"))
    case DegreeDim => ToText(Col(DegreeTypeColumn))
    case AccessDim => ACCESS_CASE
  }

  /** The branches of the CASE expression from the last to the first. */
  const RARE_BRANCH: Expr := CaseWhen(IsType(RareMaterial), Label(SupervisedOnly), Label(Available))
  const REPORT_BRANCH: Expr := CaseWhen(IsType(ResearchReport), Label(Available), RARE_BRANCH)
  const SCOPED_BRANCH: Expr := CaseWhen(SCOPED, Label(DepartmentScoped), REPORT_BRANCH)
  const ARTICLE_BRANCH: Expr := CaseWhen(IsType(JournalArticle), Label(LicenseGated), SCOPED_BRANCH)
  const THESIS_BRANCH: Expr := CaseWhen(IsType(Thesis), Label(Available), ARTICLE_BRANCH)
  const EMBARGO_BRANCH: Expr := CaseWhen(UNDER_EMBARGO, Label(Embargoed), THESIS_BRANCH)
  const ACCESS_CASE: Expr := CaseWhen(IsType(PhysicalBook), Label(Available), EMBARGO_BRANCH)

  function Label(status: AccessStatus): Expr {
    Literal(Text(StatusName(status)))
  }

  // ---------- the in-memory engine ----------

  predicate MatchesFilter(doc: Document, filter: Filter) {
    match filter.dimension
    case TypeDim => TypeName(TypeOf(doc.summary.detail)) == filter.value
    case DepartmentDim => doc.summary.department == Some(filter.value)
    case YearDim => doc.year.Some? && Numeral(doc.year.value) == filter.value
    case LanguageDim => doc.language == filter.value
    case DegreeDim => doc.degreeType == Some(filter.value)
    case AccessDim => StatusName(doc.summary.accessStatus) == filter.value
  }

  predicate Matches(env: Env, doc: Document, text: string, filters: seq<Filter>) {
    (text == "" || env.hit(doc.searchableText, text)) &&
    forall k | 0 <= k < |filters| :: MatchesFilter(doc, filters[k])
  }

  function FacetValue(doc: Document, dimension: Dimension): Option<string> {
    match dimension
    case TypeDim => Some(TypeName(TypeOf(doc.summary.detail)))
    case DepartmentDim => doc.summary.department
    case YearDim => (match doc.year case Some(y) => Some(Numeral(y)) case None => None)
    case LanguageDim => Some(doc.language)
    case DegreeDim => doc.degreeType
    case AccessDim => Some(StatusName(doc.summary.accessStatus))
  }

  /** A document has a facet value exactly when it passes the filter for that value. */
  lemma FacetValueIsFilter(doc: Document, dimension: Dimension, value: string)
    ensures FacetValue(doc, dimension) == Some(value) <==> MatchesFilter(doc, Filter(dimension, value))
  {
  }

  // ---------- the two agree ----------

  /** Midnight of the day is later than the instant exactly when the day is later than the instant's date. */
  lemma MidnightAgainstDate(day: int, now: int)
    ensures day * MS_PER_DAY > now <==> day > now / MS_PER_DAY
  {
  }

  lemma TypeTest(env: Env, row: Row, t: ResourceType)
    ensures Eval(env, row, IsType(t)) == Bool(row.base.resourceType == t)
  {
    assert Eval(env, row, Col(ResourceTypeColumn)) == Text(TypeName(row.base.resourceType));
  }

  lemma ConjunctionTest(env: Env, row: Row, a: Expr, b: Expr)
    ensures Eval(env, row, And(a, b)) == Conjoin(Eval(env, row, a), Eval(env, row, b))
  {
    var x, y, e := Eval(env, row, a), Eval(env, row, b), And(a, b);
    assert match e case And(left, right) => left == a && right == b case _ => false;
    assert Eval(env, row, e) == Conjoin(x, y);
  }

  lemma EmbargoTests(env: Env, row: Row)
    ensures Selects(env, row, UNDER_EMBARGO) <==>
            row.base.resourceType == Thesis && row.EmbargoUntil().Some? &&
            row.EmbargoUntil().value * MS_PER_DAY > env.now
    ensures Selects(env, row, EMBARGO_OVER) <==>
            row.base.resourceType == Thesis && !Selects(env, row, UNDER_EMBARGO)
  {
    TypeTest(env, row, Thesis);
    var e := row.EmbargoUntil();
    if e.Some? { MidnightAgainstDate(e.value, env.now); }
    var later, over := Greater(EMBARGO, CurrentDate), AtMost(EMBARGO, CurrentDate);
    assert Eval(env, row, EMBARGO) == match e case Some(d) => Date(d) case None => Null;
    assert Eval(env, row, later) == if e.Some? then Bool(e.value > env.now / MS_PER_DAY) else Null;
    assert Eval(env, row, over) == if e.Some? then Bool(e.value <= env.now / MS_PER_DAY) else Null;
    assert Eval(env, row, IsNull(EMBARGO)) == Bool(e == None);
    assert Eval(env, row, IsNotNull(EMBARGO)) == Bool(e != None);
    ConjunctionTest(env, row, IsType(Thesis), IsNotNull(EMBARGO));
    ConjunctionTest(env, row, And(IsType(Thesis), IsNotNull(EMBARGO)), later);
    ConjunctionTest(env, row, IsType(Thesis), Or(IsNull(EMBARGO), over));
  }

  lemma ScopeTests(env: Env, row: Row)
    ensures Selects(env, row, SCOPED) <==> row.base.resourceType == ResearchReport && row.DepartmentScope().Some?
    ensures Selects(env, row, UNSCOPED) <==> row.base.resourceType == ResearchReport && row.DepartmentScope() == None
  {
    TypeTest(env, row, ResearchReport);
    assert Eval(env, row, SCOPE) == OptText(row.DepartmentScope());
    assert Eval(env, row, IsNull(SCOPE)) == Bool(row.DepartmentScope() == None);
    assert Eval(env, row, IsNotNull(SCOPE)) == Bool(row.DepartmentScope() != None);
    ConjunctionTest(env, row, IsType(ResearchReport), IsNull(SCOPE));
    ConjunctionTest(env, row, IsType(ResearchReport), IsNotNull(SCOPE));
  }

  /** What a chain of CASE branches comes to, one branch at a time. */
  lemma CaseTest(env: Env, row: Row, condition: Expr, status: AccessStatus, otherwise: Expr)
    ensures Eval(env, row, CaseWhen(condition, Label(status), otherwise)) ==
            if Selects(env, row, condition) then Text(StatusName(status)) else Eval(env, row, otherwise)
  {
    assert Eval(env, row, Label(status)) == Text(StatusName(status));
  }

  /** The CASE expression labels by what the database stores: a blank scope is a scope to it. */
  lemma CaseLabels(env: Env, row: Row)
    ensures Eval(env, row, FacetValueExpr(AccessDim)) ==
            Text(StatusName(if BlankScope(row) then DepartmentScoped else LabelOf(row, env.now)))
  {
    forall t { TypeTest(env, row, t); }
    EmbargoTests(env, row);
    ScopeTests(env, row);
    CaseTest(env, row, IsType(PhysicalBook), Available, EMBARGO_BRANCH);
    CaseTest(env, row, UNDER_EMBARGO, Embargoed, THESIS_BRANCH);
    CaseTest(env, row, IsType(Thesis), Available, ARTICLE_BRANCH);
    CaseTest(env, row, IsType(JournalArticle), LicenseGated, SCOPED_BRANCH);
    CaseTest(env, row, SCOPED, DepartmentScoped, REPORT_BRANCH);
    CaseTest(env, row, IsType(ResearchReport), Available, RARE_BRANCH);
    CaseTest(env, row, IsType(RareMaterial), SupervisedOnly, Label(Available));
    assert Eval(env, row, Label(Available)) == Text(StatusName(Available));
  }

  lemma StatusNamesDiffer(a: AccessStatus, b: AccessStatus)
    ensures StatusName(a) == StatusName(b) <==> a == b
  {
    assert |StatusName(Available)| == |StatusName(Embargoed)| == 9;
    assert StatusName(Available)[0] == 'A' && StatusName(Embargoed)[0] == 'E';
    assert |StatusName(LicenseGated)| == 13 && |StatusName(SupervisedOnly)| == 15;
    assert |StatusName(DepartmentScoped)| == 17;
  }

  /** The CASE expression gives a resource the label its summary shows exactly when its scope is not blank. */
  lemma CaseGivesLabel(env: Env, row: Row)
    ensures Eval(env, row, FacetValueExpr(AccessDim)) == Text(StatusName(LabelOf(row, env.now))) <==> !BlankScope(row)
  {
    CaseLabels(env, row);
    StatusNamesDiffer(DepartmentScoped, LabelOf(row, env.now));
  }

  /** The access filter for a label selects the resources the database stores under it. */
  lemma AccessFilterSelects(env: Env, row: Row, status: AccessStatus)
    ensures Selects(env, row, AccessStatusFilterSql(StatusName(status))) <==>
            status == if BlankScope(row) then DepartmentScoped else LabelOf(row, env.now)
  {
    forall t { TypeTest(env, row, t); }
    EmbargoTests(env, row);
    ScopeTests(env, row);
    assert Eval(env, row, Or(Or(IsType(PhysicalBook), EMBARGO_OVER), UNSCOPED)) ==
           Disjoin(Disjoin(Eval(env, row, IsType(PhysicalBook)), Eval(env, row, EMBARGO_OVER)),
                   Eval(env, row, UNSCOPED));
    forall s { StatusNamesDiffer(s, status); }
  }

  lemma OtherAccessValuesSelectNothing(env: Env, row: Row, value: string)
    requires forall s :: StatusName(s) != value
    ensures !Selects(env, row, AccessStatusFilterSql(value))
  {
    assert StatusName(Available) != value && StatusName(Embargoed) != value && StatusName(LicenseGated) != value;
    assert StatusName(DepartmentScoped) != value && StatusName(SupervisedOnly) != value;
  }

  lemma AccessFilterSelectsLabel(env: Env, row: Row, value: string)
    requires !BlankScope(row)
    ensures Selects(env, row, AccessStatusFilterSql(value)) <==> StatusName(LabelOf(row, env.now)) == value
  {
    if status: AccessStatus :| StatusName(status) == value {
      AccessFilterSelects(env, row, status);
      StatusNamesDiffer(status, LabelOf(row, env.now));
    } else {
      OtherAccessValuesSelectNothing(env, row, value);
    }
  }

  /** The year is written as the host language writes it: no sign plus, no leading zero, nothing after it. */
  predicate IsCanonical(filter: Filter) {
    filter.dimension == YearDim ==>
      ParseInt(filter.value).Some? && filter.value == Numeral(ParseInt(filter.value).value)
  }

  predicate IsWellFormed(filter: Filter) {
    FilterSql(filter).Some? && IsCanonical(filter)
  }

  predicate Agree(env: Env, row: Row, filter: Filter)
    requires FilterSql(filter).Some?
  {
    Selects(env, row, FilterSql(filter).value) <==> MatchesFilter(Project(row, env.now), filter)
  }

  lemma YearIsCoalesced(env: Env, row: Row)
    ensures Eval(env, row, YEAR) == Int(YearOf(row))
  {
    var inner := Coalesce(Col(ReportYearColumn), Col(CreatedYearColumn));
    assert Eval(env, row, Col(PublicationYearColumn)) == OptInt(row.PublicationYear());
    assert Eval(env, row, Col(ReportYearColumn)) == OptInt(row.ReportYear());
    assert Eval(env, row, inner) ==
           if row.ReportYear().Some? then Int(row.ReportYear().value) else Int(row.base.createdYear);
  }

  lemma EqualTest(env: Env, row: Row, a: Expr, v: Value)
    requires v != Null
    ensures Selects(env, row, Equal(a, Literal(v))) <==> Eval(env, row, a) == v
  {
    assert Eval(env, row, Literal(v)) == v;
  }

  lemma YearFilterAgrees(env: Env, row: Row, filter: Filter)
    requires filter.dimension == YearDim && FilterSql(filter).Some?
    ensures Agree(env, row, filter) <==>
            (YearOf(row) == ParseInt(filter.value).value <==> Numeral(YearOf(row)) == filter.value)
  {
    YearIsCoalesced(env, row);
    EqualTest(env, row, YEAR, Int(ParseInt(filter.value).value));
  }

  lemma FilterAgrees(env: Env, row: Row, filter: Filter)
    requires IsWellFormed(filter) && !BlankScope(row)
    ensures Agree(env, row, filter)
  {
    match filter.dimension
    case TypeDim => EqualTest(env, row, Col(ResourceTypeColumn), Text(filter.value));
    case DepartmentDim => EqualTest(env, row, Col(DepartmentColumn), Text(filter.value));
    case YearDim =>
      YearFilterAgrees(env, row, filter);
      ParseNumeral(YearOf(row));
    case LanguageDim =>
    case DegreeDim => EqualTest(env, row, Col(DegreeTypeColumn), Text(filter.value));
    case AccessDim => AccessFilterSelectsLabel(env, row, filter.value);
  }

  /** A year filter means the same to both engines on every catalog exactly when it is written canonically. */
  lemma YearFilterIsExact(env: Env, filter: Filter)
    requires filter.dimension == YearDim && FilterSql(filter).Some?
    ensures (forall row :: Agree(env, row, filter)) <==> IsCanonical(filter)
  {
    var n := ParseInt(filter.value).value;
    if IsCanonical(filter) {
      forall row ensures Agree(env, row, filter) {
        YearFilterAgrees(env, row, filter);
        ParseNumeral(YearOf(row));
      }
    } else {
      var row := Row(0, Base(PhysicalBook, "", None, None, n), None, None, None, None, None);
      YearFilterAgrees(env, row, filter);
      assert YearOf(row) == n;
    }
  }

  /** The engines agree on every well-formed filter about a resource exactly when its scope is not blank. */
  lemma BlankScopeIsExact(env: Env, row: Row)
    ensures (forall filter | IsWellFormed(filter) :: Agree(env, row, filter)) <==> !BlankScope(row)
  {
    if BlankScope(row) {
      var filter := Filter(AccessDim, "AVAILABLE");
      assert IsWellFormed(filter);
      AccessFilterSelects(env, row, Available);
      assert LabelOf(row, env.now) == Available;
      assert !Agree(env, row, filter);
    } else {
      forall filter | IsWellFormed(filter) ensures Agree(env, row, filter) {
        FilterAgrees(env, row, filter);
      }
    }
  }

  /** The WHERE clause is true of a row exactly when the in-memory engine accepts the document for it. */
  lemma WhereAgrees(env: Env, row: Row, text: string, filters: seq<Filter>)
    requires forall k | 0 <= k < |filters| :: IsWellFormed(filters[k])
    requires !BlankScope(row)
    ensures WhereSql(text, filters).Some?
    ensures Selects(env, row, WhereSql(text, filters).value) <==> Matches(env, Project(row, env.now), text, filters)
  {
    var parts := if text == "" then TRUE else And(TRUE, TextMatch(text));
    WhereNeedsEveryPart(parts, filters);
    WhereIsConjunction(env, row, parts, filters);
    if text != "" {
      ConjunctionTest(env, row, TRUE, TextMatch(text));
      assert Eval(env, row, TextMatch(text)) == Bool(env.hit(SearchText(row), text));
    }
    assert Selects(env, row, parts) <==> text == "" || env.hit(SearchText(row), text);
    forall k | 0 <= k < |filters|
      ensures Selects(env, row, FilterSql(filters[k]).value) <==> MatchesFilter(Project(row, env.now), filters[k])
    {
      FilterAgrees(env, row, filters[k]);
    }
  }

  /** And both see the same value of it in every facet dimension. */
  lemma FacetValueAgrees(env: Env, row: Row, dimension: Dimension)
    requires !BlankScope(row)
    ensures Eval(env, row, FacetValueExpr(dimension)) == OptText(FacetValue(Project(row, env.now), dimension))
  {
    match dimension
    case TypeDim =>
    case DepartmentDim =>
    case YearDim => YearIsCoalesced(env, row);
    case LanguageDim =>
    case DegreeDim =>
    case AccessDim => CaseGivesLabel(env, row);
  }

  // ---------- what a filter asks, in the catalog's own terms ----------

  predicate RowHas(row: Row, filter: Filter, now: int) {
    match filter.dimension
    case TypeDim => TypeName(row.base.resourceType) == filter.value
    case DepartmentDim => row.base.department == Some(filter.value)
    case YearDim => ParseInt(filter.value) == Some(YearOf(row))
    case LanguageDim => filter.value == "en"
    case DegreeDim =>
      row.thesis.Some? && row.thesis.value.degreeType.Some? &&
      DegreeName(row.thesis.value.degreeType.value) == filter.value
    case AccessDim => StatusName(LabelOf(row, now)) == filter.value
  }

  /** A filter's part of the WHERE clause is true of exactly the rows that have the value. */
  lemma FilterSelectsExactly(env: Env, row: Row, filter: Filter)
    requires FilterSql(filter).Some? && !BlankScope(row)
    ensures Selects(env, row, FilterSql(filter).value) <==> RowHas(row, filter, env.now)
  {
    match filter.dimension
    case TypeDim => EqualTest(env, row, Col(ResourceTypeColumn), Text(filter.value));
    case DepartmentDim => EqualTest(env, row, Col(DepartmentColumn), Text(filter.value));
    case YearDim =>
      YearIsCoalesced(env, row);
      EqualTest(env, row, YEAR, Int(ParseInt(filter.value).value));
    case LanguageDim =>
    case DegreeDim => EqualTest(env, row, Col(DegreeTypeColumn), Text(filter.value));
    case AccessDim => AccessFilterSelectsLabel(env, row, filter.value);
  }

  /** Only a type or a degree that is none of the database's and a year that is no number are refused. */
  lemma FilterIsRefusedExactly(filter: Filter)
    ensures FilterSql(filter) == None <==>
            (filter.dimension == TypeDim && forall t: ResourceType :: TypeName(t) != filter.value) ||
            (filter.dimension == DegreeDim && forall d: DegreeType :: DegreeName(d) != filter.value) ||
            (filter.dimension == YearDim && ParseInt(filter.value) == None)
  {
    assert TypeName(PhysicalBook) == "PHYSICAL_BOOK" && TypeName(Thesis) == "THESIS";
    assert TypeName(JournalArticle) == "JOURNAL_ARTICLE" && TypeName(ResearchReport) == "RESEARCH_REPORT";
    assert TypeName(RareMaterial) == "RARE_MATERIAL";
    assert DegreeName(Bachelor) == "BACHELOR" && DegreeName(Master) == "MASTER" && DegreeName(Phd) == "PHD";
  }
}
