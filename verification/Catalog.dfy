/**
 The catalog's rows as the six-table join delivers them, the documents the in-memory engine holds, and the
 one-line summaries both answer with.
 */
module Catalog {
  import opened Common

  datatype ResourceType = PhysicalBook | Thesis | JournalArticle | ResearchReport | RareMaterial

  datatype DegreeType = Bachelor | Master | Phd

  datatype AccessStatus = Available | LicenseGated | Embargoed | SupervisedOnly | DepartmentScoped

  function TypeName(t: ResourceType): string {
    match t
    case PhysicalBook => "PHYSICAL_BOOK"
    case Thesis => "THESIS"
    case JournalArticle => "JOURNAL_ARTICLE"
    case ResearchReport => "RESEARCH_REPORT"
    case RareMaterial => "RARE_MATERIAL"
  }

  function DegreeName(d: DegreeType): string {
    match d
    case Bachelor => "BACHELOR"
    case Master => "MASTER"
    case Phd => "PHD"
  }

  function StatusName(s: AccessStatus): string {
    match s
    case Available => "AVAILABLE"
    case LicenseGated => "LICENSE_GATED"
    case Embargoed => "EMBARGOED"
    case SupervisedOnly => "SUPERVISED_ONLY"
    case DepartmentScoped => "DEPARTMENT_SCOPED"
  }

  // ---------- rows ----------

  /** Dates are day numbers, at midnight UTC. */
  datatype Base = Base(resourceType: ResourceType, title: string, description: Option<string>,
                       department: Option<string>, createdYear: int)
  datatype BookRow = BookRow(isbn: Option<string>, author: Option<string>, publicationYear: Option<int>)
  datatype ThesisRow = ThesisRow(student: int, degreeType: Option<DegreeType>, embargoUntil: Option<int>)
  datatype ArticleRow = ArticleRow(doi: Option<string>, volume: Option<string>, issue: Option<string>,
                                   license: Option<int>)
  datatype ReportRow = ReportRow(departmentScope: Option<string>, reportYear: Option<int>)
  datatype RareRow = RareRow(readingRoomOnly: bool)

  /** A resource row left-joined with the five subtype tables. */
  datatype Row = Row(id: int, base: Base, book: Option<BookRow>, thesis: Option<ThesisRow>,
                     article: Option<ArticleRow>, report: Option<ReportRow>, rare: Option<RareRow>)
  {
    function PublicationYear(): Option<int> { if book.Some? then book.value.publicationYear else None }
    function ReportYear(): Option<int> { if report.Some? then report.value.reportYear else None }
    function Degree(): Option<DegreeType> { if thesis.Some? then thesis.value.degreeType else None }
    function EmbargoUntil(): Option<int> { if thesis.Some? then thesis.value.embargoUntil else None }
    function DepartmentScope(): Option<string> { if report.Some? then report.value.departmentScope else None }
    function Isbn(): Option<string> { if book.Some? then book.value.isbn else None }
    function Author(): Option<string> { if book.Some? then book.value.author else None }
    function Doi(): Option<string> { if article.Some? then article.value.doi else None }
  }

  function OrEmpty(s: Option<string>): string {
    match s
    case Some(v) => v
    case None => ""
  }

  /** The text both engines search. */
  function SearchText(row: Row): string {
    row.base.title + " " + OrEmpty(row.base.description) + " " + OrEmpty(row.Author()) + " " + OrEmpty(row.Isbn())
    + " " + OrEmpty(row.Doi())
  }

  /** COALESCE(publication year, report year, year of creation). */
  function YearOf(row: Row): int {
    if row.PublicationYear().Some? then row.PublicationYear().value
    else if row.ReportYear().Some? then row.ReportYear().value
    else row.base.createdYear
  }

  // ---------- summaries and documents ----------

  datatype Detail =
    | BookDetail(isbn: Option<string>, author: Option<string>, publicationYear: Option<int>)
    | ThesisDetail(degreeType: Option<DegreeType>, embargoUntil: Option<int>)
    | ArticleDetail(doi: Option<string>, volume: Option<string>, issue: Option<string>)
    | ReportDetail(departmentScope: Option<string>, reportYear: Option<int>)
    | RareDetail(readingRoomOnly: bool)

  datatype Summary =
    Summary(id: int, title: string, accessStatus: AccessStatus, department: Option<string>, detail: Detail)

  datatype Document =
    Document(summary: Summary, searchableText: string, year: Option<int>, language: string, degreeType: Option<string>)

  function TypeOf(detail: Detail): ResourceType {
    match detail
    case BookDetail(_, _, _) => PhysicalBook
    case ThesisDetail(_, _) => Thesis
    case ArticleDetail(_, _, _) => JournalArticle
    case ReportDetail(_, _) => ResearchReport
    case RareDetail(_) => RareMaterial
  }

  /** The label search gives a resource at instant `now`: an empty scope reads as no scope. */
  function CatalogAccessStatus(resourceType: ResourceType, embargoUntil: Option<int>, departmentScope: Option<string>,
                               now: int): AccessStatus
  {
    match resourceType
    case PhysicalBook => Available
    case Thesis => if embargoUntil.Some? && embargoUntil.value * MS_PER_DAY > now then Embargoed else Available
    case JournalArticle => LicenseGated
    case ResearchReport => if departmentScope.Some? && departmentScope.value != "" then DepartmentScoped else Available
    case RareMaterial => SupervisedOnly
  }

  function LabelOf(row: Row, now: int): AccessStatus {
    CatalogAccessStatus(row.base.resourceType, row.EmbargoUntil(), row.DepartmentScope(), now)
  }

  function DetailOf(row: Row): Detail {
    match row.base.resourceType
    case PhysicalBook => BookDetail(row.Isbn(), row.Author(), row.PublicationYear())
    case Thesis => ThesisDetail(row.Degree(), row.EmbargoUntil())
    case JournalArticle =>
      ArticleDetail(row.Doi(),
                    if row.article.Some? then row.article.value.volume else None,
                    if row.article.Some? then row.article.value.issue else None)
    case ResearchReport => ReportDetail(row.DepartmentScope(), row.ReportYear())
    case RareMaterial => RareDetail(if row.rare.Some? then row.rare.value.readingRoomOnly else true)
  }

  function ToSummary(row: Row, now: int): Summary {
    Summary(row.id, row.base.title, LabelOf(row, now), row.base.department, DetailOf(row))
  }

  /** The document that stands for a row in the in-memory engine. The catalog is in English. */
  function Project(row: Row, now: int): Document {
    Document(ToSummary(row, now), SearchText(row), Some(YearOf(row)), "en",
             match row.Degree() case Some(d) => Some(DegreeName(d)) case None => None)
  }

  /** A report whose scope is the empty string, which the two engines label differently. */
  predicate BlankScope(row: Row) {
    row.base.resourceType == ResearchReport && row.DepartmentScope() == Some("")
  }

  // ---------- what these say, in the catalog's own terms ----------

  /** The names the database and the query parameters use; no two types share one. */
  lemma TypeNamesAreExact(t: ResourceType)
    ensures TypeName(t) == "PHYSICAL_BOOK" <==> t == PhysicalBook
    ensures TypeName(t) == "THESIS" <==> t == Thesis
    ensures TypeName(t) == "JOURNAL_ARTICLE" <==> t == JournalArticle
    ensures TypeName(t) == "RESEARCH_REPORT" <==> t == ResearchReport
    ensures TypeName(t) == "RARE_MATERIAL" <==> t == RareMaterial
  {
    assert "PHYSICAL_BOOK"[0] == 'P' && "THESIS"[0] == 'T' && "JOURNAL_ARTICLE"[0] == 'J';
    assert "RESEARCH_REPORT"[0] == "RARE_MATERIAL"[0] == 'R' && "RESEARCH_REPORT"[1] != "RARE_MATERIAL"[1];
  }

  lemma DegreeNamesAreExact(d: DegreeType)
    ensures DegreeName(d) == "BACHELOR" <==> d == Bachelor
    ensures DegreeName(d) == "MASTER" <==> d == Master
    ensures DegreeName(d) == "PHD" <==> d == Phd
  {
    assert "BACHELOR"[0] == 'B' && "MASTER"[0] == 'M' && "PHD"[0] == 'P';
  }

  lemma StatusNamesAreExact(s: AccessStatus)
    ensures StatusName(s) == "AVAILABLE" <==> s == Available
    ensures StatusName(s) == "LICENSE_GATED" <==> s == LicenseGated
    ensures StatusName(s) == "EMBARGOED" <==> s == Embargoed
    ensures StatusName(s) == "SUPERVISED_ONLY" <==> s == SupervisedOnly
    ensures StatusName(s) == "DEPARTMENT_SCOPED" <==> s == DepartmentScoped
  {
    assert "AVAILABLE"[0] == 'A' && "LICENSE_GATED"[0] == 'L' && "EMBARGOED"[0] == 'E';
    assert "SUPERVISED_ONLY"[0] == 'S' && "DEPARTMENT_SCOPED"[0] == 'D';
  }

  /** Which label a resource is shown under, by its own fields: everything else is available. */
  lemma LabelIsExact(row: Row, now: int)
    ensures LabelOf(row, now) == Embargoed <==>
            row.base.resourceType == Thesis && row.thesis.Some? && row.thesis.value.embargoUntil.Some? &&
            now < row.thesis.value.embargoUntil.value * MS_PER_DAY
    ensures LabelOf(row, now) == LicenseGated <==> row.base.resourceType == JournalArticle
    ensures LabelOf(row, now) == SupervisedOnly <==> row.base.resourceType == RareMaterial
    ensures LabelOf(row, now) == DepartmentScoped <==>
            row.base.resourceType == ResearchReport && row.report.Some? &&
            row.report.value.departmentScope.Some? && row.report.value.departmentScope.value != ""
  {
  }

  /** The year of publication counts before the year of the report, and that before the year of the record. */
  lemma YearIsTheFirstSet(row: Row)
    ensures row.book.Some? && row.book.value.publicationYear.Some? ==>
              YearOf(row) == row.book.value.publicationYear.value
    ensures row.PublicationYear() == None && row.report.Some? && row.report.value.reportYear.Some? ==>
              YearOf(row) == row.report.value.reportYear.value
    ensures row.PublicationYear() == None && row.ReportYear() == None ==> YearOf(row) == row.base.createdYear
  {
  }

  /** A field of the subtype row, none when the row is not there. */
  function FieldOf<R, V>(row: Option<R>, field: R -> Option<V>): Option<V> {
    match row
    case None => None
    case Some(r) => field(r)
  }

  /** The summary carries the base row and the fields of the subtype, each in its own place. */
  lemma SummaryShowsTheRow(row: Row, now: int)
    ensures var s := ToSummary(row, now);
            s.id == row.id && s.title == row.base.title && s.department == row.base.department &&
            s.accessStatus == LabelOf(row, now) && TypeOf(s.detail) == row.base.resourceType &&
            match s.detail
            case BookDetail(isbn, author, year) =>
              isbn == FieldOf(row.book, (b: BookRow) => b.isbn) &&
              author == FieldOf(row.book, (b: BookRow) => b.author) &&
              year == FieldOf(row.book, (b: BookRow) => b.publicationYear)
            case ThesisDetail(degree, embargo) =>
              degree == FieldOf(row.thesis, (t: ThesisRow) => t.degreeType) &&
              embargo == FieldOf(row.thesis, (t: ThesisRow) => t.embargoUntil)
            case ArticleDetail(doi, volume, issue) =>
              doi == FieldOf(row.article, (a: ArticleRow) => a.doi) &&
              volume == FieldOf(row.article, (a: ArticleRow) => a.volume) &&
              issue == FieldOf(row.article, (a: ArticleRow) => a.issue)
            case ReportDetail(scope, year) =>
              scope == FieldOf(row.report, (r: ReportRow) => r.departmentScope) &&
              year == FieldOf(row.report, (r: ReportRow) => r.reportYear)
            case RareDetail(readingRoomOnly) => readingRoomOnly == (row.rare.Some? ==> row.rare.value.readingRoomOnly)
  {
  }

  /** The query occurs in one of the five fields that are searched. */
  predicate FieldHas(row: Row, text: string) {
    Contains(row.base.title, text) ||
    (row.base.description.Some? && Contains(row.base.description.value, text)) ||
    (row.book.Some? && row.book.value.author.Some? && Contains(row.book.value.author.value, text)) ||
    (row.book.Some? && row.book.value.isbn.Some? && Contains(row.book.value.isbn.value, text)) ||
    (row.article.Some? && row.article.value.doi.Some? && Contains(row.article.value.doi.value, text))
  }

  lemma JoinedContains(s: string, field: string)
    ensures Contains(s + " " + field, field)
    ensures forall x :: Contains(s, x) ==> Contains(s + " " + field, x)
  {
    var joined := s + " " + field;
    assert joined[|s| + 1..] == field;
    forall x | Contains(s, x) ensures Contains(joined, x) {
      var i :| 0 <= i <= |s| && x <= s[i..];
      assert joined[i..] == s[i..] + " " + field;
    }
  }

  /** Title, description, author, isbn and doi are all in the text that is searched. */
  lemma SearchTextHasTheFields(row: Row)
    ensures Contains(SearchText(row), row.base.title)
    ensures row.base.description.Some? ==> Contains(SearchText(row), row.base.description.value)
    ensures row.book.Some? && row.book.value.author.Some? ==> Contains(SearchText(row), row.book.value.author.value)
    ensures row.book.Some? && row.book.value.isbn.Some? ==> Contains(SearchText(row), row.book.value.isbn.value)
    ensures row.article.Some? && row.article.value.doi.Some? ==> Contains(SearchText(row), row.article.value.doi.value)
  {
    var s1 := row.base.title + " " + OrEmpty(row.base.description);
    var s2 := s1 + " " + OrEmpty(row.Author());
    var s3 := s2 + " " + OrEmpty(row.Isbn());
    assert row.base.title[0..] == row.base.title;
    JoinedContains(row.base.title, OrEmpty(row.base.description));
    JoinedContains(s1, OrEmpty(row.Author()));
    JoinedContains(s2, OrEmpty(row.Isbn()));
    JoinedContains(s3, OrEmpty(row.Doi()));
  }

  lemma SearchTextHasWhatAFieldHas(row: Row, text: string)
    requires FieldHas(row, text)
    ensures Contains(SearchText(row), text)
  {
    SearchTextHasTheFields(row);
    if Contains(row.base.title, text) {
      ContainsInTurn(SearchText(row), row.base.title, text);
    } else if row.base.description.Some? && Contains(row.base.description.value, text) {
      ContainsInTurn(SearchText(row), row.base.description.value, text);
    } else if row.book.Some? && row.book.value.author.Some? && Contains(row.book.value.author.value, text) {
      ContainsInTurn(SearchText(row), row.book.value.author.value, text);
    } else if row.book.Some? && row.book.value.isbn.Some? && Contains(row.book.value.isbn.value, text) {
      ContainsInTurn(SearchText(row), row.book.value.isbn.value, text);
    } else {
      ContainsInTurn(SearchText(row), row.article.value.doi.value, text);
    }
  }
}
