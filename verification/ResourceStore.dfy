/**
 The six tables of the resource hierarchy, the transactional creation of a base row with its subtype row,
 and the read by id.
 */
module ResourceStore {
  import opened Common
  import opened Catalog

  /** `nextId` is the sequence behind the ids; a rolled-back transaction does not give its id back. */
  datatype Tables = Tables(resources: map<int, Base>, books: map<int, BookRow>, theses: map<int, ThesisRow>,
                           articles: map<int, ArticleRow>, reports: map<int, ReportRow>, rares: map<int, RareRow>,
                           nextId: int)

  datatype Subtype =
    | ABook(book: BookRow)
    | AThesis(thesis: ThesisRow)
    | AnArticle(article: ArticleRow)
    | AReport(report: ReportRow)
    | ARare(rare: RareRow)

  datatype NewResource = NewResource(title: string, description: Option<string>, department: Option<string>,
                                     subtype: Subtype, year: int)

  datatype Fault = NoFault | BaseInsertFails | SubtypeInsertFails

  function TypeOfSubtype(s: Subtype): ResourceType {
    match s
    case ABook(_) => PhysicalBook
    case AThesis(_) => Thesis
    case AnArticle(_) => JournalArticle
    case AReport(_) => ResearchReport
    case ARare(_) => RareMaterial
  }

  function BaseOf(input: NewResource): Base {
    Base(TypeOfSubtype(input.subtype), input.title, input.description, input.department, input.year)
  }

  function InsertBase(t: Tables, base: Base): Tables {
    t.(resources := t.resources[t.nextId := base], nextId := t.nextId + 1)
  }

  function InsertSubtype(t: Tables, id: int, s: Subtype): Tables {
    match s
    case ABook(row) => t.(books := t.books[id := row])
    case AThesis(row) => t.(theses := t.theses[id := row])
    case AnArticle(row) => t.(articles := t.articles[id := row])
    case AReport(row) => t.(reports := t.reports[id := row])
    case ARare(row) => t.(rares := t.rares[id := row])
  }

  /** The entity a base row and its subtype row make. */
  function Entity(id: int, base: Base, s: Subtype): Row {
    Row(id, base,
        if s.ABook? then Some(s.book) else None,
        if s.AThesis? then Some(s.thesis) else None,
        if s.AnArticle? then Some(s.article) else None,
        if s.AReport? then Some(s.report) else None,
        if s.ARare? then Some(s.rare) else None)
  }

  /** Both inserts, or neither. */
  function AfterCreate(t: Tables, input: NewResource, fault: Fault): Tables {
    match fault
    case NoFault => InsertSubtype(InsertBase(t, BaseOf(input)), t.nextId, input.subtype)
    case BaseInsertFails => t.(nextId := t.nextId + 1)
    case SubtypeInsertFails => t.(nextId := t.nextId + 1)
  }

  /** `Missing` is the exception of a subtype row that is not there. */
  datatype Found = Nothing | Resource(entity: Row) | Missing

  function Get<V>(m: map<int, V>, id: int): Option<V> {
    if id in m then Some(m[id]) else None
  }

  /** Fetches from the one subtype table the base row names. */
  function FindById(t: Tables, id: int): Found {
    if id !in t.resources then Nothing else
      var base := t.resources[id];
      match base.resourceType
      case PhysicalBook => if id in t.books then Resource(Entity(id, base, ABook(t.books[id]))) else Missing
      case Thesis => if id in t.theses then Resource(Entity(id, base, AThesis(t.theses[id]))) else Missing
      case JournalArticle => if id in t.articles then Resource(Entity(id, base, AnArticle(t.articles[id]))) else Missing
      case ResearchReport => if id in t.reports then Resource(Entity(id, base, AReport(t.reports[id]))) else Missing
      case RareMaterial => if id in t.rares then Resource(Entity(id, base, ARare(t.rares[id]))) else Missing
  }

  /** The row the search queries' FROM clause delivers: the base row left-joined with all five tables. */
  function Join(t: Tables, id: int): Row
    requires id in t.resources
  {
    Row(id, t.resources[id], Get(t.books, id), Get(t.theses, id), Get(t.articles, id), Get(t.reports, id),
        Get(t.rares, id))
  }

  /** The ids in the subtype table of a type. */
  function KeysOf(t: Tables, resourceType: ResourceType): set<int> {
    match resourceType
    case PhysicalBook => t.books.Keys
    case Thesis => t.theses.Keys
    case JournalArticle => t.articles.Keys
    case ResearchReport => t.reports.Keys
    case RareMaterial => t.rares.Keys
  }

  /** The table has a row for exactly the resources of that type. */
  ghost predicate Mirrors(resources: map<int, Base>, keys: set<int>, resourceType: ResourceType) {
    forall id :: id in keys <==> id in resources && resources[id].resourceType == resourceType
  }

  /** Every base row has exactly one subtype row, in the table its type names, and no subtype row lacks a base. */
  ghost predicate Hierarchy(t: Tables) {
    (forall id | id in t.resources :: id < t.nextId) &&
    forall k :: Mirrors(t.resources, KeysOf(t, k), k)
  }

  /** The entity has the type of the subtype row and that row alone. */
  predicate HoldsJust(row: Row, s: Subtype) {
    match s
    case ABook(book) =>
      row.base.resourceType == PhysicalBook && row.book == Some(book) &&
      row.thesis == None && row.article == None && row.report == None && row.rare == None
    case AThesis(thesis) =>
      row.base.resourceType == Thesis && row.thesis == Some(thesis) &&
      row.book == None && row.article == None && row.report == None && row.rare == None
    case AnArticle(article) =>
      row.base.resourceType == JournalArticle && row.article == Some(article) &&
      row.book == None && row.thesis == None && row.report == None && row.rare == None
    case AReport(report) =>
      row.base.resourceType == ResearchReport && row.report == Some(report) &&
      row.book == None && row.thesis == None && row.article == None && row.rare == None
    case ARare(rare) =>
      row.base.resourceType == RareMaterial && row.rare == Some(rare) &&
      row.book == None && row.thesis == None && row.article == None && row.report == None
  }

  class ResourceService {
    var tables: Tables

    constructor ()
      ensures Hierarchy(tables)
    {
      tables := Tables(map[], map[], map[], map[], map[], map[], 1);
    }

    /** The five create operations: one transaction each, which a fault at either insert rolls back. */
    method Create(input: NewResource, fault: Fault) returns (r: Option<Row>)
      requires Hierarchy(tables)
      modifies this
      ensures Hierarchy(tables) && tables == AfterCreate(old(tables), input, fault)
      ensures r.Some? <==> fault == NoFault
      ensures r.Some? ==> FindById(tables, r.value.id) == Resource(r.value) && r.value.id == old(tables).nextId
      ensures r.Some? ==> r.value.base.title == input.title && r.value.base.description == input.description &&
                          r.value.base.department == input.department && r.value.base.createdYear == input.year &&
                          HoldsJust(r.value, input.subtype)
      ensures forall id | id in old(tables).resources :: FindById(tables, id) == FindById(old(tables), id)
      ensures r == None ==> tables == old(tables).(nextId := old(tables).nextId + 1)
      ensures tables.nextId == old(tables).nextId + 1
    {
      CreateKeepsHierarchy(tables, input, fault);
      CreatedIsFound(tables, input);
      forall id | id in tables.resources { OthersAreFoundAsBefore(tables, input, fault, id); }
      var before := tables;
      var id := tables.nextId;
      if fault == BaseInsertFails {
        tables := before.(nextId := id + 1);
        return None;
      }
      tables := InsertBase(tables, BaseOf(input));
      if fault == SubtypeInsertFails {
        tables := before.(nextId := id + 1);
        return None;
      }
      tables := InsertSubtype(tables, id, input.subtype);
      r := Some(Entity(id, BaseOf(input), input.subtype));
    }
  }

  lemma InsertMirrors(resources: map<int, Base>, keys: set<int>, k: ResourceType, id: int, base: Base)
    requires Mirrors(resources, keys, k) && id !in resources
    ensures Mirrors(resources[id := base], if base.resourceType == k then keys + {id} else keys, k)
  {
  }

  lemma InsertAddsOneKey(t: Tables, id: int, s: Subtype, k: ResourceType)
    ensures InsertSubtype(t, id, s).resources == t.resources && InsertSubtype(t, id, s).nextId == t.nextId
    ensures KeysOf(InsertSubtype(t, id, s), k) == if TypeOfSubtype(s) == k then KeysOf(t, k) + {id} else KeysOf(t, k)
  {
  }

  lemma BothInsertsMirror(t: Tables, input: NewResource, k: ResourceType)
    requires Mirrors(t.resources, KeysOf(t, k), k) && t.nextId !in t.resources
    ensures var after := AfterCreate(t, input, NoFault); Mirrors(after.resources, KeysOf(after, k), k)
  {
    InsertMirrors(t.resources, KeysOf(t, k), k, t.nextId, BaseOf(input));
    var based := InsertBase(t, BaseOf(input));
    assert KeysOf(based, k) == KeysOf(t, k);
    InsertAddsOneKey(based, t.nextId, input.subtype, k);
  }

  lemma BothInsertsKeepHierarchy(t: Tables, input: NewResource)
    requires Hierarchy(t)
    ensures Hierarchy(AfterCreate(t, input, NoFault))
  {
    InsertAddsOneKey(InsertBase(t, BaseOf(input)), t.nextId, input.subtype, PhysicalBook);
    forall k { BothInsertsMirror(t, input, k); }
  }

  lemma InsertLeavesOthers(t: Tables, id: int, s: Subtype, other: int)
    requires other != id
    ensures FindById(InsertSubtype(t, id, s), other) == FindById(t, other)
  {
  }

  lemma RolledBackKeepsHierarchy(t: Tables, n: int)
    requires Hierarchy(t) && t.nextId <= n
    ensures Hierarchy(t.(nextId := n))
  {
    forall k ensures Mirrors(t.resources, KeysOf(t.(nextId := n), k), k) {
      assert KeysOf(t.(nextId := n), k) == KeysOf(t, k);
    }
  }

  lemma CreateKeepsHierarchy(t: Tables, input: NewResource, fault: Fault)
    requires Hierarchy(t)
    ensures Hierarchy(AfterCreate(t, input, fault))
  {
    if fault == NoFault {
      BothInsertsKeepHierarchy(t, input);
    } else {
      RolledBackKeepsHierarchy(t, t.nextId + 1);
    }
  }

  lemma SubtypeRowIsFound(t: Tables, id: int, s: Subtype)
    requires id in t.resources && t.resources[id].resourceType == TypeOfSubtype(s)
    ensures FindById(InsertSubtype(t, id, s), id) == Resource(Entity(id, t.resources[id], s))
  {
  }

  lemma CreatedIsFound(t: Tables, input: NewResource)
    ensures FindById(AfterCreate(t, input, NoFault), t.nextId) ==
            Resource(Entity(t.nextId, BaseOf(input), input.subtype))
  {
    SubtypeRowIsFound(InsertBase(t, BaseOf(input)), t.nextId, input.subtype);
  }

  lemma OthersAreFoundAsBefore(t: Tables, input: NewResource, fault: Fault, id: int)
    requires id != t.nextId
    ensures FindById(AfterCreate(t, input, fault), id) == FindById(t, id)
  {
    if fault == NoFault {
      var based := InsertBase(t, BaseOf(input));
      assert FindById(based, id) == FindById(t, id);
      InsertLeavesOthers(based, t.nextId, input.subtype, id);
    }
  }

  function AfterCreates(t: Tables, inputs: seq<(NewResource, Fault)>): Tables
    decreases |inputs|
  {
    if inputs == [] then t else AfterCreates(AfterCreate(t, inputs[0].0, inputs[0].1), inputs[1..])
  }

  /**
   After any creates, each of which may fail at either insert, the hierarchy holds, a read never meets a
   missing subtype row, and it answers what it answered before for every resource that already existed.
   */
  lemma {:induction false} ReadsNeverThrow(t: Tables, inputs: seq<(NewResource, Fault)>)
    requires Hierarchy(t)
    ensures Hierarchy(AfterCreates(t, inputs))
    ensures forall id :: FindById(AfterCreates(t, inputs), id) != Missing
    ensures forall id | id in t.resources ::
              id in AfterCreates(t, inputs).resources && FindById(AfterCreates(t, inputs), id) == FindById(t, id)
    decreases |inputs|
  {
    if inputs == [] {
      forall id | id in t.resources { JoinIsFindById(t, id); }
    } else {
      CreateKeepsHierarchy(t, inputs[0].0, inputs[0].1);
      forall id | id in t.resources { OthersAreFoundAsBefore(t, inputs[0].0, inputs[0].1, id); }
      ReadsNeverThrow(AfterCreate(t, inputs[0].0, inputs[0].1), inputs[1..]);
    }
  }

  /** The row search joins for a resource is the very entity a read by id answers. */
  lemma JoinIsFindById(t: Tables, id: int)
    requires Hierarchy(t) && id in t.resources
    ensures FindById(t, id) == Resource(Join(t, id))
  {
    forall k ensures id in KeysOf(t, k) <==> t.resources[id].resourceType == k {
      assert Mirrors(t.resources, KeysOf(t, k), k);
    }
    assert id in KeysOf(t, PhysicalBook) <==> id in t.books;
    assert id in KeysOf(t, Thesis) <==> id in t.theses;
    assert id in KeysOf(t, JournalArticle) <==> id in t.articles;
    assert id in KeysOf(t, ResearchReport) <==> id in t.reports;
    assert id in KeysOf(t, RareMaterial) <==> id in t.rares;
  }
}
