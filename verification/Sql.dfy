/**
 The part of SQL the search service writes: expressions over one joined row under three-valued logic.
 */
module Sql {
  import opened Common
  import opened Catalog
  import Numerals

  datatype Value = Null | Text(text: string) | Int(number: int) | Date(day: int) | Bool(truth: bool)

  datatype Column =
    | ResourceTypeColumn
    | DepartmentColumn
    | CreatedYearColumn
    | PublicationYearColumn
    | ReportYearColumn
    | DegreeTypeColumn
    | EmbargoUntilColumn
    | DepartmentScopeColumn

  /** `CaseWhen(c, a, b)` is CASE WHEN c THEN a ELSE b END; `TextMatch` stands for the full-text predicate. */
  datatype Expr =
    | Literal(value: Value)
    | Col(column: Column)
    | CurrentDate
    | Equal(left: Expr, right: Expr)
    | Greater(left: Expr, right: Expr)
    | AtMost(left: Expr, right: Expr)
    | IsNull(operand: Expr)
    | IsNotNull(operand: Expr)
    | And(left: Expr, right: Expr)
    | Or(left: Expr, right: Expr)
    | Coalesce(left: Expr, right: Expr)
    | CaseWhen(condition: Expr, result: Expr, otherwise: Expr)
    | ToText(operand: Expr)
    | TextMatch(query: string)

  /** The instant of the query and the text predicate, which both engines share. */
  datatype Env = Env(now: int, hit: (string, string) -> bool)

  function OptText(s: Option<string>): Value {
    match s case Some(v) => Text(v) case None => Null
  }

  function OptInt(n: Option<int>): Value {
    match n case Some(v) => Int(v) case None => Null
  }

  function Fetch(row: Row, column: Column): Value {
    match column
    case ResourceTypeColumn => Text(TypeName(row.base.resourceType))
    case DepartmentColumn => OptText(row.base.department)
    case CreatedYearColumn => Int(row.base.createdYear)
    case PublicationYearColumn => OptInt(row.PublicationYear())
    case ReportYearColumn => OptInt(row.ReportYear())
    case DegreeTypeColumn => (match row.Degree() case Some(d) => Text(DegreeName(d)) case None => Null)
    case EmbargoUntilColumn => (match row.EmbargoUntil() case Some(d) => Date(d) case None => Null)
    case DepartmentScopeColumn => OptText(row.DepartmentScope())
  }

  /** A comparison with NULL is unknown. */
  function Compare(a: Value, b: Value, holds: (int, int) -> bool): Value {
    match (a, b)
    case (Int(x), Int(y)) => Bool(holds(x, y))
    case (Date(x), Date(y)) => Bool(holds(x, y))
    case _ => Null
  }

  function Conjoin(a: Value, b: Value): Value {
    if a == Bool(false) || b == Bool(false) then Bool(false)
    else if a == Bool(true) && b == Bool(true) then Bool(true)
    else Null
  }

  function Disjoin(a: Value, b: Value): Value {
    if a == Bool(true) || b == Bool(true) then Bool(true)
    else if a == Bool(false) && b == Bool(false) then Bool(false)
    else Null
  }

  function Eval(env: Env, row: Row, e: Expr): Value {
    match e
    case Literal(v) => v
    case Col(c) => Fetch(row, c)
    case CurrentDate => Date(env.now / MS_PER_DAY)
    case Equal(a, b) =>
      var x, y := Eval(env, row, a), Eval(env, row, b);
      if x == Null || y == Null then Null else Bool(x == y)
    case Greater(a, b) => Compare(Eval(env, row, a), Eval(env, row, b), (x, y) => x > y)
    case AtMost(a, b) => Compare(Eval(env, row, a), Eval(env, row, b), (x, y) => x <= y)
    case IsNull(a) => Bool(Eval(env, row, a) == Null)
    case IsNotNull(a) => Bool(Eval(env, row, a) != Null)
    case And(a, b) => Conjoin(Eval(env, row, a), Eval(env, row, b))
    case Or(a, b) => Disjoin(Eval(env, row, a), Eval(env, row, b))
    case Coalesce(a, b) =>
      var x := Eval(env, row, a);
      if x != Null then x else Eval(env, row, b)
    case CaseWhen(c, a, b) => if Eval(env, row, c) == Bool(true) then Eval(env, row, a) else Eval(env, row, b)
    case ToText(a) =>
      (match Eval(env, row, a)
       case Int(n) => Text(Numerals.Numeral(n))
       case v => v)
    case TextMatch(q) => Bool(env.hit(SearchText(row), q))
  }

  /** A WHERE clause keeps the rows for which it is true, not merely not false. */
  predicate Selects(env: Env, row: Row, condition: Expr) {
    Eval(env, row, condition) == Bool(true)
  }

  // ---------- the truth tables ----------

  predicate IsTruth(v: Value) {
    v == Null || v.Bool?
  }

  /** AND is true of two truths, false of any falsehood and unknown otherwise; OR the other way round. */
  lemma ConnectivesAreKleene(a: Value, b: Value)
    requires IsTruth(a) && IsTruth(b)
    ensures IsTruth(Conjoin(a, b)) && IsTruth(Disjoin(a, b))
    ensures Conjoin(a, b) == Bool(true) <==> a == Bool(true) && b == Bool(true)
    ensures Conjoin(a, b) == Bool(false) <==> a == Bool(false) || b == Bool(false)
    ensures Disjoin(a, b) == Bool(true) <==> a == Bool(true) || b == Bool(true)
    ensures Disjoin(a, b) == Bool(false) <==> a == Bool(false) && b == Bool(false)
  {
  }

  /** A comparison is unknown exactly when a side is NULL; the tests for NULL never are. */
  lemma ComparisonsAreUnknownOfNull(env: Env, row: Row, a: Expr, b: Expr)
    ensures Eval(env, row, Equal(a, b)) == Null <==> Eval(env, row, a) == Null || Eval(env, row, b) == Null
    ensures Eval(env, row, a).Date? && Eval(env, row, b).Date? ==>
              Eval(env, row, Greater(a, b)) == Bool(Eval(env, row, a).day > Eval(env, row, b).day)
    ensures Eval(env, row, a) == Null ==> Eval(env, row, Greater(a, b)) == Eval(env, row, AtMost(a, b)) == Null
    ensures Eval(env, row, IsNull(a)) == Bool(Eval(env, row, a) == Null)
    ensures Eval(env, row, IsNotNull(a)) == Bool(Eval(env, row, a) != Null)
  {
  }
}
