/** The fragment of the aggregation expression language that the seed importer generates, with its
    evaluator.  Operators keep their treatment of missing and null operands and of wrong types. */
module MongoExpressions {
  import opened Ordering
  import opened SeedValues

  type Fields = map<Name, Value>

  datatype Expr =
    | Literal(v: Value)
    | Field(name: Name)
    | FieldOf(name: Name, sub: Name)
    | Var(sub: Name)
    | ArrayOf(es: seq<Expr>)
    | IfNull(e: Expr, alt: Expr)
    | Not(e: Expr)
    | And(es: seq<Expr>)
    | Or(es: seq<Expr>)
    | In(e: Expr, list: Expr)
    | Eq(l: Expr, r: Expr)
    | Gte(l: Expr, r: Expr)
    | Gt(l: Expr, r: Expr)
    | Lt(l: Expr, r: Expr)
    | Cond(c: Expr, t: Expr, f: Expr)
    | AnyElementTrue(e: Expr)
    | MapEach(input: Expr, body: Expr)
    | Filter(input: Expr, cond: Expr)
    | ConcatArrays(es: seq<Expr>)
    | SortArrayBy(input: Expr, sub: Name)
    | SortArray(input: Expr)
    | SetUnion(l: Expr, r: Expr)
    | Min(e: Expr)
    | TypeOf(e: Expr)

  //////////////////////////////////////////////////////////////////////////////
  // Values
  //////////////////////////////////////////////////////////////////////////////

  function Rank(v: Value): int {
    match v
    case Missing => 0
    case Null => 1
    case Int(_) => 2
    case Str(_) => 3
    case Obj(_) => 4
    case Arr(_) => 5
    case Bool(_) => 6
    case Date(_) => 7
    case Failure => 8
  }

  /** The comparison order across and within types; objects and arrays are not ordered among themselves. */
  predicate ValueLess(a: Value, b: Value) {
    match (a, b)
    case (Int(x), Int(y)) => x < y
    case (Str(x), Str(y)) => Less(x, y)
    case (Bool(x), Bool(y)) => !x && y
    case (Date(x), Date(y)) => x < y
    case _ => Rank(a) < Rank(b)
  }

  predicate Truthy(v: Value) {
    !(v.Missing? || v.Null? || v == Int(0) || v == Bool(false))
  }

  function TypeName(v: Value): string {
    match v
    case Missing => "missing"
    case Null => "null"
    case Int(_) => "int"
    case Str(_) => "string"
    case Obj(_) => "object"
    case Arr(_) => "array"
    case Bool(_) => "bool"
    case Date(_) => "date"
    case Failure => "failure"
  }

  function Sub(v: Value, name: Name): Value {
    if v.Obj? && name in v.fields then v.fields[name] else Missing
  }

  /** A path into an array collects the values of the elements that have the field. */
  function SubEach(items: seq<Value>, name: Name): seq<Value> {
    if items == [] then []
    else (if Sub(items[0], name).Missing? then [] else [Sub(items[0], name)]) + SubEach(items[1..], name)
  }

  function InsertBy(x: Value, s: seq<Value>, sub: Name): seq<Value> {
    if s == [] || !ValueLess(Sub(s[0], sub), Sub(x, sub)) then [x] + s else [s[0]] + InsertBy(x, s[1..], sub)
  }

  function SortBy(s: seq<Value>, sub: Name): seq<Value> {
    if s == [] then [] else InsertBy(s[0], SortBy(s[1..], sub), sub)
  }

  function InsertValue(x: Value, s: seq<Value>): seq<Value> {
    if s == [] || ValueLess(x, s[0]) then [x] + s else [s[0]] + InsertValue(x, s[1..])
  }

  function SortValues(s: seq<Value>): seq<Value> {
    if s == [] then [] else InsertValue(s[0], SortValues(s[1..]))
  }

  function Distinct(s: seq<Value>): seq<Value> {
    if s == [] then []
    else
      var front := Distinct(s[..|s| - 1]);
      if s[|s| - 1] in front then front else front + [s[|s| - 1]]
  }

  function LeastValue(s: seq<Value>): Value {
    if s == [] then Null
    else
      var rest := LeastValue(s[1..]);
      if s[0].Null? || s[0].Missing? then rest
      else if rest.Null? || ValueLess(s[0], rest) then s[0]
      else rest
  }

  function Concat(s: seq<Value>): Value {
    if s == [] then Arr([])
    else
      var rest := Concat(s[1..]);
      if s[0].Failure? || rest.Failure? then Failure
      else if s[0].Missing? || s[0].Null? || rest.Null? then Null
      else if s[0].Arr? && rest.Arr? then Arr(s[0].items + rest.items)
      else Failure
  }

  //////////////////////////////////////////////////////////////////////////////
  // Evaluation
  //////////////////////////////////////////////////////////////////////////////

  /** doc is the document ($field), it the bound variable ($$source). */
  function Eval(doc: Fields, it: Value, e: Expr): Value
    decreases e, 0
  {
    match e
    case Literal(v) => v
    case Field(name) => if name in doc then doc[name] else Missing
    case FieldOf(name, sub) =>
      var v := if name in doc then doc[name] else Missing;
      if v.Arr? then Arr(SubEach(v.items, sub)) else Sub(v, sub)
    case Var(sub) => Sub(it, sub)
    case ArrayOf(es) => Arr(EvalAll(doc, it, es))
    case IfNull(e, alt) =>
      var v := Eval(doc, it, e);
      if v.Missing? || v.Null? then Eval(doc, it, alt) else v
    case Not(e) =>
      var v := Eval(doc, it, e);
      if v.Failure? then Failure else Bool(!Truthy(v))
    case And(es) => EvalAnd(doc, it, es)
    case Or(es) => EvalOr(doc, it, es)
    case In(e, list) =>
      var v, l := Eval(doc, it, e), Eval(doc, it, list);
      if v.Failure? || !l.Arr? then Failure else Bool(v in l.items)
    case Eq(l, r) => Compared(Eval(doc, it, l), Eval(doc, it, r), (x, y) => x == y)
    case Gte(l, r) => Compared(Eval(doc, it, l), Eval(doc, it, r), (x, y) => !ValueLess(x, y))
    case Gt(l, r) => Compared(Eval(doc, it, l), Eval(doc, it, r), (x, y) => ValueLess(y, x))
    case Lt(l, r) => Compared(Eval(doc, it, l), Eval(doc, it, r), (x, y) => ValueLess(x, y))
    case Cond(c, t, f) =>
      var v := Eval(doc, it, c);
      if v.Failure? then Failure else if Truthy(v) then Eval(doc, it, t) else Eval(doc, it, f)
    case AnyElementTrue(e) =>
      var v := Eval(doc, it, e);
      if v.Arr? then Bool(exists x :: x in v.items && Truthy(x)) else Failure
    case MapEach(input, body) =>
      var v := Eval(doc, it, input);
      if v.Missing? || v.Null? then Null
      else if !v.Arr? then Failure
      else
        var r := EvalEach(doc, v.items, body);
        if Failure in r then Failure else Arr(r)
    case Filter(input, cond) =>
      var v := Eval(doc, it, input);
      if v.Missing? || v.Null? then Null
      else if !v.Arr? then Failure
      else
        var r := EvalEach(doc, v.items, cond);
        if Failure in r then Failure else Arr(Select(v.items, r))
    case ConcatArrays(es) => Concat(EvalAll(doc, it, es))
    case SortArrayBy(input, sub) =>
      var v := Eval(doc, it, input);
      if v.Arr? then Arr(SortBy(v.items, sub)) else Failure
    case SortArray(input) =>
      var v := Eval(doc, it, input);
      if v.Arr? then Arr(SortValues(v.items)) else Failure
    case SetUnion(l, r) =>
      var x, y := Eval(doc, it, l), Eval(doc, it, r);
      if x.Arr? && y.Arr? then Arr(Distinct(x.items + y.items)) else Failure
    case Min(e) =>
      var v := Eval(doc, it, e);
      if v.Arr? then LeastValue(v.items) else v
    case TypeOf(e) =>
      var v := Eval(doc, it, e);
      if v.Failure? then Failure else Str(TypeName(v))
  }

  function Compared(x: Value, y: Value, test: (Value, Value) -> bool): Value {
    if x.Failure? || y.Failure? then Failure else Bool(test(x, y))
  }

  function EvalAll(doc: Fields, it: Value, es: seq<Expr>): (r: seq<Value>)
    ensures |r| == |es|
    decreases es, 0
  {
    if es == [] then [] else [Eval(doc, it, es[0])] + EvalAll(doc, it, es[1..])
  }

  function EvalAnd(doc: Fields, it: Value, es: seq<Expr>): Value
    decreases es, 0
  {
    if es == [] then Bool(true)
    else
      var v := Eval(doc, it, es[0]);
      if v.Failure? then Failure else if Truthy(v) then EvalAnd(doc, it, es[1..]) else Bool(false)
  }

  function EvalOr(doc: Fields, it: Value, es: seq<Expr>): Value
    decreases es, 0
  {
    if es == [] then Bool(false)
    else
      var v := Eval(doc, it, es[0]);
      if v.Failure? then Failure else if Truthy(v) then Bool(true) else EvalOr(doc, it, es[1..])
  }

  function EvalEach(doc: Fields, items: seq<Value>, body: Expr): (r: seq<Value>)
    ensures |r| == |items|
    decreases body, 1 + |items|
  {
    if items == [] then [] else [Eval(doc, items[0], body)] + EvalEach(doc, items[1..], body)
  }

  function Select(items: seq<Value>, marks: seq<Value>): seq<Value>
    requires |items| == |marks|
  {
    if items == [] then []
    else (if Truthy(marks[0]) then [items[0]] else []) + Select(items[1..], marks[1..])
  }

  //////////////////////////////////////////////////////////////////////////////
  // One operator at a time
  //////////////////////////////////////////////////////////////////////////////

  lemma EvalEachCons(doc: Fields, x: Value, rest: seq<Value>, body: Expr)
    ensures EvalEach(doc, [x] + rest, body) == [Eval(doc, x, body)] + EvalEach(doc, rest, body)
  {
    hide Eval;
    assert ([x] + rest)[1..] == rest;
  }

  lemma SelectCons(x: Value, rest: seq<Value>, mark: Value, marks: seq<Value>)
    requires |rest| == |marks|
    ensures Select([x] + rest, [mark] + marks) == (if Truthy(mark) then [x] else []) + Select(rest, marks)
  {
    assert ([x] + rest)[1..] == rest && ([mark] + marks)[1..] == marks;
  }

  lemma EvalAllCons(doc: Fields, it: Value, e: Expr, es: seq<Expr>)
    ensures EvalAll(doc, it, [e] + es) == [Eval(doc, it, e)] + EvalAll(doc, it, es)
  {
    hide Eval;
    assert ([e] + es)[1..] == es;
  }

  lemma EvalOrCons(doc: Fields, it: Value, e: Expr, es: seq<Expr>, b: bool)
    requires Eval(doc, it, e) == Bool(b)
    ensures EvalOr(doc, it, [e] + es) == if b then Bool(true) else EvalOr(doc, it, es)
  {
    hide Eval;
    assert ([e] + es)[1..] == es;
  }

  lemma EvalAndCons(doc: Fields, it: Value, e: Expr, es: seq<Expr>, b: bool)
    requires Eval(doc, it, e) == Bool(b)
    ensures EvalAnd(doc, it, [e] + es) == if b then EvalAnd(doc, it, es) else Bool(false)
  {
    hide Eval;
    assert ([e] + es)[1..] == es;
  }

  lemma EvalConcat(doc: Fields, it: Value, es: seq<Expr>)
    ensures Eval(doc, it, ConcatArrays(es)) == Concat(EvalAll(doc, it, es))
  {
  }

  lemma EvalLogic(doc: Fields, it: Value, es: seq<Expr>)
    ensures Eval(doc, it, Or(es)) == EvalOr(doc, it, es)
    ensures Eval(doc, it, And(es)) == EvalAnd(doc, it, es)
  {
  }

  lemma EvalEmptyArray(doc: Fields, it: Value)
    ensures Eval(doc, it, ArrayOf([])) == Arr([])
  {
    assert EvalAll(doc, it, []) == [];
  }

  lemma EvalIn(doc: Fields, it: Value, e: Expr, v: Value, items: seq<Value>)
    requires Eval(doc, it, e) == v && !v.Failure?
    ensures Eval(doc, it, In(e, Literal(Arr(items)))) == Bool(v in items)
  {
    assert Eval(doc, it, Literal(Arr(items))) == Arr(items);
  }

  lemma EvalNot(doc: Fields, it: Value, e: Expr, b: bool)
    requires Eval(doc, it, e) == Bool(b)
    ensures Eval(doc, it, Not(e)) == Bool(!b)
  {
  }

  lemma EvalEq(doc: Fields, it: Value, l: Expr, v: Value)
    requires !Eval(doc, it, l).Failure? && !v.Failure?
    ensures Eval(doc, it, Eq(l, Literal(v))) == Bool(Eval(doc, it, l) == v)
  {
    assert Eval(doc, it, Literal(v)) == v;
  }

  lemma EvalGte(doc: Fields, it: Value, l: Expr, v: Value)
    requires !Eval(doc, it, l).Failure? && !v.Failure?
    ensures Eval(doc, it, Gte(l, Literal(v))) == Bool(!ValueLess(Eval(doc, it, l), v))
  {
    assert Eval(doc, it, Literal(v)) == v;
  }

  lemma EvalGt(doc: Fields, it: Value, l: Expr, v: Value)
    requires !Eval(doc, it, l).Failure? && !v.Failure?
    ensures Eval(doc, it, Gt(l, Literal(v))) == Bool(ValueLess(v, Eval(doc, it, l)))
  {
    assert Eval(doc, it, Literal(v)) == v;
  }

  lemma EvalLt(doc: Fields, it: Value, l: Expr, v: Value)
    requires !Eval(doc, it, l).Failure? && !v.Failure?
    ensures Eval(doc, it, Lt(l, Literal(v))) == Bool(ValueLess(Eval(doc, it, l), v))
  {
    assert Eval(doc, it, Literal(v)) == v;
  }

  lemma EvalCond(doc: Fields, it: Value, c: Expr, t: Expr, f: Expr, b: bool)
    requires Eval(doc, it, c) == Bool(b)
    ensures Eval(doc, it, Cond(c, t, f)) == if b then Eval(doc, it, t) else Eval(doc, it, f)
  {
  }

  lemma EvalFilter(doc: Fields, it: Value, input: Expr, cond: Expr, items: seq<Value>)
    requires Eval(doc, it, input) == Arr(items) && Failure !in EvalEach(doc, items, cond)
    ensures Eval(doc, it, Filter(input, cond)) == Arr(Select(items, EvalEach(doc, items, cond)))
  {
  }

  lemma EvalAnyElement(doc: Fields, it: Value, input: Expr, body: Expr, items: seq<Value>)
    requires Eval(doc, it, input) == Arr(items) && Failure !in EvalEach(doc, items, body)
    ensures Eval(doc, it, AnyElementTrue(MapEach(input, body)))
            == Bool(exists x :: x in EvalEach(doc, items, body) && Truthy(x))
  {
    assert Eval(doc, it, MapEach(input, body)) == Arr(EvalEach(doc, items, body));
  }

  lemma EvalSortBy(doc: Fields, it: Value, input: Expr, sub: Name, items: seq<Value>)
    requires Eval(doc, it, input) == Arr(items)
    ensures Eval(doc, it, SortArrayBy(input, sub)) == Arr(SortBy(items, sub))
  {
  }

  lemma EvalSort(doc: Fields, it: Value, input: Expr, items: seq<Value>)
    requires Eval(doc, it, input) == Arr(items)
    ensures Eval(doc, it, SortArray(input)) == Arr(SortValues(items))
  {
  }

  lemma EvalMin(doc: Fields, it: Value, input: Expr, items: seq<Value>)
    requires Eval(doc, it, input) == Arr(items)
    ensures Eval(doc, it, Min(input)) == LeastValue(items)
  {
  }

  lemma EvalUnionEmpty(doc: Fields, it: Value, input: Expr, items: seq<Value>)
    requires Eval(doc, it, input) == Arr(items)
    ensures Eval(doc, it, SetUnion(input, ArrayOf([]))) == Arr(Distinct(items))
  {
    EvalEmptyArray(doc, it);
    assert items + [] == items;
  }

  lemma EvalIfNull(doc: Fields, it: Value, e: Expr, alt: Expr)
    ensures Eval(doc, it, IfNull(e, alt))
            == if Eval(doc, it, e) in {Missing, Null} then Eval(doc, it, alt) else Eval(doc, it, e)
  {
  }

  lemma EvalField(doc: Fields, it: Value, name: Name)
    ensures Eval(doc, it, Field(name)) == if name in doc then doc[name] else Missing
  {
  }

  lemma EvalFieldOf(doc: Fields, it: Value, name: Name, sub: Name, items: seq<Value>)
    requires name in doc && doc[name] == Arr(items)
    ensures Eval(doc, it, FieldOf(name, sub)) == Arr(SubEach(items, sub))
  {
  }

  lemma EvalLiteral(doc: Fields, it: Value, v: Value)
    ensures Eval(doc, it, Literal(v)) == v
  {
  }

  /** TypeOf tells an absent field from a present one. */
  lemma EvalIsMissing(doc: Fields, it: Value, e: Expr)
    requires !Eval(doc, it, e).Failure?
    ensures Eval(doc, it, Eq(TypeOf(e), Literal(Str("missing")))) == Bool(Eval(doc, it, e).Missing?)
  {
    hide Eval;
    var v := Eval(doc, it, e);
    EvalTypeOf(doc, it, e);
    EvalEq(doc, it, TypeOf(e), Str("missing"));
    assert v != Missing ==> |TypeName(v)| != 7;
  }

  lemma EvalTypeOf(doc: Fields, it: Value, e: Expr)
    requires !Eval(doc, it, e).Failure?
    ensures Eval(doc, it, TypeOf(e)) == Str(TypeName(Eval(doc, it, e)))
  {
  }

  //////////////////////////////////////////////////////////////////////////////
  // Pipelines
  //////////////////////////////////////////////////////////////////////////////

  datatype Assignment = Assignment(name: Name, e: Expr)

  datatype Stage = Set(assignments: seq<Assignment>) | Project(names: seq<Name>)

  function WithField(doc: Fields, name: Name, v: Value): Fields {
    if v.Missing? then doc - {name} else doc[name := v]
  }

  /** Every assigned expression reads the document as it was before the stage. */
  function Assigned(before: Fields, doc: Fields, assignments: seq<Assignment>): Fields
    decreases |assignments|
  {
    if assignments == [] then doc
    else
      var next := WithField(doc, assignments[0].name, Eval(before, Missing, assignments[0].e));
      Assigned(before, next, assignments[1..])
  }

  function Projected(doc: Fields, names: seq<Name>): Fields {
    map n | n in doc && n in names :: doc[n]
  }

  function RunStage(doc: Fields, stage: Stage): Fields {
    match stage
    case Set(assignments) => Assigned(doc, doc, assignments)
    case Project(names) => Projected(doc, names)
  }

  function RunPipeline(doc: Fields, stages: seq<Stage>): Fields
    decreases |stages|
  {
    if stages == [] then doc else RunPipeline(RunStage(doc, stages[0]), stages[1..])
  }

  lemma AssignedCons(before: Fields, doc: Fields, name: Name, e: Expr, rest: seq<Assignment>, v: Value)
    requires Eval(before, Missing, e) == v && !v.Missing?
    ensures Assigned(before, doc, [Assignment(name, e)] + rest) == Assigned(before, doc[name := v], rest)
  {
    hide Eval;
    assert ([Assignment(name, e)] + rest)[1..] == rest;
  }
}
