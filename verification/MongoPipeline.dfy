/** The generated merge update, and the proof that running it on a stored document is the reference merge. */
module MongoPipeline {
  import opened Outcomes
  import opened Ordering
  import opened SeedValues
  import opened SeedSources
  import opened SeedMerge
  import opened MongoExpressions

  //////////////////////////////////////////////////////////////////////////////
  // Documents as values
  //////////////////////////////////////////////////////////////////////////////

  function EncodeSource(s: Source): Value {
    Obj(map[
      Key := Str(s.key), Type := Str(s.kind), SourceRef := Str(s.sourceRef), RawUrl := Str(s.rawUrl),
      Category := Str(s.category), Priority := Int(s.priority), ObservedAt := Date(s.observedAt),
      Metadata := Obj(s.metadata)])
  }

  function EncodeAll(s: seq<Source>): (r: seq<Value>)
    ensures |r| == |s|
  {
    if s == [] then [] else [EncodeSource(s[0])] + EncodeAll(s[1..])
  }

  function Strings(s: seq<string>): seq<Value> {
    if s == [] then [] else [Str(s[0])] + Strings(s[1..])
  }

  function Encode(d: Seed): Fields {
    map[
      DocumentId := Str(d.id), SchemaVersion := Int(1), CanonicalizationVersion := Int(1),
      CanonicalUrl := Str(d.canonicalUrl), Enabled := Bool(d.enabled), Priority := Int(d.priority),
      Categories := Arr(Strings(d.categories)), Sources := Arr(EncodeAll(d.sources)),
      DiscoveredAt := Date(d.discoveredAt), UpdatedAt := Date(d.updatedAt)]
  }

  //////////////////////////////////////////////////////////////////////////////
  // The generated pipeline
  //////////////////////////////////////////////////////////////////////////////

  const ROOT_FIELDS: seq<Name> :=
    [DocumentId, CanonicalUrl, CanonicalizationVersion, Categories, DiscoveredAt, Enabled, Priority,
     SchemaVersion, Sources, UpdatedAt]

  const EXISTING_SOURCES: Expr := IfNull(Field(Sources), ArrayOf([]))

  function StoredIsSameOrNewer(s: Source): Expr {
    And([Eq(Var(Key), Literal(Str(s.key))), Gte(Var(ObservedAt), Literal(Date(s.observedAt)))])
  }

  function SameOrNewerEach(i: seq<Source>): seq<Expr> {
    if i == [] then [] else [StoredIsSameOrNewer(i[0])] + SameOrNewerEach(i[1..])
  }

  function IncomingKeys(i: seq<Source>): seq<Value> {
    if i == [] then [] else [Str(i[0].key)] + IncomingKeys(i[1..])
  }

  function PreserveCondition(i: seq<Source>): Expr {
    Or([Not(In(Var(Key), Literal(Arr(IncomingKeys(i)))))] + SameOrNewerEach(i))
  }

  function IncomingArray(s: Source): Expr {
    Cond(AnyElementTrue(MapEach(EXISTING_SOURCES, StoredIsSameOrNewer(s))), ArrayOf([]),
         Literal(Arr([EncodeSource(s)])))
  }

  function IncomingArrays(i: seq<Source>): seq<Expr> {
    if i == [] then [] else [IncomingArray(i[0])] + IncomingArrays(i[1..])
  }

  function MergedSources(i: seq<Source>): Expr {
    SortArrayBy(ConcatArrays([Filter(EXISTING_SOURCES, PreserveCondition(i))] + IncomingArrays(i)), Key)
  }

  function DiscoveredAtExpr(d: Seed): Expr {
    Cond(Or([Eq(TypeOf(Field(DiscoveredAt)), Literal(Str("missing"))),
             Gt(Field(DiscoveredAt), Literal(Date(d.discoveredAt)))]),
         Literal(Date(d.discoveredAt)), Field(DiscoveredAt))
  }

  function UpdatedAtExpr(d: Seed): Expr {
    Cond(Or([Eq(TypeOf(Field(UpdatedAt)), Literal(Str("missing"))),
             Lt(Field(UpdatedAt), Literal(Date(d.updatedAt)))]),
         Literal(Date(d.updatedAt)), Field(UpdatedAt))
  }

  function MergeStage(d: Seed): seq<Assignment> {
    [Assignment(SchemaVersion, Literal(Int(1))),
     Assignment(CanonicalizationVersion, Literal(Int(1))),
     Assignment(CanonicalUrl, Literal(Str(d.canonicalUrl))),
     Assignment(Enabled, IfNull(Field(Enabled), Literal(Bool(d.enabled)))),
     Assignment(Sources, MergedSources(d.sources)),
     Assignment(DiscoveredAt, DiscoveredAtExpr(d)),
     Assignment(UpdatedAt, UpdatedAtExpr(d))]
  }

  const ROLLUP_STAGE: seq<Assignment> :=
    [Assignment(Priority, Min(FieldOf(Sources, Priority))),
     Assignment(Categories, SortArray(SetUnion(FieldOf(Sources, Category), ArrayOf([]))))]

  function Pipeline(d: Seed): seq<Stage> {
    [Set(MergeStage(d)), Set(ROLLUP_STAGE), Project(ROOT_FIELDS)]
  }

  /** The generator as written: one pass over the incoming sources that grows two lists. */
  method BuildMergedSources(i: seq<Source>) returns (e: Expr)
    ensures e == MergedSources(i)
  {
    hide StoredIsSameOrNewer, IncomingArray, IncomingKeys, EXISTING_SOURCES;
    var preserve := [Not(In(Var(Key), Literal(Arr(IncomingKeys(i)))))];
    var arrays: seq<Expr> := [];
    for n := 0 to |i|
      invariant preserve + SameOrNewerEach(i[n..])
                == [Not(In(Var(Key), Literal(Arr(IncomingKeys(i)))))] + SameOrNewerEach(i)
      invariant arrays + IncomingArrays(i[n..]) == IncomingArrays(i)
    {
      assert i[n..][1..] == i[n + 1..];
      preserve := preserve + [StoredIsSameOrNewer(i[n])];
      arrays := arrays + [IncomingArray(i[n])];
    }
    assert i[|i|..] == [] && preserve + [] == preserve && arrays + [] == arrays;
    e := SortArrayBy(ConcatArrays([Filter(EXISTING_SOURCES, Or(preserve))] + arrays), Key);
  }

  //////////////////////////////////////////////////////////////////////////////
  // What the expressions evaluate to
  //////////////////////////////////////////////////////////////////////////////

  predicate SameOrNewer(x: Source, s: Source) {
    x.key == s.key && x.observedAt >= s.observedAt
  }

  lemma EvalSourceField(doc: Fields, x: Source)
    ensures Eval(doc, EncodeSource(x), Var(Key)) == Str(x.key)
    ensures Eval(doc, EncodeSource(x), Var(ObservedAt)) == Date(x.observedAt)
  {
  }

  lemma EvalSameOrNewer(doc: Fields, x: Source, s: Source)
    ensures Eval(doc, EncodeSource(x), StoredIsSameOrNewer(s)) == Bool(SameOrNewer(x, s))
  {
    hide Eval, EncodeSource;
    var it := EncodeSource(x);
    var a, b := Eq(Var(Key), Literal(Str(s.key))), Gte(Var(ObservedAt), Literal(Date(s.observedAt)));
    EvalSourceField(doc, x);
    EvalEq(doc, it, Var(Key), Str(s.key));
    EvalGte(doc, it, Var(ObservedAt), Date(s.observedAt));
    EvalAndCons(doc, it, b, [], x.observedAt >= s.observedAt);
    EvalAndCons(doc, it, a, [b], x.key == s.key);
    assert [a] + [b] == [a, b] && [b] + [] == [b];
    EvalLogic(doc, it, [a, b]);
  }

  lemma {:induction false} EvalSameOrNewerEach(doc: Fields, x: Source, i: seq<Source>)
    ensures EvalOr(doc, EncodeSource(x), SameOrNewerEach(i)) == Bool(exists s :: s in i && SameOrNewer(x, s))
  {
    hide Eval, EncodeSource, StoredIsSameOrNewer;
    if i != [] {
      EvalSameOrNewer(doc, x, i[0]);
      EvalSameOrNewerEach(doc, x, i[1..]);
      EvalOrCons(doc, EncodeSource(x), StoredIsSameOrNewer(i[0]), SameOrNewerEach(i[1..]), SameOrNewer(x, i[0]));
      assert forall s :: s in i <==> s == i[0] || s in i[1..];
    }
  }

  lemma {:induction false} IncomingKeysMember(i: seq<Source>, k: string)
    ensures Str(k) in IncomingKeys(i) <==> Find(i, k).Some?
  {
    if i != [] {
      IncomingKeysMember(i[1..], k);
    }
  }

  /** A stored source is preserved exactly when the reference merge keeps it. */
  lemma EvalPreserve(doc: Fields, x: Source, i: seq<Source>)
    requires ByKey(i)
    ensures Eval(doc, EncodeSource(x), PreserveCondition(i)) == Bool(Pick(Some(x), Find(i, x.key)) == Some(x))
  {
    hide Less, Eval, EncodeSource, Find, SameOrNewerEach;
    var it := EncodeSource(x);
    var keys := IncomingKeys(i);
    var first := Not(In(Var(Key), Literal(Arr(keys))));
    EvalSourceField(doc, x);
    IncomingKeysMember(i, x.key);
    EvalIn(doc, it, Var(Key), Str(x.key), keys);
    EvalNot(doc, it, In(Var(Key), Literal(Arr(keys))), Find(i, x.key).Some?);
    EvalSameOrNewerEach(doc, x, i);
    EvalOrCons(doc, it, first, SameOrNewerEach(i), Find(i, x.key).None?);
    EvalLogic(doc, it, [first] + SameOrNewerEach(i));
    SameOrNewerFind(x, i);
  }

  lemma SameOrNewerFind(x: Source, i: seq<Source>)
    requires ByKey(i)
    ensures (exists s :: s in i && SameOrNewer(x, s))
            <==> Find(i, x.key).Some? && x.observedAt >= Find(i, x.key).value.observedAt
    ensures (exists s :: s in i && SameOrNewer(s, x)) <==> !Newer(x, Find(i, x.key))
  {
    hide Less;
    forall s | s in i && s.key == x.key ensures Find(i, x.key) == Some(s) {
      FindMember(i, s);
    }
  }

  lemma {:induction false} EvalKept(doc: Fields, e: seq<Source>, i: seq<Source>)
    requires ByKey(i)
    ensures Select(EncodeAll(e), EvalEach(doc, EncodeAll(e), PreserveCondition(i))) == EncodeAll(Kept(e, i))
    ensures Failure !in EvalEach(doc, EncodeAll(e), PreserveCondition(i))
  {
    hide Less, Eval, EvalEach, Select, Find, Pick, PreserveCondition, EncodeSource, ByKey;
    var cond := PreserveCondition(i);
    if e != [] {
      EvalPreserve(doc, e[0], i);
      EvalKept(doc, e[1..], i);
      var rest := EncodeAll(e[1..]);
      EvalEachCons(doc, EncodeSource(e[0]), rest, cond);
      SelectCons(EncodeSource(e[0]), rest, Eval(doc, EncodeSource(e[0]), cond), EvalEach(doc, rest, cond));
      EncodeConcat(if Pick(Some(e[0]), Find(i, e[0].key)) == Some(e[0]) then [e[0]] else [], Kept(e[1..], i));
      assert [e[0]][1..] == [];
      assert EncodeAll([e[0]]) == [EncodeSource(e[0])];
    } else {
      EvalEachEmpty(doc, cond);
    }
  }

  lemma EvalEachEmpty(doc: Fields, cond: Expr)
    ensures EvalEach(doc, [], cond) == [] && Select([], []) == []
  {
  }

  lemma {:induction false} EvalAny(doc: Fields, e: seq<Source>, s: Source)
    ensures var r := EvalEach(doc, EncodeAll(e), StoredIsSameOrNewer(s));
            && Failure !in r
            && ((exists v :: v in r && Truthy(v)) <==> exists x :: x in e && SameOrNewer(x, s))
  {
    hide Less, Eval, StoredIsSameOrNewer, EncodeSource, EvalEach;
    var body := StoredIsSameOrNewer(s);
    if e != [] {
      EvalSameOrNewer(doc, e[0], s);
      EvalAny(doc, e[1..], s);
      EvalEachCons(doc, EncodeSource(e[0]), EncodeAll(e[1..]), body);
      assert forall x :: x in e <==> x == e[0] || x in e[1..];
      var v0, r' := Bool(SameOrNewer(e[0], s)), EvalEach(doc, EncodeAll(e[1..]), body);
      assert forall v :: v in [v0] + r' <==> v == v0 || v in r';
      assert Truthy(v0) <==> SameOrNewer(e[0], s);
    } else {
      EvalEachEmpty(doc, body);
    }
  }

  /** The stored sources as the pipeline reads them: the field, or nothing. */
  ghost predicate Holds(doc: Fields, e: seq<Source>) {
    if Sources in doc then doc[Sources] == Arr(EncodeAll(e)) else e == []
  }

  lemma EvalExisting(doc: Fields, it: Value, e: seq<Source>)
    requires Holds(doc, e)
    ensures Eval(doc, it, EXISTING_SOURCES) == Arr(EncodeAll(e))
  {
    EvalEmptyArray(doc, it);
  }

  lemma EvalIncoming(doc: Fields, it: Value, e: seq<Source>, s: Source)
    requires ByKey(e) && Holds(doc, e)
    ensures Eval(doc, it, IncomingArray(s)) == Arr(if Newer(s, Find(e, s.key)) then [EncodeSource(s)] else [])
  {
    hide Less, Eval, EvalEach, EncodeSource, StoredIsSameOrNewer, EXISTING_SOURCES, Find;
    EvalExisting(doc, it, e);
    EvalAny(doc, e, s);
    EvalAnyElement(doc, it, EXISTING_SOURCES, StoredIsSameOrNewer(s), EncodeAll(e));
    SameOrNewerFind(s, e);
    EvalCond(doc, it, AnyElementTrue(MapEach(EXISTING_SOURCES, StoredIsSameOrNewer(s))), ArrayOf([]),
             Literal(Arr([EncodeSource(s)])), !Newer(s, Find(e, s.key)));
    EvalEmptyArray(doc, it);
    EvalLiteral(doc, it, Arr([EncodeSource(s)]));
  }

  lemma {:induction false} EvalAdded(doc: Fields, it: Value, e: seq<Source>, i: seq<Source>)
    requires ByKey(e) && Holds(doc, e)
    ensures Concat(EvalAll(doc, it, IncomingArrays(i))) == Arr(EncodeAll(Added(e, i)))
  {
    hide Less, Eval, EvalAll, IncomingArray, EncodeSource, Find, Newer, ByKey;
    if i != [] {
      EvalIncoming(doc, it, e, i[0]);
      EvalAdded(doc, it, e, i[1..]);
      EvalAllCons(doc, it, IncomingArray(i[0]), IncomingArrays(i[1..]));
      ConcatCons(Eval(doc, it, IncomingArray(i[0])), EvalAll(doc, it, IncomingArrays(i[1..])));
      EncodeConcat(if Newer(i[0], Find(e, i[0].key)) then [i[0]] else [], Added(e, i[1..]));
      assert [i[0]][1..] == [];
      assert EncodeAll([i[0]]) == [EncodeSource(i[0])];
    } else {
      assert EvalAll(doc, it, []) == [];
    }
  }

  lemma ConcatCons(v: Value, rest: seq<Value>)
    requires v.Arr? && Concat(rest).Arr?
    ensures Concat([v] + rest) == Arr(v.items + Concat(rest).items)
  {
    assert ([v] + rest)[1..] == rest;
  }

  lemma {:induction false} EncodeConcat(s: seq<Source>, t: seq<Source>)
    ensures EncodeAll(s + t) == EncodeAll(s) + EncodeAll(t)
  {
    if s == [] {
      assert s + t == t;
    } else {
      assert (s + t)[0] == s[0] && (s + t)[1..] == s[1..] + t;
      EncodeConcat(s[1..], t);
    }
  }

  lemma EncodedKey(x: Source)
    ensures Sub(EncodeSource(x), Key) == Str(x.key)
  {
  }

  lemma {:induction false} EncodeInsert(x: Source, s: seq<Source>)
    ensures InsertBy(EncodeSource(x), EncodeAll(s), Key) == EncodeAll(InsertByKey(x, s, KeyOf))
  {
    hide Less, EncodeSource;
    if s != [] {
      assert EncodeAll(s)[0] == EncodeSource(s[0]) && EncodeAll(s)[1..] == EncodeAll(s[1..]);
      EncodedKey(x);
      EncodedKey(s[0]);
      if !Less(s[0].key, x.key) {
        assert ([x] + s)[1..] == s;
      } else {
        EncodeInsert(x, s[1..]);
        assert ([s[0]] + InsertByKey(x, s[1..], KeyOf))[1..] == InsertByKey(x, s[1..], KeyOf);
      }
    } else {
      assert [x][1..] == [];
    }
  }

  lemma {:induction false} EncodeSort(s: seq<Source>)
    ensures SortBy(EncodeAll(s), Key) == EncodeAll(SortByKey(s, KeyOf))
  {
    hide Less, InsertBy, InsertByKey, EncodeSource;
    if s != [] {
      assert EncodeAll(s)[1..] == EncodeAll(s[1..]);
      EncodeSort(s[1..]);
      EncodeInsert(s[0], SortByKey(s[1..], KeyOf));
    }
  }

  /** The generated source expression is the reference merge of the stored and the incoming sources. */
  lemma EvalMergedSources(doc: Fields, e: seq<Source>, i: seq<Source>)
    requires ByKey(e) && ByKey(i) && Holds(doc, e)
    ensures Eval(doc, Missing, MergedSources(i)) == Arr(EncodeAll(MergeSources(e, i)))
  {
    hide Less, Eval, EvalAll, EvalEach, EncodeSource, PreserveCondition, IncomingArrays, ByKey, Find, SortBy, Kept,
      Added, Concat, EXISTING_SOURCES, Holds;
    var it := Missing;
    var filter := Filter(EXISTING_SOURCES, PreserveCondition(i));
    EvalExisting(doc, it, e);
    EvalKept(doc, e, i);
    EvalFilter(doc, it, EXISTING_SOURCES, PreserveCondition(i), EncodeAll(e));
    EvalAdded(doc, it, e, i);
    EvalAllCons(doc, it, filter, IncomingArrays(i));
    ConcatCons(Arr(EncodeAll(Kept(e, i))), EvalAll(doc, it, IncomingArrays(i)));
    EncodeConcat(Kept(e, i), Added(e, i));
    EvalConcat(doc, it, [filter] + IncomingArrays(i));
    EncodeSort(Kept(e, i) + Added(e, i));
    EvalSortBy(doc, it, ConcatArrays([filter] + IncomingArrays(i)), Key, EncodeAll(Kept(e, i) + Added(e, i)));
  }

  //////////////////////////////////////////////////////////////////////////////
  // Rollups
  //////////////////////////////////////////////////////////////////////////////

  function Priorities(s: seq<Source>): seq<Value> {
    if s == [] then [] else [Int(s[0].priority)] + Priorities(s[1..])
  }

  lemma {:induction false} RollupInputs(s: seq<Source>)
    ensures SubEach(EncodeAll(s), Priority) == Priorities(s)
    ensures SubEach(EncodeAll(s), Category) == Strings(CategoryList(s))
  {
    if s != [] {
      RollupInputs(s[1..]);
      SubEachCons(EncodeSource(s[0]), EncodeAll(s[1..]), Priority);
      SubEachCons(EncodeSource(s[0]), EncodeAll(s[1..]), Category);
      assert CategoryList(s)[1..] == CategoryList(s[1..]);
    }
  }

  lemma SubEachCons(v: Value, rest: seq<Value>, sub: Name)
    requires !Sub(v, sub).Missing?
    ensures SubEach([v] + rest, sub) == [Sub(v, sub)] + SubEach(rest, sub)
  {
    assert ([v] + rest)[1..] == rest;
  }

  lemma {:induction false} LeastPriority(s: seq<Source>)
    requires s != []
    ensures LeastValue(Priorities(s)) == Int(LowestPriority(s))
  {
    assert Priorities(s)[1..] == Priorities(s[1..]);
    if |s| > 1 {
      LeastPriority(s[1..]);
    } else {
      assert Priorities(s[1..]) == [];
    }
  }

  function DistinctStrings(s: seq<string>): seq<string> {
    if s == [] then []
    else
      var front := DistinctStrings(s[..|s| - 1]);
      if s[|s| - 1] in front then front else front + [s[|s| - 1]]
  }

  function InsertPlain(x: string, s: seq<string>): seq<string> {
    if s == [] || Less(x, s[0]) then [x] + s else [s[0]] + InsertPlain(x, s[1..])
  }

  function SortPlain(s: seq<string>): seq<string> {
    if s == [] then [] else InsertPlain(s[0], SortPlain(s[1..]))
  }

  lemma {:induction false} StringsMember(s: seq<string>, x: string)
    ensures Str(x) in Strings(s) <==> x in s
  {
    if s != [] {
      StringsMember(s[1..], x);
    }
  }

  lemma {:induction false} StringsConcat(s: seq<string>, t: seq<string>)
    ensures Strings(s + t) == Strings(s) + Strings(t)
  {
    if s == [] {
      assert s + t == t;
    } else {
      assert (s + t)[0] == s[0] && (s + t)[1..] == s[1..] + t;
      StringsConcat(s[1..], t);
    }
  }

  lemma {:induction false} StringsDistinct(s: seq<string>)
    ensures Distinct(Strings(s)) == Strings(DistinctStrings(s))
  {
    if s != [] {
      var front, last := s[..|s| - 1], s[|s| - 1];
      assert s == front + [last];
      StringsConcat(front, [last]);
      assert [last][1..] == [] && Strings([last]) == [Str(last)];
      var v := Strings(front) + [Str(last)];
      assert v[..|v| - 1] == Strings(front);
      StringsDistinct(front);
      StringsMember(DistinctStrings(front), last);
      StringsConcat(DistinctStrings(front), [last]);
    }
  }

  lemma {:induction false} StringsInsert(x: string, s: seq<string>)
    ensures InsertValue(Str(x), Strings(s)) == Strings(InsertPlain(x, s))
  {
    hide Less;
    if s == [] {
      assert [x][1..] == [];
    } else {
      assert Strings(s)[0] == Str(s[0]) && Strings(s)[1..] == Strings(s[1..]);
      assert ValueLess(Str(x), Str(s[0])) == Less(x, s[0]);
      if Less(x, s[0]) {
        assert ([x] + s)[1..] == s;
      } else {
        StringsInsert(x, s[1..]);
        assert ([s[0]] + InsertPlain(x, s[1..]))[1..] == InsertPlain(x, s[1..]);
      }
    }
  }

  lemma {:induction false} StringsSort(s: seq<string>)
    ensures SortValues(Strings(s)) == Strings(SortPlain(s))
  {
    hide Less, InsertValue, InsertPlain;
    if s != [] {
      assert Strings(s)[1..] == Strings(s[1..]);
      StringsSort(s[1..]);
      StringsInsert(s[0], SortPlain(s[1..]));
    }
  }

  ghost predicate NoRepeat(s: seq<string>) {
    forall i, j :: 0 <= i < j < |s| ==> s[i] != s[j]
  }

  lemma {:induction false} DistinctStringsOk(s: seq<string>)
    ensures NoRepeat(DistinctStrings(s)) && forall x :: x in DistinctStrings(s) <==> x in s
  {
    if s != [] {
      var front, last := s[..|s| - 1], s[|s| - 1];
      DistinctStringsOk(front);
      assert forall x :: x in s <==> x in front || x == last;
    }
  }

  lemma {:induction false} InsertPlainOk(x: string, s: seq<string>)
    requires Increasing(s) && x !in s
    ensures Increasing(InsertPlain(x, s)) && forall y :: y in InsertPlain(x, s) <==> y == x || y in s
  {
    if s != [] {
      LessTotal(x, s[0]);
      InsertStringSorted(x, s);
      assert s[0] in s;
      if !Less(x, s[0]) {
        FirstIsLeast(s);
        InsertPlainOk(x, s[1..]);
        var r := InsertPlain(x, s[1..]);
        assert forall y :: y in s <==> y == s[0] || y in s[1..];
        forall i | 0 <= i < |r| ensures Less(s[0], r[i]) {
          assert r[i] in r;
        }
      }
    }
  }

  lemma {:induction false} SortPlainOk(s: seq<string>)
    requires NoRepeat(s)
    ensures Increasing(SortPlain(s)) && forall y :: y in SortPlain(s) <==> y in s
  {
    if s != [] {
      assert s[0] !in s[1..];
      SortPlainOk(s[1..]);
      InsertPlainOk(s[0], SortPlain(s[1..]));
      assert forall y :: y in s <==> y == s[0] || y in s[1..];
    }
  }

  /** Distinct values, sorted, are the sorted set of the categories. */
  lemma SortedCategories(s: seq<string>)
    ensures SortValues(Distinct(Strings(s))) == Strings(SortedSet(s))
  {
    hide Less;
    StringsDistinct(s);
    StringsSort(DistinctStrings(s));
    DistinctStringsOk(s);
    SortPlainOk(DistinctStrings(s));
    SortedSetOk(s);
    IncreasingUnique(SortPlain(DistinctStrings(s)), SortedSet(s));
  }

  lemma EvalRollups(doc: Fields, s: seq<Source>)
    requires s != [] && Sources in doc && doc[Sources] == Arr(EncodeAll(s))
    ensures Assigned(doc, doc, ROLLUP_STAGE)
            == doc[Priority := Int(LowestPriority(s))][Categories := Arr(Strings(SortedSet(CategoryList(s))))]
  {
    hide Less, Eval, EncodeAll, LowestPriority, LeastValue, Strings, Assigned;
    var priority := FieldOf(Sources, Priority);
    var category := FieldOf(Sources, Category);
    RollupInputs(s);
    EvalFieldOf(doc, Missing, Sources, Priority, EncodeAll(s));
    EvalFieldOf(doc, Missing, Sources, Category, EncodeAll(s));
    EvalMin(doc, Missing, priority, Priorities(s));
    LeastPriority(s);
    EvalUnionEmpty(doc, Missing, category, Strings(CategoryList(s)));
    EvalSort(doc, Missing, SetUnion(category, ArrayOf([])), Distinct(Strings(CategoryList(s))));
    SortedCategories(CategoryList(s));
    var second := SortArray(SetUnion(category, ArrayOf([])));
    AssignedCons(doc, doc, Priority, Min(priority), [Assignment(Categories, second)], Int(LowestPriority(s)));
    var doc' := doc[Priority := Int(LowestPriority(s))];
    AssignedCons(doc, doc', Categories, second, [], Arr(Strings(SortedSet(CategoryList(s)))));
    assert [Assignment(Categories, second)] + [] == [Assignment(Categories, second)];
    assert [Assignment(Priority, Min(priority))] + [Assignment(Categories, second)] == ROLLUP_STAGE;
    AssignedEmpty(doc, doc'[Categories := Arr(Strings(SortedSet(CategoryList(s))))]);
  }

  lemma AssignedEmpty(before: Fields, doc: Fields)
    ensures Assigned(before, doc, []) == doc
  {
  }

  //////////////////////////////////////////////////////////////////////////////
  // The first stage
  //////////////////////////////////////////////////////////////////////////////

  /** A date field takes the literal when it is absent or when the test against the literal holds. */
  lemma EvalDate(doc: Fields, name: Name, test: Expr, ms: int, takes: bool)
    requires name in doc ==> doc[name].Date? && Eval(doc, Missing, test) == Bool(takes)
    ensures Eval(doc, Missing,
                 Cond(Or([Eq(TypeOf(Field(name)), Literal(Str("missing"))), test]), Literal(Date(ms)), Field(name)))
            == if name !in doc || takes then Date(ms) else doc[name]
  {
    hide Eval;
    var absent := Eq(TypeOf(Field(name)), Literal(Str("missing")));
    EvalField(doc, Missing, name);
    EvalIsMissing(doc, Missing, Field(name));
    EvalOrCons(doc, Missing, absent, [test], name !in doc);
    assert [absent] + [test] == [absent, test] && [test] + [] == [test];
    if name in doc {
      EvalOrCons(doc, Missing, test, [], takes);
    }
    EvalLogic(doc, Missing, [absent, test]);
    EvalCond(doc, Missing, Or([absent, test]), Literal(Date(ms)), Field(name), name !in doc || takes);
    EvalLiteral(doc, Missing, Date(ms));
  }

  lemma EvalDiscovered(doc: Fields, d: Seed)
    requires DiscoveredAt in doc ==> doc[DiscoveredAt].Date?
    ensures Eval(doc, Missing, DiscoveredAtExpr(d))
            == Date(if DiscoveredAt in doc then Least(doc[DiscoveredAt].ms, d.discoveredAt) else d.discoveredAt)
  {
    hide Eval;
    EvalField(doc, Missing, DiscoveredAt);
    EvalGt(doc, Missing, Field(DiscoveredAt), Date(d.discoveredAt));
    var takes := DiscoveredAt in doc && d.discoveredAt < doc[DiscoveredAt].ms;
    EvalDate(doc, DiscoveredAt, Gt(Field(DiscoveredAt), Literal(Date(d.discoveredAt))), d.discoveredAt, takes);
  }

  lemma EvalUpdated(doc: Fields, d: Seed)
    requires UpdatedAt in doc ==> doc[UpdatedAt].Date?
    ensures Eval(doc, Missing, UpdatedAtExpr(d))
            == Date(if UpdatedAt in doc then Greatest(doc[UpdatedAt].ms, d.updatedAt) else d.updatedAt)
  {
    hide Eval;
    EvalField(doc, Missing, UpdatedAt);
    EvalLt(doc, Missing, Field(UpdatedAt), Date(d.updatedAt));
    var takes := UpdatedAt in doc && doc[UpdatedAt].ms < d.updatedAt;
    EvalDate(doc, UpdatedAt, Lt(Field(UpdatedAt), Literal(Date(d.updatedAt))), d.updatedAt, takes);
  }

  /** What the first stage assigns. */
  ghost function Staged(doc: Fields, d: Seed, e: seq<Source>, enabled: bool, discovered: int, updated: int): Fields {
    doc[SchemaVersion := Int(1)][CanonicalizationVersion := Int(1)][CanonicalUrl := Str(d.canonicalUrl)]
       [Enabled := Bool(enabled)][Sources := Arr(EncodeAll(MergeSources(e, d.sources)))]
       [DiscoveredAt := Date(discovered)][UpdatedAt := Date(updated)]
  }

  lemma EvalMergeStage(doc: Fields, d: Seed, e: seq<Source>)
    requires ByKey(e) && ByKey(d.sources) && Holds(doc, e)
    requires Enabled in doc ==> doc[Enabled].Bool?
    requires DiscoveredAt in doc ==> doc[DiscoveredAt].Date?
    requires UpdatedAt in doc ==> doc[UpdatedAt].Date?
    ensures Assigned(doc, doc, MergeStage(d)) == Staged(doc, d, e,
              if Enabled in doc then doc[Enabled].b else d.enabled,
              if DiscoveredAt in doc then Least(doc[DiscoveredAt].ms, d.discoveredAt) else d.discoveredAt,
              if UpdatedAt in doc then Greatest(doc[UpdatedAt].ms, d.updatedAt) else d.updatedAt)
  {
    hide Less, Eval, EncodeAll, ByKey, MergeSources, MergedSources, DiscoveredAtExpr, UpdatedAtExpr, Assigned;
    var enabled := Bool(if Enabled in doc then doc[Enabled].b else d.enabled);
    EvalField(doc, Missing, Enabled);
    EvalIfNull(doc, Missing, Field(Enabled), Literal(Bool(d.enabled)));
    EvalLiteral(doc, Missing, Bool(d.enabled));
    EvalLiteral(doc, Missing, Int(1));
    EvalLiteral(doc, Missing, Str(d.canonicalUrl));
    EvalMergedSources(doc, e, d.sources);
    EvalDiscovered(doc, d);
    EvalUpdated(doc, d);
    var a := MergeStage(d);
    var v := [Int(1), Int(1), Str(d.canonicalUrl), enabled, Arr(EncodeAll(MergeSources(e, d.sources))),
              Eval(doc, Missing, DiscoveredAtExpr(d)), Eval(doc, Missing, UpdatedAtExpr(d))];
    AssignedSeven(doc, a, v);
  }

  lemma AssignedSeven(doc: Fields, a: seq<Assignment>, v: seq<Value>)
    requires |a| == |v| == 7
    requires forall i :: 0 <= i < 7 ==> Eval(doc, Missing, a[i].e) == v[i] && !v[i].Missing?
    ensures Assigned(doc, doc, a)
            == doc[a[0].name := v[0]][a[1].name := v[1]][a[2].name := v[2]][a[3].name := v[3]]
                  [a[4].name := v[4]][a[5].name := v[5]][a[6].name := v[6]]
  {
    hide Eval, Assigned;
    var cur := doc;
    assert a[0..] == a;
    for i := 0 to 7
      invariant Assigned(doc, doc, a) == Assigned(doc, cur, a[i..])
      invariant i >= 1 ==> cur == Updated(doc, a, v, i)
      invariant i == 0 ==> cur == doc
    {
      assert a[i..] == [Assignment(a[i].name, a[i].e)] + a[i + 1..];
      AssignedCons(doc, cur, a[i].name, a[i].e, a[i + 1..], v[i]);
      cur := cur[a[i].name := v[i]];
    }
    assert a[7..] == [];
    AssignedEmpty(doc, cur);
    assert Updated(doc, a, v, 0) == doc;
    assert Updated(doc, a, v, 2) == Updated(doc, a, v, 1)[a[1].name := v[1]];
    assert Updated(doc, a, v, 4) == Updated(doc, a, v, 3)[a[3].name := v[3]];
    assert Updated(doc, a, v, 6) == Updated(doc, a, v, 5)[a[5].name := v[5]];
  }

  ghost function Updated(doc: Fields, a: seq<Assignment>, v: seq<Value>, n: nat): Fields
    requires n <= |a| && |a| == |v|
  {
    if n == 0 then doc else Updated(doc, a, v, n - 1)[a[n - 1].name := v[n - 1]]
  }

  //////////////////////////////////////////////////////////////////////////////
  // The whole update
  //////////////////////////////////////////////////////////////////////////////

  lemma RunThreeStages(doc: Fields, a: seq<Assignment>, b: seq<Assignment>, names: seq<Name>)
    ensures RunPipeline(doc, [Set(a), Set(b), Project(names)])
            == Projected(Assigned(Assigned(doc, doc, a), Assigned(doc, doc, a), b), names)
  {
    hide Assigned, Projected;
    assert [Set(a), Set(b), Project(names)][1..] == [Set(b), Project(names)];
    assert [Set(b), Project(names)][1..] == [Project(names)];
    assert [Project(names)][1..] == [];
    var one := RunStage(doc, Set(a));
    assert RunPipeline(doc, [Set(a), Set(b), Project(names)]) == RunPipeline(one, [Set(b), Project(names)]);
    var two := RunStage(one, Set(b));
    assert RunPipeline(one, [Set(b), Project(names)]) == RunPipeline(two, [Project(names)]);
    assert RunPipeline(two, [Project(names)]) == RunPipeline(RunStage(two, Project(names)), []);
  }

  /** The two assigning stages leave exactly the fields of the resulting document. */
  lemma FinalDocument(doc: Fields, d: Seed, e: seq<Source>, r: Seed)
    requires DocumentId in doc && doc[DocumentId] == Str(r.id)
    requires r.canonicalUrl == d.canonicalUrl && r.sources == MergeSources(e, d.sources) && r.sources != []
    requires r.priority == LowestPriority(r.sources) && r.categories == SortedSet(CategoryList(r.sources))
    requires Assigned(doc, doc, MergeStage(d)) == Staged(doc, d, e, r.enabled, r.discoveredAt, r.updatedAt)
    ensures RunPipeline(doc, Pipeline(d)) == Encode(r)
  {
    hide Less, Eval, EncodeAll, MergeSources, Assigned, LowestPriority, CategoryList, SortedSet, Strings, RunPipeline,
      MergeStage, ROLLUP_STAGE, Projected, Encode;
    var one := Staged(doc, d, e, r.enabled, r.discoveredAt, r.updatedAt);
    EvalRollups(one, r.sources);
    RunThreeStages(doc, MergeStage(d), ROLLUP_STAGE, ROOT_FIELDS);
    RootFieldsShow(doc, d, e, r);
  }

  lemma RootFieldsShow(doc: Fields, d: Seed, e: seq<Source>, r: Seed)
    requires DocumentId in doc && doc[DocumentId] == Str(r.id)
    requires r.canonicalUrl == d.canonicalUrl && r.sources == MergeSources(e, d.sources)
    ensures Projected(Staged(doc, d, e, r.enabled, r.discoveredAt, r.updatedAt)
                        [Priority := Int(r.priority)][Categories := Arr(Strings(r.categories))], ROOT_FIELDS)
            == Encode(r)
  {
    hide EncodeAll, MergeSources, Strings;
  }

  /** Running the generated update on a stored valid document gives exactly the document that the
      reference merge builds, however many sources there are. */
  lemma UpdateIsMerge(identity: Identity, e: Seed, i: Seed)
    requires Valid(identity, e) && Valid(identity, i) && e.id == i.id && e.canonicalUrl == i.canonicalUrl
    ensures MergeSources(e.sources, i.sources) != []
    ensures RunPipeline(Encode(e), Pipeline(i)) == Encode(Rollup(e, i, MergeSources(e.sources, i.sources), None))
  {
    hide Less, Eval, EncodeAll, MergeSources, Assigned, LowestPriority, CategoryList, SortedSet, Strings, RunPipeline,
      MergeStage, Pipeline, Staged;
    MergeSucceeds(identity, e, i);
    EvalMergeStage(Encode(e), i, e.sources);
    FinalDocument(Encode(e), i, e.sources, Rollup(e, i, MergeSources(e.sources, i.sources), None));
  }

  /** Inserting: the update on a document that holds only its identifier gives the incoming document. */
  lemma InsertIsIncoming(identity: Identity, i: Seed)
    requires Valid(identity, i)
    ensures RunPipeline(map[DocumentId := Str(i.id)], Pipeline(i)) == Encode(i)
  {
    hide Less, Eval, EncodeAll, MergeSources, Assigned, LowestPriority, CategoryList, SortedSet, Strings, RunPipeline,
      MergeStage, Pipeline, Staged, Encode;
    var doc: Fields := map[DocumentId := Str(i.id)];
    EvalMergeStage(doc, i, []);
    MergeWithNothing(i.sources);
    FinalDocument(doc, i, [], i);
  }

  lemma MergeWithNothing(i: seq<Source>)
    requires ByKey(i)
    ensures MergeSources([], i) == i
  {
    MergeSourcesOk([], i);
    ByKeyUnique(MergeSources([], i), i);
  }
}
