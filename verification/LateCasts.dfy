/** A program in which a late cast happens: two modules over the same two types, the second with a cast. */
module LateCasts {
  import opened CStrings
  import opened CastLists
  import opened Registry
  import opened RegistryRuns
  import opened Loader
  import opened Interpreters
  import opened Conversion

  const A: CString := [65]
  const B: CString := [66]

  lemma TypesSorted(a: TypeInfo, b: TypeInfo)
    requires a.name == A && b.name == B
    ensures Sorted([a, b])
  {
    assert Before([a, b], 0, 1);
  }

  /** The rows that the generator writes: a self-cast for each type, then the other casts to it. */
  ghost predicate Rows(m: ModuleInfo, a: TypeInfo, b: TypeInfo, withCast: bool) {
    && m.typeInitial == [a, b] && a.name == A && b.name == B
    && |m.castInitial| == 2 && |m.castInitial[0]| == 1 && |m.castInitial[1]| == (if withCast then 2 else 1)
    && m.castInitial[0][0].declared == a && m.castInitial[1][0].declared == b
    && (withCast ==> m.castInitial[1][1].declared == a)
  }

  lemma RowsFit(m: ModuleInfo, a: TypeInfo, b: TypeInfo, withCast: bool)
    requires Rows(m, a, b, withCast)
    ensures WellFormed(m) && (Declares(m, A, B) <==> withCast)
  {
    hide Sorted;
    TypesSorted(a, b);
    assert RowWellFormed(m, m.castInitial[0]) && RowWellFormed(m, m.castInitial[1]);
    assert withCast ==> InRow(m.castInitial[1], A);
    assert InRow(m.castInitial[1], A) ==> withCast;
    assert m.typeInitial[0].name != B && m.typeInitial[1].name == B;
  }

  /** A generated module with the types A and B, a self-cast for each, and a cast from A to B if asked. */
  method NewModule(withCast: bool) returns (m: ModuleInfo, a: TypeInfo, b: TypeInfo)
    ensures fresh(m) && fresh(a) && fresh(b) && fresh(RowNodes(m)) && m.typeInitial == [a, b]
    ensures a.name == A && b.name == B && WellFormed(m) && Pristine(m)
    ensures Declares(m, A, B) <==> withCast
  {
    hide WellFormed, Declares;
    a := new TypeInfo(A, None, 0);
    b := new TypeInfo(B, None, 0);
    var selfA := new CastInfo(a, None);
    var selfB := new CastInfo(b, None);
    var cast := new CastInfo(a, None);
    m := new ModuleInfo([a, b], [[selfA], if withCast then [selfB, cast] else [selfB]]);
    RowsFit(m, a, b, withCast);
  }

  /** A run that loads the two modules. */
  lemma TwoLoads(m: ModuleInfo, m': ModuleInfo)
    requires WellFormed(m) && WellFormed(m') && m != m' && Apart(m, m')
    ensures IsRun([LoadOp(m)]) && After([LoadOp(m)]) == Load(Empty, m) && Allowed(Empty, LoadOp(m))
    ensures Allowed(Load(Empty, m), LoadOp(m')) && Load(Load(Empty, m), m').loads == [m] + [m']
    ensures IsRun([LoadOp(m), LoadOp(m')]) && After([LoadOp(m), LoadOp(m')]) == Load(Load(Empty, m), m')
  {
    assert [] + [LoadOp(m)] == [LoadOp(m)] && [LoadOp(m)] + [LoadOp(m')] == [LoadOp(m), LoadOp(m')];
    AfterStep([], LoadOp(m));
    AfterStep([LoadOp(m)], LoadOp(m'));
  }

  /** The shared descriptors are those of the first module. */
  lemma FirstShared(m: ModuleInfo, m': ModuleInfo, i: nat)
    requires WellFormed(m) && WellFormed(m') && m != m' && i < |m.typeInitial|
    ensures var s, x := Load(Load(Empty, m), m'), m.typeInitial[i]; x.name in s.live && s.live[x.name] == x
  {
    NewLiveSlot(map[], m, i);
    NewLiveAll(Load(Empty, m).live, m', |m'.typeInitial|);
  }

  /** A cast between types that are known, declared by the second module alone, is late. */
  lemma LateAfterLoads(m: ModuleInfo, m': ModuleInfo, x: TypeInfo, t: CString)
    requires WellFormed(m) && WellFormed(m') && m != m' && Apart(m, m')
    requires Has(m, x.name) && Has(m, t) && !Declares(m, x.name, t) && Declares(m', x.name, t)
    ensures var ops := [LoadOp(m), LoadOp(m')];
            && DeclaredBy(ops, x.name, t) && Late(After(ops).loads, x.name, t)
            && (FirstSource(After(ops).loads, x, t) <==> x in m'.typeInitial)
  {
    var ops := [LoadOp(m), LoadOp(m')];
    TwoLoads(m, m');
    OneMore([], m, x.name, t);
    assert [] + [m] == [m];
    OneMore([m], m', x.name, t);
    FirstSourceOneMore([m], m', x, t);
    assert ops[1].LoadOp? && Declares(ops[1].m, x.name, t);
  }

  /** The second module, made beside an interpreter. */
  method NewModuleBeside(it: Interpreter, withCast: bool) returns (m: ModuleInfo, a: TypeInfo, b: TypeInfo)
    requires it.Valid()
    ensures it.Valid() && it.history == old(it.history)
    ensures fresh(m) && fresh(a) && fresh(b) && fresh(RowNodes(m)) && m.typeInitial == [a, b]
    ensures a.name == A && b.name == B && WellFormed(m) && Pristine(m)
    ensures Declares(m, A, B) <==> withCast
  {
    hide Interpreter.Valid, Pristine;
    ghost var model := it.Model();
    ghost var ring, statics, records := model.ring, Statics(model.loads), Records(model.loads);
    assert allocated(ring);
    m, a, b := NewModule(withCast);
    assert unchanged(it) && unchanged(ring) && unchanged(statics) && unchanged(records);
  }

  /** What the first load may change is the structures of its module. */
  lemma SlotsOwn(m: ModuleInfo, a: TypeInfo, b: TypeInfo)
    requires WellFormed(m) && m.typeInitial == [a, b]
    ensures SlotTypes(Empty, m) <= {a, b} && Records([] + [m]) == RowNodes(m)
  {
    NewLiveSlot(map[], m, 0);
    NewLiveSlot(map[], m, 1);
    assert forall x :: x in [] + [m] <==> x == m;
  }

  /** What the second load may change is the structures of the two modules. */
  lemma SlotsShared(m: ModuleInfo, m': ModuleInfo, a: TypeInfo, b: TypeInfo)
    requires WellFormed(m) && WellFormed(m') && m != m' && |m'.typeInitial| == 2 && m.typeInitial == [a, b]
    requires m'.typeInitial[0].name == a.name && m'.typeInitial[1].name == b.name
    ensures Load(Empty, m).ring == [m] && Load(Empty, m).loads == [m]
    ensures SlotTypes(Load(Empty, m), m') <= {a, b}
    ensures Records([m] + [m']) == RowNodes(m) + RowNodes(m')
  {
    FirstShared(m, m', 0);
    FirstShared(m, m', 1);
    assert forall x :: x in [m] + [m'] <==> x == m || x == m';
  }

  /** An interpreter that has loaded a module without the cast. */
  method LoadFirst() returns (it: Interpreter, m: ModuleInfo, a: TypeInfo, b: TypeInfo)
    ensures fresh(it) && fresh(m) && fresh(a) && fresh(b) && fresh(RowNodes(m))
    ensures it.Valid() && it.history == [LoadOp(m)] && it.Model() == Load(Empty, m)
    ensures WellFormed(m) && m.typeInitial == [a, b] && a.name == A && b.name == B && !Declares(m, A, B)
  {
    hide Pristine, Interpreter.Valid, NewLive, LoadChains, Declares;
    it := new Interpreter();
    m, a, b := NewModuleBeside(it, false);
    assert it.Model() == Empty;
    SlotsOwn(m, a, b);
    it.InitializeModule(m, Empty);
    assert [] + [LoadOp(m)] == [LoadOp(m)];
    AfterStep([], LoadOp(m));
  }

  /** The same interpreter after it has loaded a module over the same types, with the cast. */
  method LoadSecond(it: Interpreter, m: ModuleInfo, a: TypeInfo, b: TypeInfo)
    returns (m': ModuleInfo, own: TypeInfo)
    requires it.Valid() && it.history == [LoadOp(m)] && it.Model() == Load(Empty, m)
    requires WellFormed(m) && m.typeInitial == [a, b] && a.name == A && b.name == B
    modifies it, m, a, b, RowNodes(m)
    ensures it.Valid() && it.history == [LoadOp(m), LoadOp(m')]
    ensures WellFormed(m') && m != m' && Apart(m, m') && own in m'.typeInitial && own != a && own.name == A
    ensures Declares(m', A, B) && fresh(RowNodes(m'))
  {
    hide Pristine, Interpreter.Valid, NewLive, LoadChains, Declares;
    var b';
    m', own, b' := NewModuleBeside(it, true);
    TwoLoads(m, m');
    SlotsShared(m, m', a, b);
    it.InitializeModule(m', Load(Empty, m));
  }

  lemma SourcesAfterLoads(m: ModuleInfo, m': ModuleInfo, a: TypeInfo, own: TypeInfo, b: TypeInfo)
    requires WellFormed(m) && WellFormed(m') && m != m' && Apart(m, m') && m.typeInitial == [a, b]
    requires own in m'.typeInitial && a.name == own.name && !Declares(m, a.name, b.name) && Declares(m', a.name, b.name)
    ensures var ops := [LoadOp(m), LoadOp(m')]; var s := After(ops);
            && IsSource(ops, own, b.name) && !IsSource(ops, a, b.name) && DeclaredBy(ops, a.name, b.name)
            && b.name in s.live && s.live[b.name] == b && a.name in s.live && s.live[a.name] == a
            && Late(s.loads, a.name, b.name) && s.loads == [m, m']
  {
    assert m.typeInitial[0] == a && m.typeInitial[1] == b;
    TwoLoads(m, m');
    FirstShared(m, m', 0);
    FirstShared(m, m', 1);
    LateAfterLoads(m, m', a, b.name);
    LateAfterLoads(m, m', own, b.name);
  }

  /** The two kinds of lookup, by each of two descriptors and by their common name. */
  method LookUpBoth(it: Interpreter, a: TypeInfo, own: TypeInfo, b: TypeInfo, ghost history: seq<Op>,
          ghost s: Registry)
    returns (byShared: CastInfo?, byOwn: CastInfo?, byName: CastInfo?)
    requires OnlyLookups(it, history, s) && SharedTarget(s, b) && s == After(history)
    modifies it`head, it`cache, it`history, b`cast, b`chain, b`sources
    modifies Records(s.loads)`next, Records(s.loads)`prev
    ensures byShared != null <==> IsSource(history, a, b.name)
    ensures byOwn != null <==> IsSource(history, own, b.name)
    ensures byOwn != null ==> byOwn.ty == own
    ensures byName != null <==> DeclaredBy(history, a.name, b.name)
    ensures byName != null ==> byName.declared.name == a.name
  {
    hide OnlyLookups, IsSource, DeclaredBy, After;
    byShared := LookUpStruct(it, a, b, history, s);
    byOwn := LookUpStruct(it, own, b, history, s);
    byName := LookUp(it, a.name, b, null, [], history, s);
  }

  lemma NoLookups(it: Interpreter)
    requires it.Valid()
    ensures OnlyLookups(it, it.history, it.Model())
  {
  }

  /**
   * A program with a late cast: the shared descriptor of its source is not found by descriptor, the
   * second module's own one is, and a lookup by their common name succeeds.
   */
  method LateCast() returns (a: TypeInfo, own: TypeInfo, byShared: CastInfo?, byOwn: CastInfo?, byName: CastInfo?)
    ensures a != own && a.name == own.name && byShared == null
    ensures byOwn != null && byOwn.ty == own && byName != null && byName.declared.name == a.name
  {
    hide OnlyLookups, Interpreter.Valid, IsSource, Late, DeclaredBy, Declares, After, WellFormed;
    var it, m, m', b;
    it, m, a, b := LoadFirst();
    m', own := LoadSecond(it, m, a, b);
    SourcesAfterLoads(m, m', a, own, b);
    NoLookups(it);
    assert Records([m, m']) == RowNodes(m) + RowNodes(m') by {
      assert forall x :: x in [m, m'] <==> x == m || x == m';
    }
    byShared, byOwn, byName := LookUpBoth(it, a, own, b, it.history, it.Model());
  }
}
