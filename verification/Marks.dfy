/** Client data over whole runs: what is marked stays closed under the casts without converters. */
module Marks {
  import opened CStrings
  import opened CastLists
  import opened Registry
  import opened RegistryRuns
  import opened Loader
  import opened ClientData
  import opened Interpreters

  /** Every type that casts without a converter to a type with client data has client data. */
  ghost predicate MarksClosed(types: set<TypeInfo>)
    reads types`chain, types`sources, types`clientdata
  {
    Closed(EdgesOf(types), DataOf(types))
  }

  /** An interpreter whose `types`, all its descriptors, have closed marks. */
  ghost predicate Sound(it: Interpreter, types: set<TypeInfo>)
    reads it, it.Model().ring, Statics(it.Model().loads), Records(it.Model().loads)
    reads types`chain, types`sources, types`clientdata
  {
    it.Valid() && types == Statics(it.Model().loads) && MarksClosed(types)
  }

  /** A new interpreter has nothing marked. */
  method NewInterpreter() returns (it: Interpreter)
    ensures fresh(it) && it.history == [] && Sound(it, {})
  {
    it := new Interpreter();
    assert Statics(it.Model().loads) == {};
  }

  /**
   * What closed marks mean for the shared descriptors: where a marked type has a cast without a
   * converter, the record's descriptor is marked, and it is the shared one unless the cast is late.
   */
  lemma SharedMarks(it: Interpreter, s: Registry, t: TypeInfo, i: nat)
    requires Sound(it, Statics(s.loads)) && s == it.Model() && t.name in s.live && s.live[t.name] == t
    requires t.clientdata != 0 && i < |t.chain| && t.chain[i].converter.None?
    ensures i < |t.sources|
    ensures var x := t.sources[i];
            x.clientdata != 0 && x.name in s.live && (x == s.live[x.name] <==> !Late(s.loads, x.name, t.name))
  {
    it.RunInMemory();
    NodeShared(s, it.head, t, i);
    var types := Statics(s.loads);
    assert t.sources[i] in EdgesOf(types)[t] && t in DataOf(types);
  }

  lemma NodeShared(s: Registry, head: ModuleInfo?, t: TypeInfo, i: nat)
    requires InMemory(s, head) && t.name in s.live && s.live[t.name] == t && i < |t.chain|
    ensures t in Statics(s.loads) && i < |t.sources| && t.sources[i] in Statics(s.loads)
    ensures var x := t.sources[i]; x.name in s.live && (x == s.live[x.name] <==> !Late(s.loads, x.name, t.name))
  {
    hide Late;
    assert InStatics(s.loads, t);
    assert ListOk(t, View(s));
    assert ChainInv(s, t.name) && TargetInv(s, t.name, t.sources[i]);
  }

  // ---------- lookups and queries ----------

  lemma LookupKeepsStatics(history: seq<Op>, op: Op)
    requires !op.LoadOp?
    ensures After(history + [op]).loads == After(history).loads
  {
    assert (history + [op])[..|history|] == history;
  }

  /** A lookup by name keeps the marks closed. */
  method TypeCheck(it: Interpreter, c: CString, ty: TypeInfo, ghost s: Registry) returns (r: CastInfo?)
    requires Sound(it, Statics(s.loads)) && s == it.Model() && ty.name in s.live && s.live[ty.name] == ty
    modifies it`head, it`cache, it`history, ty`cast, ty`chain, ty`sources, Nodes(ty)`next, Nodes(ty)`prev
    ensures Sound(it, Statics(s.loads)) && it.history == old(it.history) + [CheckOp(c, ty.name)]
  {
    LookupKeepsStatics(it.history, CheckOp(c, ty.name));
    r := it.TypeCheck(c, ty, s);
  }

  /** A lookup by descriptor keeps the marks closed. */
  method TypeCheckStruct(it: Interpreter, from: TypeInfo, ty: TypeInfo, ghost s: Registry) returns (r: CastInfo?)
    requires Sound(it, Statics(s.loads)) && s == it.Model() && ty.name in s.live && s.live[ty.name] == ty
    modifies it`head, it`cache, it`history, ty`cast, ty`chain, ty`sources, Nodes(ty)`next, Nodes(ty)`prev
    ensures Sound(it, Statics(s.loads)) && it.history == old(it.history) + [StructOp(from, ty.name)]
  {
    LookupKeepsStatics(it.history, StructOp(from, ty.name));
    r := it.TypeCheckStruct(from, ty, s);
  }

  /** A query leaves all casts and all client data as they are. */
  method QueryKeepingMarks(it: Interpreter, name: CString, ghost types: set<TypeInfo>)
    returns (descriptor: TypeInfo?, overrun: bool)
    requires it.Valid() && it.head != null && MarksClosed(types)
    modifies it`head, it`cache, it`history
    ensures it.Valid() && it.history == (if overrun then old(it.history) else old(it.history) + [QueryOp(name)])
    ensures MarksClosed(types)
  {
    descriptor, overrun := it.TypeQuery(name);
  }

  /** A query keeps the marks closed. */
  method TypeQuery(it: Interpreter, name: CString, ghost types: set<TypeInfo>)
    returns (descriptor: TypeInfo?, overrun: bool)
    requires Sound(it, types) && it.head != null
    modifies it`head, it`cache, it`history
    ensures Sound(it, types) && it.history == if overrun then old(it.history) else old(it.history) + [QueryOp(name)]
  {
    LookupKeepsStatics(it.history, QueryOp(name));
    descriptor, overrun := QueryKeepingMarks(it, name, types);
  }

  // ---------- client data ----------

  lemma SpreadMarks(types: set<TypeInfo>, edges: Graph, data: Data, ty: TypeInfo, clientdata: nat)
    requires edges == EdgesOf(types) && data.Keys == types && Closed(edges, data) && ty in types
    requires DataOf(types) == Spread(edges, data, ty, clientdata)
    ensures MarksClosed(types) <==> clientdata != 0 || !HasSetUser(edges, data, ty)
  {
    if clientdata == 0 {
      NullSpread(edges, data, ty);
      UnsetKeepsClosedIff(edges, data, ty);
    } else {
      SpreadKeepsClosed(edges, data, ty, clientdata);
    }
  }

  /**
   * Setting client data keeps the marks closed, except where null takes the mark from a type that casts
   * without a converter to another marked type.
   */
  method TypeClientData(it: Interpreter, ty: TypeInfo, clientdata: nat, ghost types: set<TypeInfo>)
    requires Sound(it, types) && ty in types
    requires clientdata == 0 ==> NoCycleAhead(EdgesOf(types), Unset(DataOf(types)) + {ty}, ty)
    modifies types`clientdata
    ensures it.Valid() && it.history == old(it.history) && types == Statics(it.Model().loads)
    ensures Sound(it, types) <==> clientdata != 0 || !old(HasSetUser(EdgesOf(types), DataOf(types), ty))
  {
    hide Interpreter.Valid, After, HasSetUser;
    ghost var edges, data := EdgesOf(types), DataOf(types);
    SetKeepingEdges(it, ty, clientdata, edges, types);
    SpreadMarks(types, edges, data, ty, clientdata);
  }

  method SetKeepingEdges(it: Interpreter, ty: TypeInfo, clientdata: nat, ghost edges: Graph,
          ghost types: set<TypeInfo>)
    requires it.Valid() && types == Statics(it.Model().loads) && ty in types && edges == EdgesOf(types)
    requires clientdata == 0 ==> NoCycleAhead(edges, Unset(DataOf(types)) + {ty}, ty)
    modifies types`clientdata
    ensures it.Valid() && it.history == old(it.history) && edges == EdgesOf(types)
    ensures DataOf(types) == Spread(edges, old(DataOf(types)), ty, clientdata)
  {
    hide Interpreter.Valid;
    it.TypeClientData(ty, clientdata, edges);
  }

  // ---------- loads ----------

  /** Before a load the module's own descriptors have no casts, so the marks are closed with them. */
  lemma ClosedWithNew(s: Registry, head: ModuleInfo?, m: ModuleInfo)
    requires InMemory(s, head) && MarksClosed(Statics(s.loads)) && (m in s.ring || Pristine(m))
    ensures MarksClosed(Statics(s.loads + [m]))
  {
    var types, all := Statics(s.loads), Statics(s.loads + [m]);
    RegistryGraph(s, head);
    LoadsAreRing(s);
    StaticsGrow(s.loads, m);
    forall x, y | x in all && DataOf(all)[x] != 0 && y in EdgesOf(all)[x] && y in all
      ensures DataOf(all)[y] != 0
    {
      if x in types {
        assert NodeOk(EdgesOf(types), x);
        assert y in EdgesOf(types)[x] && y in types;
      }
    }
  }

  /** After `SWIG_InitializeModule` only the marks at the module's slots can be open. */
  lemma OpenAtSlots(s: Registry, m: ModuleInfo, edges: Graph, data: Data)
    requires var all := Statics(s.loads + [m]); edges.Keys == data.Keys == all && Closed(edges, data) && m !in s.ring
    requires |m.typeInitial| == |m.castInitial|
    requires forall t :: t in Statics(s.loads + [m]) && t !in SlotTypes(s, m) ==>
               Plain(t) == edges[t] && t.clientdata == data[t]
    requires DataOf(Statics(s.loads + [m])) ==
               LoadData(NewLive(s.live, m, |m.typeInitial|), m, data, |m.typeInitial|)
    ensures ClosedOutside(EdgesOf(Statics(s.loads + [m])), DataOf(Statics(s.loads + [m])), SlotTypes(s, m))
  {
    var all := Statics(s.loads + [m]);
    forall x | x in data && data[x] != 0
      ensures DataOf(all)[x] != 0
    {
      LoadDataKeepsSet(NewLive(s.live, m, |m.typeInitial|), m, data, |m.typeInitial|, x);
    }
    LoadedOutside(edges, data, EdgesOf(all), DataOf(all), SlotTypes(s, m));
  }

  /** `SWIG_InitializeModule`, with what it leaves of the lists and of the client data. */
  method InitializeStep(it: Interpreter, m: ModuleInfo, ghost s: Registry, ghost all: set<TypeInfo>)
    requires it.Valid() && s == it.Model() && Allowed(s, LoadOp(m)) && (m in s.ring || Pristine(m))
    requires all == Statics(s.loads + [m])
    modifies it`head, it`cache, it`history, m`next, m`types, s.ring`next
    modifies Records(s.loads + [m])`ty, Records(s.loads + [m])`next, Records(s.loads + [m])`prev
    modifies Records(s.loads + [m])`owner
    modifies SlotTypes(s, m)`cast, SlotTypes(s, m)`chain, SlotTypes(s, m)`sources, SlotTypes(s, m)`clientdata
    ensures it.Valid() && it.history == old(it.history) + [LoadOp(m)]
    ensures forall t :: t in all && t !in SlotTypes(s, m) ==>
              t.chain == old(t.chain) && t.sources == old(t.sources) && t.clientdata == old(t.clientdata)
    ensures if m in s.ring then EdgesOf(all) == old(EdgesOf(all)) && DataOf(all) == old(DataOf(all))
            else DataOf(all) == LoadData(NewLive(s.live, m, |m.typeInitial|), m, old(DataOf(all)), |m.typeInitial|)
  {
    hide Interpreter.Valid, Pristine;
    it.InitializeModule(m, s);
  }

  /** `SWIG_InitializeModule` opens marks at the slots of a new module alone. */
  method Initialize(it: Interpreter, m: ModuleInfo, ghost s: Registry, ghost all: set<TypeInfo>)
    requires it.Valid() && s == it.Model() && Allowed(s, LoadOp(m)) && (m in s.ring || Pristine(m))
    requires all == Statics(s.loads + [m]) && MarksClosed(all)
    modifies it`head, it`cache, it`history, m`next, m`types, s.ring`next
    modifies Records(s.loads + [m])`ty, Records(s.loads + [m])`next, Records(s.loads + [m])`prev
    modifies Records(s.loads + [m])`owner
    modifies SlotTypes(s, m)`cast, SlotTypes(s, m)`chain, SlotTypes(s, m)`sources, SlotTypes(s, m)`clientdata
    ensures it.Valid() && it.history == old(it.history) + [LoadOp(m)]
    ensures ClosedOutside(EdgesOf(all), DataOf(all), if m in s.ring then {} else SlotTypes(s, m))
  {
    hide Interpreter.Valid, Pristine;
    ghost var edges, data := EdgesOf(all), DataOf(all);
    InitializeStep(it, m, s, all);
    if m !in s.ring {
      OpenAtSlots(s, m, edges, data);
    }
  }

  /** `SWIG_PropagateClientData` closes the marks that are open at the slots of its module. */
  method Propagate(it: Interpreter, m: ModuleInfo, ghost types: set<TypeInfo>, ghost open: set<TypeInfo>)
    requires it.Valid() && m in it.Model().ring && types == Statics(it.Model().loads)
    requires ClosedOutside(EdgesOf(types), DataOf(types), open)
    requires m.propagated ==> open == {}
    requires open <= set t | t in Slots(it.Model().live, m)
    modifies m`propagated, types`clientdata
    ensures it.Valid() && it.history == old(it.history) && MarksClosed(types)
  {
    ghost var edges, data, slots := EdgesOf(types), DataOf(types), Slots(it.Model().live, m);
    PropagateKeepingEdges(it, m, edges, types);
    if !old(m.propagated) {
      PropagatedCloses(edges, slots, data, DataOf(types));
    }
  }

  method PropagateKeepingEdges(it: Interpreter, m: ModuleInfo, ghost edges: Graph, ghost types: set<TypeInfo>)
    requires it.Valid() && m in it.Model().ring && types == Statics(it.Model().loads) && edges == EdgesOf(types)
    modifies m`propagated, types`clientdata
    ensures it.Valid() && it.history == old(it.history) && edges == EdgesOf(types)
    ensures if old(m.propagated) then DataOf(types) == old(DataOf(types))
            else Propagated(edges, Slots(it.Model().live, m), old(DataOf(types)), DataOf(types))
  {
    hide Interpreter.Valid;
    it.PropagateClientData(m, edges);
  }

  lemma LoadedModel(history: seq<Op>, s: Registry, m: ModuleInfo)
    requires IsRun(history) && s == After(history) && Allowed(s, LoadOp(m))
    ensures var r := After(history + [LoadOp(m)]);
            && Statics(r.loads) == Statics(s.loads + [m]) && m in r.ring
            && (if m in s.ring then {} else SlotTypes(s, m)) <= set t | t in Slots(r.live, m)
  {
    hide After, RingInv, LiveInv, ChainsInv, CacheInv, NewLive, LoadChains;
    AfterStep(history, LoadOp(m));
    RunKeepsInv(history);
    LoadsAreRing(s);
  }

  /** Loading a module, `SWIG_InitializeModule` and then `SWIG_PropagateClientData`, keeps the marks closed. */
  method Load(it: Interpreter, m: ModuleInfo, ghost s: Registry)
    requires Sound(it, Statics(s.loads)) && s == it.Model() && Allowed(s, LoadOp(m))
    requires m in s.ring || (Pristine(m) && !m.propagated)
    modifies it`head, it`cache, it`history, m`next, m`types, m`propagated, s.ring`next
    modifies Records(s.loads + [m])`ty, Records(s.loads + [m])`next, Records(s.loads + [m])`prev
    modifies Records(s.loads + [m])`owner
    modifies SlotTypes(s, m)`cast, SlotTypes(s, m)`chain, SlotTypes(s, m)`sources, Statics(s.loads + [m])`clientdata
    ensures Sound(it, Statics(s.loads + [m])) && it.history == old(it.history) + [LoadOp(m)]
  {
    hide Interpreter.Valid, After, Inv, ClosedOutside, Pristine, MarksClosed, RowsUnlinked;
    ghost var all := Statics(s.loads + [m]);
    it.RunInMemory();
    ClosedWithNew(s, it.head, m);
    LoadedModel(it.history, s, m);
    SlotTypesStatic(s, m);
    Initialize(it, m, s, all);
    Propagate(it, m, all, if m in s.ring then {} else SlotTypes(s, m));
  }

  lemma SlotTypesStatic(s: Registry, m: ModuleInfo)
    requires Inv(s) && Allowed(s, LoadOp(m))
    ensures SlotTypes(s, m) <= Statics(s.loads + [m])
  {
    LoadsAreRing(s);
    forall i | 0 <= i < |m.typeInitial|
      ensures Slot(NewLive(s.live, m, |m.typeInitial|), m.typeInitial[i]) in Statics(s.loads + [m])
    {
      if m in s.ring {
        var n := m.typeInitial[i].name;
        assert Has(m, n);
        NewLiveSlot(s.live, m, i);
        assert InStatics(s.loads, s.live[n]);
      } else {
        SlotIsStatic(s, m, i);
      }
    }
  }
}
