/** The interpreter: the head of its module ring, its query cache, and everything the ring leads to. */
module Interpreters {
  import opened CStrings
  import opened CastLists
  import opened Registry
  import opened Queries
  import opened RegistryRuns
  import opened Loader
  import opened ClientData

  /** The `next` pointers of `ring` close it into one cycle. */
  ghost predicate Circular(ring: seq<ModuleInfo>)
    reads ring`next
  {
    forall k :: 0 <= k < |ring| ==> NextIs(ring, k, ring[0])
  }

  /** The modules a search from `m.next` meets once `m` is linked in behind the head. */
  ghost function Others(ring: seq<ModuleInfo>): seq<ModuleInfo> {
    if ring == [] then [] else ring[1..] + [ring[0]]
  }

  lemma RingDistinct(s: Registry, i: nat, j: nat)
    requires RingInv(s) && i < j < |s.ring|
    ensures s.ring[i] != s.ring[j]
  {
  }

  /** The static structures of a module as the compiler laid them out. */
  ghost predicate Pristine(m: ModuleInfo)
    reads m, m.typeInitial, RowNodes(m)
  {
    && m.next == null && |m.types| == |m.typeInitial| + 1
    && RowsUnlinked(m, 0) && RowsApart(m)
    && forall t :: t in m.typeInitial ==> t.cast == null && t.chain == [] && t.sources == []
  }

  /** The lists of a registry. */
  ghost function View(s: Registry): Lists {
    Lists(Statics(s.loads), Records(s.loads), s.live, s.chains, s.loads)
  }

  lemma StaticKnown(loads: seq<ModuleInfo>, t: TypeInfo)
    requires t in Statics(loads)
    ensures Known(loads, t.name)
  {
    var m :| m in loads && t in m.typeInitial;
    var i :| 0 <= i < |m.typeInitial| && m.typeInitial[i] == t;
    assert Has(m, t.name);
  }

  lemma StaticsGrow(loads: seq<ModuleInfo>, m: ModuleInfo)
    ensures Statics(loads + [m]) == Statics(loads) + set t | t in m.typeInitial
    ensures Records(loads + [m]) == Records(loads) + RowNodes(m)
  {
    assert forall x :: x in loads + [m] <==> x in loads || x == m;
  }

  /** A further module does not change which record declared a cast first. */
  lemma StillFirst(loads: seq<ModuleInfo>, m: ModuleInfo, nodes: set<CastInfo>, t: CString)
    requires FromFirst(nodes, loads, t)
    ensures FromFirst(nodes, loads + [m], t)
  {
    forall r | r in nodes
      ensures FirstRecord(loads + [m], r, t)
    {
      FirstRecordDeclares(loads, r, t);
      FirstRecordOneMore(loads, m, r, t);
    }
  }

  lemma OldListFits(s: Registry, m: ModuleInfo, t: TypeInfo)
    requires LiveInv(s) && WellFormed(m) && t in Statics(s.loads) && ListsOk(View(s)) && s.chains.Keys == s.live.Keys
    ensures ListOk(t, Stage(s, m, 0))
  {
    hide ListValid, FirstRecord;
    assert ListOk(t, View(s));
    NewLiveAll(s.live, m, |m.typeInitial|);
    StaticKnown(s.loads, t);
    StillFirst(s.loads, m, Nodes(t), t.name);
  }

  lemma NewListFits(s: Registry, m: ModuleInfo, t: TypeInfo)
    requires LiveInv(s) && WellFormed(m) && t !in Statics(s.loads) && s.chains.Keys == s.live.Keys
    requires t.cast == null && t.chain == [] && t.sources == []
    ensures ListOk(t, Stage(s, m, 0))
  {
    hide FirstRecord;
    NewLiveAll(s.live, m, |m.typeInitial|);
    if t.name in s.live {
      assert InStatics(s.loads, s.live[t.name]);
    }
  }

  /** A module's own pristine descriptors fit the lists in which nothing of the module is merged yet. */
  lemma StageZero(s: Registry, m: ModuleInfo)
    requires Inv(s) && m !in s.ring && Loadable(s, m) && Pristine(m) && ListsOk(View(s))
    ensures ListsOk(Stage(s, m, 0))
  {
    hide LoadChains, NewLive, ListOk, RingInv, CacheInv, FirstRecord;
    StaticsGrow(s.loads, m);
    forall t | t in Statics(s.loads + [m])
      ensures Nodes(t) <= Records(s.loads + [m]) && ListOk(t, Stage(s, m, 0))
    {
      if t in Statics(s.loads) {
        OldListFits(s, m, t);
      } else {
        NewListFits(s, m, t);
      }
    }
  }

  // ---------- linking a module into the ring ----------

  lemma OthersKnown(ring: seq<ModuleInfo>, n: CString)
    ensures Known(Others(ring), n) <==> Known(ring, n)
  {
    assert forall x :: x in ring <==> x in Others(ring);
  }

  lemma LiveByRing(s: Registry, n: CString)
    requires RingInv(s) && LiveInv(s)
    ensures n in s.live <==> Known(s.ring, n)
  {
    LoadsAreRing(s);
    assert Known(s.ring, n) <==> Known(s.loads, n);
  }

  /** Everything about a module still to be linked in: its own structures and the ring as it is. */
  ghost predicate Outside(s: Registry, m: ModuleInfo)
    requires |m.typeInitial| == |m.castInitial|
    reads m, s.ring, Statics(s.loads + [m]), Records(s.loads + [m]), RowNodes(m)
  {
    && |m.types| == |m.typeInitial| + 1 && RowsUnlinked(m, 0) && ListsOk(Stage(s, m, 0))
    && Circular(s.ring) && Holds(s.ring, Tables(s.live, s.ring))
  }

  /** The module gets the place right behind the head of the ring. */
  method LinkNext(head: ModuleInfo, m: ModuleInfo, ghost ring: seq<ModuleInfo>)
    requires ring != [] && ring[0] == head && m !in ring && Circular(ring)
    requires forall k :: 0 < k < |ring| ==> ring[k] != head
    modifies m`next, head`next
    ensures m.next != null && m.next != m && Segment(m.next, m, Others(ring))
  {
    ghost var others := Others(ring);
    assert NextIs(ring, 0, ring[0]);
    m.next := head.next;
    head.next := m;
    forall k | 0 <= k < |others|
      ensures NextIs(others, k, m) && others[k] != m
    {
      if k + 1 < |ring| {
        assert old(NextIs(ring, k + 1, ring[0]));
        assert others[k] == ring[k + 1];
      }
    }
  }

  /** The ring that this makes, and its tables. */
  method LinkBehind(head: ModuleInfo, m: ModuleInfo, ghost s: Registry)
    requires RingInv(s) && s.ring != [] && s.ring[0] == head && m !in s.ring
    requires Circular(s.ring) && Holds(s.ring, Tables(s.live, s.ring))
    modifies m`next, head`next
    ensures Circular(Splice(s.ring, m))
    ensures m.next != null && m.next != m && Segment(m.next, m, Others(s.ring))
    ensures Holds(Others(s.ring), Tables(s.live, Others(s.ring)))
  {
    forall k | 0 < k < |s.ring|
      ensures s.ring[k] != s.ring[0]
    {
      RingDistinct(s, 0, k);
    }
    OthersHold(s);
    LinkNext(head, m, s.ring);
    RingFromOthers(s.ring, m);
  }

  lemma OthersHold(s: Registry)
    requires s.ring != [] && Holds(s.ring, Tables(s.live, s.ring))
    ensures Holds(Others(s.ring), Tables(s.live, Others(s.ring)))
  {
    var ring, others := s.ring, Others(s.ring);
    forall k | 0 <= k < |others|
      ensures TableIs(others[k], Slots(s.live, others[k]))
    {
      var j := if k + 1 < |ring| then k + 1 else 0;
      assert others[k] == ring[j] && TableIs(ring[j], Tables(s.live, ring)[j]);
    }
  }

  /** What the search path from `m` says about the links of the whole ring. */
  lemma RingFromOthers(ring: seq<ModuleInfo>, m: ModuleInfo)
    requires m.next != null
    requires if ring == [] then m.next == m else Segment(m.next, m, Others(ring))
    ensures Circular(Splice(ring, m))
  {
    var all, seg := Splice(ring, m), Others(ring);
    forall k | 0 <= k < |all|
      ensures NextIs(all, k, all[0])
    {
      if ring != [] && k != 1 {
        var j := if k == 0 then |ring| - 1 else k - 2;
        assert seg[j] == all[k] && NextIs(seg, j, m);
      }
    }
  }

  /** `m` has its place in the ring and none of its slots is done. */
  ghost predicate Prepared(s: Registry, m: ModuleInfo)
    requires |m.typeInitial| == |m.castInitial|
    reads m, s.ring, Statics(s.loads + [m]), Records(s.loads + [m]), RowNodes(m)
  {
    && Circular(Splice(s.ring, m))
    && Filled(s, m, Others(s.ring), DataOf(Statics(s.loads + [m])), 0)
  }

  lemma PreparedFrom(s: Registry, m: ModuleInfo)
    requires Inv(s) && m !in s.ring && Loadable(s, m) && |m.types| == |m.typeInitial| + 1
    requires RowsUnlinked(m, 0) && ListsOk(Stage(s, m, 0))
    requires Circular(Splice(s.ring, m)) && m.next != null
    requires if s.ring == [] then m.next == m
             else
               && m.next != m && Segment(m.next, m, Others(s.ring))
               && Holds(Others(s.ring), Tables(s.live, Others(s.ring)))
    ensures Prepared(s, m)
  {
    forall n
      ensures n in s.live <==> Known(Others(s.ring), n)
    {
      LiveByRing(s, n);
      OthersKnown(s.ring, n);
    }
    assert m.types[..0] == Slots(NewLive(s.live, m, |m.typeInitial|), m)[..0];
  }

  /** A module outside the ring is linked to itself. */
  method LinkToSelf(m: ModuleInfo, ghost s: Registry)
    requires |m.typeInitial| == |m.castInitial| && m !in s.ring && Outside(s, m)
    modifies m`next
    ensures m.next == m && Outside(s, m)
  {
    m.next := m;
    assert forall k :: 0 <= k < |s.ring| ==> s.ring[k] != m;
  }

  /** The same, and neither the lists nor the module's rows change. */
  method LinkBehindKeeping(head: ModuleInfo, m: ModuleInfo, ghost s: Registry)
    requires RingInv(s) && s.ring != [] && s.ring[0] == head && m !in s.ring
    requires |m.typeInitial| == |m.castInitial| && Outside(s, m)
    modifies m`next, head`next
    ensures Circular(Splice(s.ring, m))
    ensures m.next != null && m.next != m && Segment(m.next, m, Others(s.ring))
    ensures Holds(Others(s.ring), Tables(s.live, Others(s.ring)))
    ensures RowsUnlinked(m, 0) && ListsOk(Stage(s, m, 0))
  {
    LinkBehind(head, m, s);
  }

  /** The first link of a module that was never loaded. */
  method LinkPristine(m: ModuleInfo, ghost head: ModuleInfo?, ghost s: Registry)
    requires InMemory(s, head) && m !in s.ring && Loadable(s, m) && Pristine(m)
    modifies m`next
    ensures m.next == m && Outside(s, m)
  {
    StageZero(s, m);
    LinkToSelf(m, s);
  }

  /** Puts `m`, which points at itself, behind the head of the ring, or leaves it the only module. */
  method LinkNew(head: ModuleInfo?, m: ModuleInfo, ghost s: Registry) returns (newHead: ModuleInfo)
    requires Inv(s) && m !in s.ring && Loadable(s, m) && Outside(s, m) && m.next == m
    requires head == if s.ring == [] then null else s.ring[0]
    modifies m`next, s.ring`next
    ensures Prepared(s, m) && newHead == Splice(s.ring, m)[0]
  {
    if head == null {
      newHead := m;
    } else {
      newHead := head;
      LinkBehindKeeping(head, m, s);
    }
    PreparedFrom(s, m);
  }

  /** The tables around the ring once `m`'s is filled. */
  lemma RingHolds(s: Registry, m: ModuleInfo)
    requires Inv(s) && m !in s.ring && Loadable(s, m)
    requires s.ring != [] ==> Holds(Others(s.ring), Tables(s.live, Others(s.ring)))
    requires TableIs(m, Slots(NewLive(s.live, m, |m.typeInitial|), m))
    ensures var r := Load(s, m); Holds(r.ring, Tables(r.live, r.ring))
  {
    var r := Load(s, m);
    LoadsAreRing(s);
    forall k | 0 <= k < |r.ring|
      ensures TableIs(r.ring[k], Slots(r.live, r.ring[k]))
    {
      if r.ring[k] != m {
        SlotsKept(s, m, r.ring[k]);
        var j := if k == 0 then |s.ring| - 1 else k - 2;
        assert Others(s.ring)[j] == r.ring[k];
        assert TableIs(Others(s.ring)[j], Tables(s.live, Others(s.ring))[j]);
      }
    }
  }

  /** The memory reached from `head`: a circular ring, filled tables, and the lists of `s`. */
  ghost predicate Holding(s: Registry, head: ModuleInfo?)
    reads s.ring, Statics(s.loads), Records(s.loads)
  {
    && head == (if s.ring == [] then null else s.ring[0])
    && Circular(s.ring) && Holds(s.ring, Tables(s.live, s.ring)) && ListsOk(View(s))
  }

  /** The registry `s` is what the memory reached from `head` holds. */
  ghost predicate InMemory(s: Registry, head: ModuleInfo?)
    reads s.ring, Statics(s.loads), Records(s.loads)
  {
    Inv(s) && Holding(s, head)
  }

  /** Filling the table leaves the ring links alone and completes the registry. */
  method Complete(head: ModuleInfo, m: ModuleInfo, ghost s: Registry)
    requires Inv(s) && m !in s.ring && Loadable(s, m) && RowsApart(m) && Prepared(s, m)
    requires head == Splice(s.ring, m)[0]
    modifies m`types
    modifies Records(s.loads + [m])`ty, Records(s.loads + [m])`next, Records(s.loads + [m])`prev
    modifies Records(s.loads + [m])`owner
    modifies SlotTypes(s, m)`cast, SlotTypes(s, m)`chain, SlotTypes(s, m)`sources, SlotTypes(s, m)`clientdata
    ensures InMemory(Load(s, m), head)
    ensures DataOf(Statics(s.loads + [m])) ==
              LoadData(NewLive(s.live, m, |m.typeInitial|), m, old(DataOf(Statics(s.loads + [m]))), |m.typeInitial|)
  {
    FillTable(m, s, Others(s.ring));
    RingHolds(s, m);
    RingFromOthers(s.ring, m);
    LoadKeepsInv(s, m);
  }

  lemma RingMember(s: Registry, m: ModuleInfo)
    requires RingInv(s) && Circular(s.ring)
    ensures m in s.ring ==> m.next != null && |m.typeInitial| == |m.castInitial|
  {
    LoadsAreRing(s);
    if k :| 0 <= k < |s.ring| && s.ring[k] == m {
      assert NextIs(s.ring, k, s.ring[0]);
      assert WellFormed(m);
    }
  }

  /** The part of `SWIG_InitializeModule` that finds `m` in the ring or links it in. */
  method LinkModule(head: ModuleInfo?, m: ModuleInfo, ghost s: Registry) returns (newHead: ModuleInfo, init: bool)
    requires InMemory(s, head) && (m in s.ring || (Loadable(s, m) && Pristine(m)))
    modifies m`next, s.ring`next
    ensures init <==> m !in s.ring
    ensures init ==> Loadable(s, m) && Prepared(s, m) && newHead == Splice(s.ring, m)[0]
    ensures !init ==> newHead == head && InMemory(s, head)
  {
    RingMember(s, m);
    init := false;
    if m.next == null {
      init := true;
      LinkPristine(m, head, s);
    }
    if head != null {
      var iter := head;
      ghost var k: nat := 0;
      while true
        invariant k < |s.ring| && iter == s.ring[k]
        invariant m !in s.ring[..k]
        decreases |s.ring| - k
      {
        if iter == m {
          newHead := head;
          return;
        }
        assert NextIs(s.ring, k, head);
        assert s.ring[..k + 1] == s.ring[..k] + [s.ring[k]];
        iter, k := iter.next, k + 1;
        if iter == head {
          break;
        }
      }
      assert s.ring[..k] == s.ring;
    }
    newHead := LinkNew(head, m, s);
  }

  /** `SWIG_InitializeModule`, on the ring that starts at `head`. */
  method Initialize(head: ModuleInfo?, m: ModuleInfo, ghost s: Registry) returns (newHead: ModuleInfo)
    requires InMemory(s, head) && (m in s.ring || (Loadable(s, m) && Pristine(m)))
    modifies m`next, m`types, s.ring`next
    modifies Records(s.loads + [m])`ty, Records(s.loads + [m])`next, Records(s.loads + [m])`prev
    modifies Records(s.loads + [m])`owner
    modifies SlotTypes(s, m)`cast, SlotTypes(s, m)`chain, SlotTypes(s, m)`sources, SlotTypes(s, m)`clientdata
    ensures |m.typeInitial| == |m.castInitial| && InMemory(Load(s, m), newHead)
    ensures m in s.ring ==> newHead == head && EdgesOf(Statics(s.loads + [m])) == old(EdgesOf(Statics(s.loads + [m])))
    ensures DataOf(Statics(s.loads + [m])) ==
              if m in s.ring then old(DataOf(Statics(s.loads + [m])))
              else
                LoadData(NewLive(s.live, m, |m.typeInitial|), m, old(DataOf(Statics(s.loads + [m]))),
                    |m.typeInitial|)
  {
    RingMember(s, m);
    var init;
    newHead, init := LinkModule(head, m, s);
    assert DataOf(Statics(s.loads + [m])) == old(DataOf(Statics(s.loads + [m]))) by {
      forall t | t in Statics(s.loads + [m])
        ensures t.clientdata == old(t.clientdata)
      {
      }
    }
    if !init {
      return;
    }
    Complete(newHead, m, s);
  }

  lemma PromotedInMemory(s: Registry, head: ModuleInfo?, n: CString, k: nat)
    requires n in s.chains && Inv(Promoted(s, n, k)) && head == if s.ring == [] then null else s.ring[0]
    requires Circular(s.ring) && Holds(s.ring, Tables(s.live, s.ring)) && ListsOk(Moved(View(s), n, k))
    ensures InMemory(Promoted(s, n, k), head)
  {
    assert View(Promoted(s, n, k)) == Moved(View(s), n, k);
  }

  /** `SWIG_TypeCheck` on a shared descriptor; the ring and its tables stay as they are. */
  method CheckKeepingRing(c: CString, ty: TypeInfo, ghost s: Registry, ghost v: Lists) returns (r: CastInfo?)
    requires ListsOk(v) && ty in v.types && Circular(s.ring) && Holds(s.ring, Tables(s.live, s.ring))
    requires ty.name in v.shared && v.shared[ty.name] == ty && ty.name in v.chains
    modifies ty`cast, ty`chain, ty`sources, Nodes(ty)`next, Nodes(ty)`prev
    ensures ListsOk(Moved(v, ty.name, IndexOf(v.chains[ty.name], c)))
    ensures EdgesOf(v.types) == old(EdgesOf(v.types)) && DataOf(v.types) == old(DataOf(v.types))
    ensures Circular(s.ring) && Holds(s.ring, Tables(s.live, s.ring))
    ensures r == null <==> IndexOf(v.chains[ty.name], c) == |v.chains[ty.name]|
    ensures r != null ==> r.ty == v.chains[ty.name][IndexOf(v.chains[ty.name], c)] && r.ty.name == c && ty.cast == r
    ensures r != null ==> RecordOf(v.loads, r, c, ty.name)
  {
    hide ListsOk, Moved, Circular, Holds;
    r := CheckShared(c, ty, v);
  }

  /** A lookup by name moves one node of one list and leaves the rest of the registry in place. */
  method CheckCast(c: CString, ty: TypeInfo, ghost head: ModuleInfo?, ghost s: Registry) returns (r: CastInfo?)
    requires InMemory(s, head) && ty.name in s.live && s.live[ty.name] == ty
    modifies ty`cast, ty`chain, ty`sources, Nodes(ty)`next, Nodes(ty)`prev
    ensures ty.name in s.chains && InMemory(Promoted(s, ty.name, IndexOf(s.chains[ty.name], c)), head)
    ensures EdgesOf(Statics(s.loads)) == old(EdgesOf(Statics(s.loads)))
    ensures DataOf(Statics(s.loads)) == old(DataOf(Statics(s.loads)))
    ensures r == null <==> IndexOf(s.chains[ty.name], c) == |s.chains[ty.name]|
    ensures r != null ==> r.ty == s.chains[ty.name][IndexOf(s.chains[ty.name], c)] && r.ty.name == c && ty.cast == r
    ensures r != null ==> RecordOf(s.loads, r, c, ty.name)
  {
    PromotedKeepsInv(s, ty.name, IndexOf(s.chains[ty.name], c));
    assert InStatics(s.loads, ty);
    r := CheckKeepingRing(c, ty, s, View(s));
    PromotedInMemory(s, head, ty.name, IndexOf(s.chains[ty.name], c));
  }

  /** The same for the lookup by descriptor. */
  method CheckStructKeepingRing(from: TypeInfo, ty: TypeInfo, ghost s: Registry, ghost v: Lists) returns (r: CastInfo?)
    requires ListsOk(v) && ty in v.types && Circular(s.ring) && Holds(s.ring, Tables(s.live, s.ring))
    requires ty.name in v.shared && v.shared[ty.name] == ty && ty.name in v.chains
    modifies ty`cast, ty`chain, ty`sources, Nodes(ty)`next, Nodes(ty)`prev
    ensures ListsOk(Moved(v, ty.name, IndexOfStruct(v.chains[ty.name], from)))
    ensures EdgesOf(v.types) == old(EdgesOf(v.types)) && DataOf(v.types) == old(DataOf(v.types))
    ensures Circular(s.ring) && Holds(s.ring, Tables(s.live, s.ring))
    ensures r == null <==> IndexOfStruct(v.chains[ty.name], from) == |v.chains[ty.name]|
    ensures r != null ==> r.ty == v.chains[ty.name][IndexOfStruct(v.chains[ty.name], from)] == from && ty.cast == r
    ensures r != null ==> RecordOf(v.loads, r, from.name, ty.name)
  {
    hide ListsOk, Moved, Circular, Holds;
    r := CheckStructShared(from, ty, v);
  }

  /** A lookup by descriptor moves one node of one list and leaves the rest of the registry in place. */
  method CheckStructCast(from: TypeInfo, ty: TypeInfo, ghost head: ModuleInfo?, ghost s: Registry)
    returns (r: CastInfo?)
    requires InMemory(s, head) && ty.name in s.live && s.live[ty.name] == ty
    modifies ty`cast, ty`chain, ty`sources, Nodes(ty)`next, Nodes(ty)`prev
    ensures ty.name in s.chains && InMemory(Promoted(s, ty.name, IndexOfStruct(s.chains[ty.name], from)), head)
    ensures EdgesOf(Statics(s.loads)) == old(EdgesOf(Statics(s.loads)))
    ensures DataOf(Statics(s.loads)) == old(DataOf(Statics(s.loads)))
    ensures r == null <==> IndexOfStruct(s.chains[ty.name], from) == |s.chains[ty.name]|
    ensures r != null ==> r.ty == s.chains[ty.name][IndexOfStruct(s.chains[ty.name], from)] == from && ty.cast == r
    ensures r != null ==> RecordOf(s.loads, r, from.name, ty.name)
  {
    PromotedKeepsInv(s, ty.name, IndexOfStruct(s.chains[ty.name], from));
    assert InStatics(s.loads, ty);
    r := CheckStructKeepingRing(from, ty, s, View(s));
    PromotedInMemory(s, head, ty.name, IndexOfStruct(s.chains[ty.name], from));
  }

  lemma AfterStep(ops: seq<Op>, op: Op)
    requires IsRun(ops) && Allowed(After(ops), op)
    ensures IsRun(ops + [op]) && After(ops + [op]) == Apply(After(ops), op)
  {
    assert (ops + [op])[..|ops|] == ops;
  }

  lemma WholeRing(s: Registry)
    requires RingInv(s) && s.ring != [] && Circular(s.ring)
    ensures Segment(s.ring[0], s.ring[0], s.ring)
  {
    forall k | 0 < k < |s.ring|
      ensures s.ring[k] != s.ring[0]
    {
      RingDistinct(s, 0, k);
    }
  }

  /** The descriptors of a registry in memory form a graph with well-formed lists. */
  lemma RegistryGraph(s: Registry, head: ModuleInfo?)
    requires InMemory(s, head)
    ensures GraphOk(EdgesOf(Statics(s.loads)), Records(s.loads))
  {
    forall t | t in Statics(s.loads)
      ensures Nodes(t) <= Records(s.loads) && NodeOk(EdgesOf(Statics(s.loads)), t)
    {
      assert ListOk(t, View(s));
      forall x | x in t.sources
        ensures x in Statics(s.loads)
      {
        assert ChainInv(s, t.name);
        assert TargetInv(s, t.name, x);
      }
    }
  }

  /** A graph that is in order after its client data changed still holds the same lists. */
  lemma GraphHolds(v: Lists, edges: Graph)
    requires edges.Keys == v.types && GraphOk(edges, v.nodes) && ListsAre(v)
    ensures ListsOk(v)
  {
    forall t | t in v.types
      ensures Nodes(t) <= v.nodes && ListOk(t, v)
    {
      assert NodeOk(edges, t);
    }
  }

  /** Every list is the one the registry asks for. */
  ghost predicate ListsAre(v: Lists)
    reads v.types`sources, v.types`chain
  {
    forall t | t in v.types :: t.sources == Expected(v, t) && FromFirst(Nodes(t), v.loads, t.name)
  }

  /** Spreading client data leaves the ring, the tables and the lists as they are. */
  method SpreadKeepingRing(ty: TypeInfo, clientdata: nat, ghost depth: nat, ghost edges: Graph, ghost v: Lists,
          ghost ring: seq<ModuleInfo>, ghost tables: seq<seq<TypeInfo>>)
    requires GraphOk(edges, v.nodes) && edges.Keys == v.types && ty in v.types
    requires clientdata == 0 ==> EndsIn(edges, Unset(DataOf(v.types)) + {ty}, ty, depth)
    requires ListsAre(v) && Circular(ring) && Holds(ring, tables)
    modifies v.types`clientdata
    ensures GraphOk(edges, v.nodes) && ListsAre(v) && Circular(ring) && Holds(ring, tables)
    ensures DataOf(v.types) == Spread(edges, old(DataOf(v.types)), ty, clientdata)
  {
    TypeClientData(ty, clientdata, edges, v.nodes, depth);
  }

  lemma ListsToAre(v: Lists)
    requires ListsOk(v)
    ensures ListsAre(v)
  {
    assert forall t | t in v.types :: ListOk(t, v);
  }

  lemma HoldsAgain(s: Registry, head: ModuleInfo?, edges: Graph)
    requires Inv(s) && head == (if s.ring == [] then null else s.ring[0])
    requires Circular(s.ring) && Holds(s.ring, Tables(s.live, s.ring))
    requires edges.Keys == Statics(s.loads) && GraphOk(edges, Records(s.loads)) && ListsAre(View(s))
    ensures InMemory(s, head)
  {
    GraphHolds(View(s), edges);
  }

  lemma CallDepth(edges: Graph, unset: set<TypeInfo>, ty: TypeInfo, clientdata: nat) returns (depth: nat)
    requires clientdata == 0 ==> NoCycleAhead(edges, unset, ty)
    ensures clientdata == 0 ==> EndsIn(edges, unset, ty, depth)
  {
    depth := 0;
    if clientdata == 0 {
      EndsIff(edges, unset, ty);
      depth :| EndsIn(edges, unset, ty, depth);
    }
  }

  /** `SWIG_TypeClientData` on a descriptor of the registry. */
  method SpreadClientData(ty: TypeInfo, clientdata: nat, ghost head: ModuleInfo?, ghost s: Registry, ghost edges: Graph)
    requires InMemory(s, head) && ty in Statics(s.loads) && edges == EdgesOf(Statics(s.loads))
    requires clientdata == 0 ==> NoCycleAhead(edges, Unset(DataOf(Statics(s.loads))) + {ty}, ty)
    modifies Statics(s.loads)`clientdata
    ensures InMemory(s, head)
    ensures DataOf(Statics(s.loads)) == Spread(edges, old(DataOf(Statics(s.loads))), ty, clientdata)
  {
    RegistryGraph(s, head);
    ListsToAre(View(s));
    ghost var depth := CallDepth(edges, Unset(DataOf(Statics(s.loads))) + {ty}, ty, clientdata);
    SpreadKeepingRing(ty, clientdata, depth, edges, View(s), s.ring, Tables(s.live, s.ring));
    HoldsAgain(s, head, edges);
  }

  /** Propagating client data leaves the ring, the tables and the lists as they are. */
  method PropagateKeepingRing(m: ModuleInfo, ghost slots: seq<TypeInfo>, ghost edges: Graph, ghost v: Lists,
          ghost ring: seq<ModuleInfo>, ghost tables: seq<seq<TypeInfo>>)
    requires GraphOk(edges, v.nodes) && edges.Keys == v.types && TableIs(m, slots)
    requires forall x :: x in slots ==> x in edges
    requires ListsAre(v) && Circular(ring) && Holds(ring, tables)
    modifies m`propagated, v.types`clientdata
    ensures GraphOk(edges, v.nodes) && ListsAre(v) && Circular(ring) && Holds(ring, tables) && m.propagated
    ensures if old(m.propagated) then DataOf(v.types) == old(DataOf(v.types))
            else Propagated(edges, slots, old(DataOf(v.types)), DataOf(v.types))
  {
    ClientData.PropagateClientData(m, slots, edges, v.nodes);
  }

  lemma SlotsAreStatic(s: Registry, m: ModuleInfo)
    requires Inv(s) && m in s.ring && Holds(s.ring, Tables(s.live, s.ring))
    ensures TableIs(m, Slots(s.live, m)) && forall x :: x in Slots(s.live, m) ==> x in Statics(s.loads)
  {
    LoadsAreRing(s);
    var k :| 0 <= k < |s.ring| && s.ring[k] == m;
    assert TableIs(s.ring[k], Tables(s.live, s.ring)[k]);
    forall i | 0 <= i < |m.typeInitial|
      ensures Slots(s.live, m)[i] in Statics(s.loads)
    {
      assert Has(m, m.typeInitial[i].name);
      assert InStatics(s.loads, s.live[m.typeInitial[i].name]);
    }
  }

  /** `SWIG_PropagateClientData` of a loaded module. */
  method PropagateModule(m: ModuleInfo, ghost head: ModuleInfo?, ghost s: Registry, ghost edges: Graph)
    requires InMemory(s, head) && m in s.ring && edges == EdgesOf(Statics(s.loads))
    modifies m`propagated, Statics(s.loads)`clientdata
    ensures InMemory(s, head)
    ensures if old(m.propagated) then DataOf(Statics(s.loads)) == old(DataOf(Statics(s.loads)))
            else Propagated(edges, Slots(s.live, m), old(DataOf(Statics(s.loads))), DataOf(Statics(s.loads)))
  {
    RegistryGraph(s, head);
    ListsToAre(View(s));
    SlotsAreStatic(s, m);
    PropagateKeepingRing(m, Slots(s.live, m), edges, View(s), s.ring, Tables(s.live, s.ring));
    HoldsAgain(s, head, edges);
  }

  /** What a slot of a loaded module holds. */
  lemma SlotHolds(s: Registry, head: ModuleInfo?, m: ModuleInfo, i: nat)
    requires InMemory(s, head) && m in s.ring && i < |m.typeInitial|
    ensures TableIs(m, Slots(s.live, m))
    ensures var n := m.typeInitial[i].name;
            i < |m.types| && n in s.live && m.types[i] == s.live[n] && s.live[n].name == n
  {
    SlotsAreStatic(s, m);
    LoadsAreRing(s);
    assert Has(m, m.typeInitial[i].name);
  }

  /**
   * Canonical descriptors: two slots anywhere in the ring with the same mangled name hold the same
   * object, a slot keeps the name of its initial entry, and every table stays sorted.
   */
  lemma CanonicalSlots(s: Registry, head: ModuleInfo?, m: ModuleInfo, i: nat, m': ModuleInfo, j: nat)
    requires InMemory(s, head) && m in s.ring && m' in s.ring && i < |m.typeInitial| && j < |m'.typeInitial|
    ensures i < |m.types| && j < |m'.types| && m.types[i] != null && m.types[i].name == m.typeInitial[i].name
    ensures m.types[i] == m'.types[j] <==> m.typeInitial[i].name == m'.typeInitial[j].name
    ensures Sorted(Slots(s.live, m)) && m.types == Slots(s.live, m) + [null]
  {
    hide InMemory, Slots, Sorted;
    SlotHolds(s, head, m, i);
    SlotHolds(s, head, m', j);
  }

  /** One interpreter, with the steps it has taken so far. */
  class Interpreter {
    var head: ModuleInfo?
    var cache: map<CString, TypeInfo>
    ghost var history: seq<Op>

    /** What the steps taken so far make of the registry. */
    ghost function Model(): Registry
      reads this`history
    {
      After(history)
    }

    ghost predicate Valid()
      reads this, Model().ring, Statics(Model().loads), Records(Model().loads)
    {
      IsRun(history) && InMemory(Model(), head) && cache == Model().cache
    }

    constructor ()
      ensures Valid() && history == []
    {
      head, cache := null, map[];
      history := [];
    }

    lemma RunInMemory()
      requires Valid()
      ensures IsRun(history) && InMemory(Model(), head)
    {
    }

    /** Takes note of a step whose effect on memory is complete. */
    method Record(newHead: ModuleInfo?, newCache: map<CString, TypeInfo>, ghost ops: seq<Op>, ghost s: Registry,
            ghost types: set<TypeInfo>, ghost cast: CastInfo?)
      requires IsRun(ops) && After(ops) == s && InMemory(s, newHead) && newCache == s.cache
      modifies `head, `cache, `history
      ensures cast != null ==> cast.ty == old(cast.ty)
      ensures Valid() && history == ops && DataOf(types) == old(DataOf(types)) && EdgesOf(types) == old(EdgesOf(types))
    {
      SetFields(newHead, newCache, ops, s, types);
    }

    method SetFields(newHead: ModuleInfo?, newCache: map<CString, TypeInfo>, ghost ops: seq<Op>,
            ghost s: Registry, ghost types: set<TypeInfo>)
      requires Holding(s, newHead)
      modifies `head, `cache, `history
      ensures Holding(s, newHead) && head == newHead && cache == newCache && history == ops
      ensures DataOf(types) == old(DataOf(types)) && EdgesOf(types) == old(EdgesOf(types))
    {
      head, cache := newHead, newCache;
      history := ops;
    }

    /** `SWIG_InitializeModule`: a module in the ring is left alone, another one is added to it. */
    method InitializeModule(m: ModuleInfo, ghost s: Registry)
      requires Valid() && s == Model() && Allowed(s, LoadOp(m)) && (m in s.ring || Pristine(m))
      modifies `head, `cache, `history, m`next, m`types, s.ring`next
      modifies Records(s.loads + [m])`ty, Records(s.loads + [m])`next, Records(s.loads + [m])`prev
      modifies Records(s.loads + [m])`owner
      modifies SlotTypes(s, m)`cast, SlotTypes(s, m)`chain, SlotTypes(s, m)`sources, SlotTypes(s, m)`clientdata
      ensures Valid() && history == old(history) + [LoadOp(m)]
      ensures DataOf(Statics(s.loads + [m])) ==
                if m in s.ring then old(DataOf(Statics(s.loads + [m])))
                else
                  LoadData(NewLive(s.live, m, |m.typeInitial|), m, old(DataOf(Statics(s.loads + [m]))),
                      |m.typeInitial|)
      ensures m in s.ring ==> EdgesOf(Statics(s.loads + [m])) == old(EdgesOf(Statics(s.loads + [m])))
    {
      AfterStep(history, LoadOp(m));
      var newHead := Initialize(head, m, s);
      Record(newHead, cache, history + [LoadOp(m)], Load(s, m), Statics(s.loads + [m]), null);
    }

    /**
     * `SWIG_TypeCheck`: finds a cast exactly when some loaded module declared it, and then the record,
     * with its converter, of the first module that did.
     */
    method TypeCheck(c: CString, ty: TypeInfo, ghost s: Registry) returns (r: CastInfo?)
      requires Valid() && s == Model() && ty.name in s.live && s.live[ty.name] == ty
      modifies `head, `cache, `history, ty`cast, ty`chain, ty`sources, Nodes(ty)`next, Nodes(ty)`prev
      ensures Valid() && history == old(history) + [CheckOp(c, ty.name)]
      ensures r != null <==> DeclaredBy(old(history), c, ty.name)
      ensures r != null ==> r.ty.name == c && ty.cast == r && RecordOf(s.loads, r, c, ty.name)
      ensures EdgesOf(Statics(s.loads)) == old(EdgesOf(Statics(s.loads)))
      ensures DataOf(Statics(s.loads)) == old(DataOf(Statics(s.loads)))
    {
      hide After, Holding, DeclaredBy, RingInv, LiveInv, ChainsInv, CacheInv;
      RunKeepsInv(history);
      CastableIffDeclared(history, c, ty.name);
      AfterStep(history, CheckOp(c, ty.name));
      r := CheckCast(c, ty, head, s);
      Record(head, cache, history + [CheckOp(c, ty.name)], Apply(s, CheckOp(c, ty.name)), Statics(s.loads), r);
    }

    /** `SWIG_TypeCheckStruct`: finds a descriptor exactly when it is the source of a declared cast. */
    method TypeCheckStruct(from: TypeInfo, ty: TypeInfo, ghost s: Registry) returns (r: CastInfo?)
      requires Valid() && s == Model() && ty.name in s.live && s.live[ty.name] == ty
      modifies `head, `cache, `history, ty`cast, ty`chain, ty`sources, Nodes(ty)`next, Nodes(ty)`prev
      ensures Valid() && history == old(history) + [StructOp(from, ty.name)]
      ensures r != null <==> IsSource(old(history), from, ty.name)
      ensures r != null ==> r.ty == from && ty.cast == r && RecordOf(s.loads, r, from.name, ty.name)
      ensures EdgesOf(Statics(s.loads)) == old(EdgesOf(Statics(s.loads)))
      ensures DataOf(Statics(s.loads)) == old(DataOf(Statics(s.loads)))
    {
      hide After, Holding, IsSource, RingInv, LiveInv, ChainsInv, CacheInv;
      RunKeepsInv(history);
      EachHasList(s);
      StructLookupIff(history, from, ty.name);
      AfterStep(history, StructOp(from, ty.name));
      r := CheckStructCast(from, ty, head, s);
      ghost var op := StructOp(from, ty.name);
      Record(head, cache, history + [op], Apply(s, op), Statics(s.loads), r);
    }

    /** `SWIG_TypeClientData`: marks what the descriptor reaches and nothing else in the registry. */
    method TypeClientData(ty: TypeInfo, clientdata: nat, ghost edges: Graph)
      requires Valid() && ty in Statics(Model().loads) && edges == EdgesOf(Statics(Model().loads))
      requires clientdata == 0 ==> NoCycleAhead(edges, Unset(DataOf(Statics(Model().loads))) + {ty}, ty)
      modifies Statics(Model().loads)`clientdata
      ensures Valid() && history == old(history)
      ensures DataOf(Statics(Model().loads)) == Spread(edges, old(DataOf(Statics(Model().loads))), ty, clientdata)
    {
      SpreadClientData(ty, clientdata, head, Model(), edges);
    }

    /** `SWIG_PropagateClientData`. */
    method PropagateClientData(m: ModuleInfo, ghost edges: Graph)
      requires Valid() && m in Model().ring && edges == EdgesOf(Statics(Model().loads))
      modifies m`propagated, Statics(Model().loads)`clientdata
      ensures Valid() && history == old(history)
      ensures if old(m.propagated) then DataOf(Statics(Model().loads)) == old(DataOf(Statics(Model().loads)))
              else
                Propagated(edges, Slots(Model().live, m), old(DataOf(Statics(Model().loads))),
                    DataOf(Statics(Model().loads)))
    {
      PropagateModule(m, head, Model(), edges);
    }

    /** `SWIG_Python_TypeQuery`: the cached answer, or a fresh search whose hit is cached. */
    method TypeQuery(name: CString) returns (descriptor: TypeInfo?, overrun: bool)
      requires Valid() && head != null
      modifies `head, `cache, `history
      ensures Valid() && history == if overrun then old(history) else old(history) + [QueryOp(name)]
      ensures overrun <==> name !in old(cache) && SearchOverruns(Tables(old(Model()).live, old(Model()).ring), name)
      ensures descriptor == if name in old(cache) then old(cache)[name] else Search(old(Model()), name)
    {
      ghost var s := Model();
      var newCache := cache;
      overrun := false;
      if name in cache {
        descriptor := cache[name];
      } else {
        descriptor, overrun := FreshQuery(head, name, s);
        if overrun {
          return;
        }
        if descriptor != null {
          newCache := cache[name := descriptor];
        }
      }
      AfterStep(history, QueryOp(name));
      QueryInMemory(s, head, name);
      Record(head, newCache, history + [QueryOp(name)], Query(s, name), {}, null);
    }
  }

  /** `SWIG_TypeQueryModule` all the way around the ring. */
  method FreshQuery(head: ModuleInfo, name: CString, ghost s: Registry) returns (descriptor: TypeInfo?, overrun: bool)
    requires InMemory(s, head)
    ensures descriptor == Search(s, name)
    ensures overrun <==> SearchOverruns(Tables(s.live, s.ring), name)
    ensures InMemory(s, head)
  {
    WholeRing(s);
    descriptor, overrun := TypeQueryModule(head, head, name, s.ring, Tables(s.live, s.ring));
  }

  lemma QueryInMemory(s: Registry, head: ModuleInfo?, name: CString)
    requires InMemory(s, head)
    ensures InMemory(Query(s, name), head)
  {
    QueryKeepsInv(s, name);
    assert View(Query(s, name)) == View(s);
  }
}
