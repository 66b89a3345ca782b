/** Loading a module into the registry, in memory: `SWIG_InitializeModule`. */
module Loader {
  import opened CStrings
  import opened CastLists
  import opened Registry
  import opened Queries
  import opened RegistryRuns

  // ---------- looking a name up in the modules loaded before ----------

  /** The ring from `m.next` to `m` passes through `seg`, whose tables hold the descriptors `live`. */
  ghost predicate Ready(m: ModuleInfo, live: map<CString, TypeInfo>, seg: seq<ModuleInfo>)
    reads m`next, seg`next, seg`types
  {
    && Consistent(live)
    && (forall n :: n in live <==> Known(seg, n))
    && m.next != null
    && (if m.next == m then seg == [] else Segment(m.next, m, seg) && Holds(seg, Tables(live, seg)))
  }

  method LookUpLoaded(m: ModuleInfo, name: CString, ghost live: map<CString, TypeInfo>, ghost seg: seq<ModuleInfo>)
    returns (ret: TypeInfo?)
    requires Ready(m, live, seg)
    ensures ret == if name in live then live[name] else null
  {
    ret := null;
    if m.next != m {
      ret := MangledTypeQueryModule(m.next, m, name, seg, Tables(live, seg));
      FindMangledIsLive(live, seg, name);
    }
  }

  // ---------- one row of cast records ----------

  ghost predicate Unlinked(cast: CastInfo)
    reads cast
  {
    cast.owner == null && cast.next == null && cast.prev == null && cast.ty == cast.declared
  }

  lemma TouchCases(chain: seq<TypeInfo>, x: TypeInfo)
    ensures !Castable(chain, x.name) ==> Touch(chain, x) == [x] + chain
    ensures IndexOf(chain, x.name) < |chain| ==> Touch(chain, x) == MoveToFront(chain, IndexOf(chain, x.name))
    ensures IndexOf(chain, x.name) == |chain| <==> !Castable(chain, x.name)
  {
    LookupIffCastable(chain, x.name);
  }

  lemma UnlinkedOutside(cast: CastInfo, ty: TypeInfo)
    requires ListValid(ty) && cast.owner == null
    ensures cast !in Nodes(ty)
  {
    forall i | 0 <= i < |ty.chain|
      ensures ty.chain[i] != cast
    {
      assert Linked(ty, i);
    }
  }

  /** The first `k` records of a row whose sources a list does not have: those that are linked in. */
  ghost function Missing(base: seq<TypeInfo>, row: seq<CastInfo>, k: nat): (missing: set<CastInfo>)
    requires k <= |row|
    ensures k == 0 ==> missing == {}
    ensures forall c :: c in missing ==> c in row
  {
    set i | 0 <= i < k && !Castable(base, row[i].declared.name) :: row[i]
  }

  /** Links a record in unless its cast is there; `found` is the loaded descriptor of its source. */
  method LinkRecord(cast: CastInfo, ty: TypeInfo, own: TypeInfo, found: TypeInfo?)
    requires ListValid(ty) && Unlinked(cast)
    requires found != null ==> found.name == cast.declared.name
    requires ty == own || found == null ==> !Castable(ty.sources, cast.declared.name)
    modifies ty`cast, ty`chain, ty`sources, Nodes(ty)`next, Nodes(ty)`prev
    modifies cast`ty, cast`next, cast`prev, cast`owner
    ensures ListValid(ty)
    ensures ty.sources == Touch(old(ty.sources), if ty == own && found != null then found else cast.declared)
    ensures Nodes(ty) == old(Nodes(ty)) + Missing(old(ty.sources), [cast], 1)
  {
    var ret := found;
    ghost var chain, sources := ty.chain, ty.sources;
    UnlinkedOutside(cast, ty);
    TouchCases(ty.sources, if ty == own && ret != null then ret else cast.declared);
    if ret != null {
      if ty == own {
        Redirect(cast, ret, ty);
        ret := null;
      } else {
        var ocast := TypeCheck(ret.name, ty);
        if ocast == null {
          ret := null;
        } else {
          MoveToFrontMembers(chain, IndexOf(sources, ret.name));
        }
      }
    }
    if ret == null {
      InsertCast(cast, ty);
    }
  }

  /** A record that is in no list yet gets the loaded descriptor of its source. */
  method Redirect(cast: CastInfo, ret: TypeInfo, ghost ty: TypeInfo)
    requires ListValid(ty) && Unlinked(cast)
    modifies cast`ty
    ensures cast.ty == ret && ListValid(ty)
  {
    UnlinkedOutside(cast, ty);
    cast.ty := ret;
    assert forall i :: 0 <= i < |ty.chain| ==> old(Linked(ty, i)) ==> Linked(ty, i);
  }

  /** What the loader does with one record of a row for `ty`. */
  method AddRecord(m: ModuleInfo, cast: CastInfo, ty: TypeInfo, own: TypeInfo,
          ghost live: map<CString, TypeInfo>, ghost seg: seq<ModuleInfo>)
    requires Ready(m, live, seg) && ListValid(ty) && Unlinked(cast)
    requires ty == own <==> ty.name !in live
    requires ty == own || cast.declared.name !in live ==> !Castable(ty.sources, cast.declared.name)
    modifies ty`cast, ty`chain, ty`sources, Nodes(ty)`next, Nodes(ty)`prev
    modifies cast`ty, cast`next, cast`prev, cast`owner
    ensures Ready(m, live, seg) && ListValid(ty)
    ensures ty.sources == Touch(old(ty.sources), Target(live, ty.name, cast.declared))
    ensures Nodes(ty) == old(Nodes(ty)) + Missing(old(ty.sources), [cast], 1)
  {
    hide ListValid, Known;
    var ret := LookUpLoaded(m, cast.ty.name, live, seg);
    LinkRecord(cast, ty, own, ret);
    assert Ready(m, live, seg) by {
      assert unchanged(m) && forall x | x in seg :: unchanged(x);
    }
  }

  ghost function SetOf(row: seq<CastInfo>): set<CastInfo> {
    set c | c in row
  }

  ghost predicate RowUnlinked(row: seq<CastInfo>, from: nat)
    reads SetOf(row)
  {
    forall j :: from <= j < |row| ==> Unlinked(row[j])
  }

  /** What holds before a row is read: `base` is the list so far, empty for a new type `t`. */
  ghost predicate RowReady(row: seq<CastInfo>, t: CString, base: seq<TypeInfo>, live: map<CString, TypeInfo>) {
    && Consistent(live)
    && (forall j, k :: 0 <= j < k < |row| ==> row[j].declared.name != row[k].declared.name)
    && NoDuplicates(base)
    && (t !in live ==> base == [])
    && (forall c :: Castable(base, c) ==> c in live)
  }

  /** The next record's source is not in the list unless it and the type were loaded before. */
  lemma NextRecordMissing(live: map<CString, TypeInfo>, t: CString, base: seq<TypeInfo>, row: seq<CastInfo>, j: nat)
    requires RowReady(row, t, base, live) && j < |row|
    ensures t !in live || row[j].declared.name !in live ==>
              !Castable(TouchRow(live, t, base, row, j), row[j].declared.name)
    ensures forall k :: j < k < |row| ==> row[j] != row[k]
  {
    TouchRowNames(live, t, base, row, j);
  }

  lemma MissingOneMore(live: map<CString, TypeInfo>, t: CString, base: seq<TypeInfo>, row: seq<CastInfo>, j: nat)
    requires RowReady(row, t, base, live) && j < |row|
    ensures Missing(base, row, j + 1) == Missing(base, row, j) + Missing(TouchRow(live, t, base, row, j), [row[j]], 1)
  {
    hide TouchRow;
    TouchRowNames(live, t, base, row, j);
    forall k | 0 <= k < j
      ensures row[..j][k].declared.name != row[j].declared.name
    {
      assert row[..j][k] == row[k];
    }
    assert !InRow(row[..j], row[j].declared.name);
    assert [row[j]][0] == row[j];
  }

  /** What the loader does with record `j` of a row for `ty`; the records after it stay unlinked. */
  method AddNth(m: ModuleInfo, row: seq<CastInfo>, j: nat, ty: TypeInfo, own: TypeInfo,
          ghost live: map<CString, TypeInfo>, ghost seg: seq<ModuleInfo>)
    requires Ready(m, live, seg) && ListValid(ty) && j < |row| && RowUnlinked(row, j)
    requires forall k :: j < k < |row| ==> row[j] != row[k]
    requires ty == own <==> ty.name !in live
    requires ty == own || row[j].declared.name !in live ==> !Castable(ty.sources, row[j].declared.name)
    modifies ty`cast, ty`chain, ty`sources, Nodes(ty)`next, Nodes(ty)`prev
    modifies {row[j]}`ty, {row[j]}`next, {row[j]}`prev, {row[j]}`owner
    ensures Ready(m, live, seg) && ListValid(ty) && RowUnlinked(row, j + 1)
    ensures ty.sources == Touch(old(ty.sources), Target(live, ty.name, row[j].declared))
    ensures Nodes(ty) == old(Nodes(ty)) + Missing(old(ty.sources), [row[j]], 1)
  {
    forall l | j <= l < |row|
      ensures row[l] !in Nodes(ty)
    {
      UnlinkedOutside(row[l], ty);
    }
    AddRecord(m, row[j], ty, own, live, seg);
  }

  /** The loop over one row of cast records. */
  method AddRow(m: ModuleInfo, row: seq<CastInfo>, ty: TypeInfo, own: TypeInfo,
          ghost live: map<CString, TypeInfo>, ghost seg: seq<ModuleInfo>)
    requires Ready(m, live, seg) && ListValid(ty) && RowUnlinked(row, 0)
    requires RowReady(row, ty.name, ty.sources, live) && (ty == own <==> ty.name !in live)
    modifies ty`cast, ty`chain, ty`sources, Nodes(ty)`next, Nodes(ty)`prev
    modifies SetOf(row)`ty, SetOf(row)`next, SetOf(row)`prev, SetOf(row)`owner
    ensures Ready(m, live, seg) && ListValid(ty)
    ensures ty.sources == TouchRow(live, ty.name, old(ty.sources), row, |row|)
    ensures Nodes(ty) == old(Nodes(ty)) + Missing(old(ty.sources), row, |row|)
  {
    hide Ready, ListValid, RowReady, RowUnlinked, Castable, Missing, Touch, Target;
    ghost var base := ty.sources;
    for j := 0 to |row|
      invariant Ready(m, live, seg) && ListValid(ty) && RowUnlinked(row, j)
      invariant ty.sources == TouchRow(live, ty.name, base, row, j)
      invariant Nodes(ty) == old(Nodes(ty)) + Missing(base, row, j)
    {
      NextRecordMissing(live, ty.name, base, row, j);
      assert row[j] in SetOf(row);
      MissingOneMore(live, ty.name, base, row, j);
      AddNth(m, row, j, ty, own, live, seg);
    }
  }

  // ---------- all lists together ----------

  /** The static descriptors of the loaded modules. */
  ghost function Statics(loads: seq<ModuleInfo>): set<TypeInfo> {
    set m, t | m in loads && t in m.typeInitial :: t
  }

  ghost function RowNodes(m: ModuleInfo): set<CastInfo> {
    set row, c | row in m.castInitial && c in row :: c
  }

  /** The static cast records of the loaded modules. */
  ghost function Records(loads: seq<ModuleInfo>): set<CastInfo> {
    set m, c | m in loads && c in RowNodes(m) :: c
  }

  /** What the lists of `types` should be, and the records they are made of. */
  datatype Lists = Lists(types: set<TypeInfo>, nodes: set<CastInfo>,
                         shared: map<CString, TypeInfo>, chains: map<CString, seq<TypeInfo>>,
                         loads: seq<ModuleInfo>)

  /** Every record in the list of `t` is the one with which its cast was first declared. */
  ghost predicate FromFirst(nodes: set<CastInfo>, loads: seq<ModuleInfo>, t: CString) {
    forall r :: r in nodes ==> FirstRecord(loads, r, t)
  }

  /** A shared descriptor has the list of its name, a superseded one has none. */
  ghost function Expected(v: Lists, t: TypeInfo): seq<TypeInfo> {
    if t.name in v.shared && v.shared[t.name] == t then ChainOf(v.chains, t.name) else []
  }

  lemma FirstIn(nodes: set<CastInfo>, loads: seq<ModuleInfo>, t: CString, r: CastInfo)
    requires FromFirst(nodes, loads, t) && r in nodes
    ensures RecordOf(loads, r, r.declared.name, t)
  {
  }

  ghost predicate ListOk(t: TypeInfo, v: Lists)
    reads t`cast, t`chain, t`sources, Nodes(t)
  {
    ListValid(t) && t.sources == Expected(v, t) && FromFirst(Nodes(t), v.loads, t.name)
  }

  ghost predicate ListsOk(v: Lists)
    reads v.types`cast, v.types`chain, v.types`sources, v.nodes
  {
    forall t | t in v.types :: Nodes(t) <= v.nodes && ListOk(t, v)
  }

  /** The client data of `types`, as a value. */
  ghost function DataOf(types: set<TypeInfo>): (d: map<TypeInfo, nat>)
    reads types`clientdata
    ensures d.Keys == types
  {
    map t | t in types :: t.clientdata
  }

  /** The casts without converters between `types`, as a value. */
  ghost function EdgesOf(types: set<TypeInfo>): (edges: map<TypeInfo, set<TypeInfo>>)
    reads types`chain, types`sources
    ensures edges.Keys == types
  {
    map t | t in types :: Plain(t)
  }

  /** A node belongs to one list only. */
  lemma OtherNodes(t: TypeInfo, ty: TypeInfo, row: seq<CastInfo>)
    requires ListValid(t) && ListValid(ty) && t != ty && RowUnlinked(row, 0)
    ensures Nodes(t) !! Nodes(ty) + SetOf(row)
  {
    forall i | 0 <= i < |t.chain|
      ensures t.chain[i] !in Nodes(ty) + SetOf(row)
    {
      assert Linked(t, i);
      forall j | 0 <= j < |ty.chain|
        ensures ty.chain[j] != t.chain[i]
      {
        assert Linked(ty, j);
      }
    }
  }

  /** The row of `ty` is merged in and no other list changes. */
  method MergeRow(m: ModuleInfo, row: seq<CastInfo>, ty: TypeInfo, own: TypeInfo,
          ghost live: map<CString, TypeInfo>, ghost seg: seq<ModuleInfo>, ghost v: Lists)
    requires Ready(m, live, seg) && RowUnlinked(row, 0)
    requires RowReady(row, ty.name, ty.sources, live) && (ty == own <==> ty.name !in live)
    requires ListsOk(v) && ty in v.types && SetOf(row) <= v.nodes
    requires ty.name in v.shared && v.shared[ty.name] == ty
    requires FromFirst(Missing(ty.sources, row, |row|), v.loads, ty.name)
    modifies ty`cast, ty`chain, ty`sources, Nodes(ty)`next, Nodes(ty)`prev
    modifies SetOf(row)`ty, SetOf(row)`next, SetOf(row)`prev, SetOf(row)`owner
    ensures Ready(m, live, seg) && DataOf(v.types) == old(DataOf(v.types))
    ensures ListsOk(v.(chains := v.chains[ty.name := TouchRow(live, ty.name, ChainOf(v.chains, ty.name), row, |row|)]))
  {
    hide ListValid, Ready, RowReady, RowUnlinked, TouchRow;
    assert ListOk(ty, v);
    forall t | t in v.types && t != ty
      ensures ListValid(t) && Nodes(t) !! Nodes(ty) + SetOf(row)
    {
      assert ListOk(t, v);
      OtherNodes(t, ty, row);
    }
    AddRow(m, row, ty, own, live, seg);
    forall t | t in v.types
      ensures t.clientdata == old(t.clientdata)
    {
    }
    ghost var list := TouchRow(live, ty.name, ChainOf(v.chains, ty.name), row, |row|);
    ghost var after := v.(chains := v.chains[ty.name := list]);
    forall t | t in v.types
      ensures Nodes(t) <= v.nodes && ListOk(t, after)
    {
      if t != ty {
        assert old(ListOk(t, v));
      }
    }
  }

  /** The lists after moving node `k` of the list named `n` to its front. */
  ghost function Moved(v: Lists, n: CString, k: nat): Lists
    requires n in v.chains
  {
    if k < |v.chains[n]| then v.(chains := v.chains[n := MoveToFront(v.chains[n], k)]) else v
  }

  /** What the list of a shared descriptor is, and that the other lists have no record in common with it. */
  lemma SharedList(v: Lists, ty: TypeInfo)
    requires ListsOk(v) && ty in v.types
    requires ty.name in v.shared && v.shared[ty.name] == ty && ty.name in v.chains
    ensures ListValid(ty) && ty.sources == v.chains[ty.name] && |ty.chain| == |ty.sources|
    ensures Nodes(ty) <= v.nodes && FromFirst(Nodes(ty), v.loads, ty.name)
    ensures forall t | t in v.types && t != ty :: Nodes(t) !! Nodes(ty)
    ensures forall t | t in v.types && t != ty :: Nodes(t) <= v.nodes && ListOk(t, v)
  {
    assert ListOk(ty, v);
    forall t | t in v.types && t != ty
      ensures Nodes(t) !! Nodes(ty)
    {
      assert ListOk(t, v);
      OtherNodes(t, ty, []);
    }
  }

  /** The lists after node `k` of the list of `ty` has been moved, or none. */
  lemma ListsMoved(v: Lists, ty: TypeInfo, k: nat)
    requires ty in v.types && ty.name in v.shared && v.shared[ty.name] == ty && ty.name in v.chains
    requires forall t | t in v.types && t != ty :: Nodes(t) <= v.nodes && ListOk(t, v)
    requires ListValid(ty) && Nodes(ty) <= v.nodes && FromFirst(Nodes(ty), v.loads, ty.name)
    requires ty.sources ==
               if k < |v.chains[ty.name]| then MoveToFront(v.chains[ty.name], k) else v.chains[ty.name]
    ensures ListsOk(Moved(v, ty.name, k))
  {
    hide ListValid, FromFirst, MoveToFront;
    forall t | t in v.types
      ensures Nodes(t) <= v.nodes && ListOk(t, Moved(v, ty.name, k))
    {
      if t != ty {
        assert ListOk(t, v);
      }
    }
  }

  /** `SWIG_TypeCheck` on a shared descriptor: its list is reordered and no other list changes. */
  method CheckShared(c: CString, ty: TypeInfo, ghost v: Lists) returns (r: CastInfo?)
    requires ListsOk(v) && ty in v.types
    requires ty.name in v.shared && v.shared[ty.name] == ty && ty.name in v.chains
    modifies ty`cast, ty`chain, ty`sources, Nodes(ty)`next, Nodes(ty)`prev
    ensures ListsOk(Moved(v, ty.name, IndexOf(v.chains[ty.name], c)))
    ensures EdgesOf(v.types) == old(EdgesOf(v.types)) && DataOf(v.types) == old(DataOf(v.types))
    ensures r == null <==> IndexOf(v.chains[ty.name], c) == |v.chains[ty.name]|
    ensures r != null ==> r.ty == v.chains[ty.name][IndexOf(v.chains[ty.name], c)] && r.ty.name == c && ty.cast == r
    ensures r != null ==> RecordOf(v.loads, r, c, ty.name)
  {
    hide ListsOk, ListOk, Moved, FromFirst, MoveToFront, Plain, RecordOf, FirstRecord;
    SharedList(v, ty);
    ghost var nodes, k := Nodes(ty), IndexOf(ty.sources, c);
    assert k < |ty.chain| ==> Linked(ty, k);
    r := TypeCheck(c, ty);
    if r != null {
      FirstIn(nodes, v.loads, ty.name, r);
    }
    ListsMoved(v, ty, k);
  }

  /** `SWIG_TypeCheckStruct` on a shared descriptor: its list is reordered and no other list changes. */
  method CheckStructShared(from: TypeInfo, ty: TypeInfo, ghost v: Lists) returns (r: CastInfo?)
    requires ListsOk(v) && ty in v.types
    requires ty.name in v.shared && v.shared[ty.name] == ty && ty.name in v.chains
    modifies ty`cast, ty`chain, ty`sources, Nodes(ty)`next, Nodes(ty)`prev
    ensures ListsOk(Moved(v, ty.name, IndexOfStruct(v.chains[ty.name], from)))
    ensures EdgesOf(v.types) == old(EdgesOf(v.types)) && DataOf(v.types) == old(DataOf(v.types))
    ensures r == null <==> IndexOfStruct(v.chains[ty.name], from) == |v.chains[ty.name]|
    ensures r != null ==> r.ty == v.chains[ty.name][IndexOfStruct(v.chains[ty.name], from)] == from && ty.cast == r
    ensures r != null ==> RecordOf(v.loads, r, from.name, ty.name)
  {
    hide ListsOk, ListOk, Moved, FromFirst, MoveToFront, Plain, RecordOf, FirstRecord;
    SharedList(v, ty);
    ghost var nodes, k := Nodes(ty), IndexOfStruct(ty.sources, from);
    assert k < |ty.chain| ==> Linked(ty, k);
    r := TypeCheckStruct(from, ty);
    if r != null {
      FirstIn(nodes, v.loads, ty.name, r);
    }
    ListsMoved(v, ty, k);
  }

  // ---------- one slot ----------

  lemma DeclaredSourceKnown(loads: seq<ModuleInfo>, c: CString, t: CString)
    requires forall m :: m in loads ==> WellFormed(m)
    ensures Declared(loads, c, t) ==> Known(loads, c)
  {
    forall m | m in loads && Declares(m, c, t)
      ensures Has(m, c)
    {
      var i :| 0 <= i < |m.typeInitial| && m.typeInitial[i].name == t && InRow(m.castInitial[i], c);
      assert RowWellFormed(m, m.castInitial[i]);
    }
  }

  /** Before row `i` is merged, its type is as the modules loaded before left it. */
  lemma SlotReady(s: Registry, m: ModuleInfo, i: nat)
    requires Inv(s) && m !in s.ring && Loadable(s, m) && i < |m.typeInitial|
    ensures var own := m.typeInitial[i]; var shared := NewLive(s.live, m, |m.typeInitial|); var ty := Slot(shared, own);
            var base := ChainOf(s.chains, own.name);
            && own.name in shared && ty.name == own.name
            && (ty == own <==> own.name !in s.live)
            && (ty != own ==> ty == s.live[own.name])
            && (ty == own ==> base == [])
            && ChainOf(LoadChains(s, m, i), own.name) == base
            && NoDuplicates(base)
            && (forall c :: Castable(base, c) ==> c in s.live)
  {
    var own := m.typeInitial[i];
    NewLiveSlot(s.live, m, i);
    NameOnlyAt(m, i);
    LoadChainsOther(s, m, i, own.name);
    if own.name in s.live {
      var x :| x in s.loads && s.live[own.name] in x.typeInitial;
      assert Apart(x, m);
      assert ChainInv(s, own.name);
      forall c | Castable(s.chains[own.name], c)
        ensures c in s.live
      {
        DeclaredSourceKnown(s.loads, c, own.name);
      }
    }
  }

  ghost predicate Loading(s: Registry, m: ModuleInfo, i: nat) {
    Inv(s) && m !in s.ring && Loadable(s, m) && i < |m.typeInitial|
  }

  lemma SlotIsStatic(s: Registry, m: ModuleInfo, i: nat)
    requires Loading(s, m, i)
    ensures Slot(NewLive(s.live, m, |m.typeInitial|), m.typeInitial[i]) in Statics(s.loads + [m])
  {
    SlotReady(s, m, i);
    assert m in s.loads + [m];
    var own := m.typeInitial[i];
    assert own in m.typeInitial;
    if own.name in s.live {
      var x :| x in s.loads && s.live[own.name] in x.typeInitial;
      assert x in s.loads + [m];
    }
  }

  /** The lists when `i` rows of the module being loaded have been merged. */
  ghost function Stage(s: Registry, m: ModuleInfo, i: nat): Lists
    requires i <= |m.typeInitial| == |m.castInitial|
  {
    Lists(Statics(s.loads + [m]), Records(s.loads + [m]), NewLive(s.live, m, |m.typeInitial|), LoadChains(s, m, i),
          s.loads + [m])
  }

  /** The records of slot `i` that are linked in declare their casts for the first time. */
  lemma MissingAreFirst(s: Registry, m: ModuleInfo, i: nat)
    requires Loading(s, m, i)
    ensures var t, row := m.typeInitial[i].name, m.castInitial[i];
            FromFirst(Missing(ChainOf(s.chains, t), row, |row|), s.loads + [m], t)
  {
    var t, row := m.typeInitial[i].name, m.castInitial[i];
    forall r | r in Missing(ChainOf(s.chains, t), row, |row|)
      ensures FirstRecord(s.loads + [m], r, t)
    {
      DeclaredIsKnown(s.loads, r.declared.name, t);
      if t in s.chains {
        assert ChainInv(s, t);
      }
      assert InRowOf(m, r, t);
      FirstRecordOneMore(s.loads, m, r, t);
    }
  }

  /** Merging the row of slot `i` takes the lists to the next stage. */
  method MergeSlot(m: ModuleInfo, i: nat, ty: TypeInfo, ghost s: Registry, ghost seg: seq<ModuleInfo>)
    requires Loading(s, m, i) && Ready(m, s.live, seg)
    requires ty == Slot(NewLive(s.live, m, |m.typeInitial|), m.typeInitial[i])
    requires ListsOk(Stage(s, m, i)) && RowUnlinked(m.castInitial[i], 0)
    modifies ty`cast, ty`chain, ty`sources, Nodes(ty)`next, Nodes(ty)`prev
    modifies SetOf(m.castInitial[i])`ty, SetOf(m.castInitial[i])`next, SetOf(m.castInitial[i])`prev
    modifies SetOf(m.castInitial[i])`owner
    ensures Ready(m, s.live, seg) && ListsOk(Stage(s, m, i + 1))
    ensures DataOf(Stage(s, m, i).types) == old(DataOf(Stage(s, m, i).types))
  {
    SlotReady(s, m, i);
    SlotIsStatic(s, m, i);
    RowIsStatic(s, m, i);
    assert ListOk(ty, Stage(s, m, i));
    assert RowWellFormed(m, m.castInitial[i]);
    MissingAreFirst(s, m, i);
    MergeRow(m, m.castInitial[i], ty, m.typeInitial[i], s.live, seg, Stage(s, m, i));
  }

  // ---------- all slots ----------

  ghost predicate RowsUnlinked(m: ModuleInfo, from: nat)
    reads RowNodes(m)
  {
    forall k | from <= k < |m.castInitial| :: RowUnlinked(m.castInitial[k], 0)
  }

  /** No record is shared between two rows. */
  ghost predicate RowsApart(m: ModuleInfo) {
    forall k, l :: 0 <= k < l < |m.castInitial| ==> SetOf(m.castInitial[k]) !! SetOf(m.castInitial[l])
  }

  lemma RowIsStatic(s: Registry, m: ModuleInfo, i: nat)
    requires i < |m.castInitial|
    ensures SetOf(m.castInitial[i]) <= RowNodes(m) <= Records(s.loads + [m])
  {
    assert m.castInitial[i] in m.castInitial;
    assert m in s.loads + [m];
  }

  lemma OwnIsStatic(s: Registry, m: ModuleInfo, i: nat)
    requires i < |m.typeInitial|
    ensures m.typeInitial[i] in Statics(s.loads + [m])
  {
    assert m in s.loads + [m] && m.typeInitial[i] in m.typeInitial;
  }

  /** Merging a row leaves the records of the later rows unlinked. */
  method MergeSlotKeepingRows(m: ModuleInfo, i: nat, ty: TypeInfo, ghost s: Registry, ghost seg: seq<ModuleInfo>)
    requires Loading(s, m, i) && Ready(m, s.live, seg)
    requires ty == Slot(NewLive(s.live, m, |m.typeInitial|), m.typeInitial[i])
    requires ListsOk(Stage(s, m, i)) && RowsUnlinked(m, i) && RowsApart(m)
    modifies ty`cast, ty`chain, ty`sources, Nodes(ty)`next, Nodes(ty)`prev
    modifies SetOf(m.castInitial[i])`ty, SetOf(m.castInitial[i])`next, SetOf(m.castInitial[i])`prev
    modifies SetOf(m.castInitial[i])`owner
    ensures Ready(m, s.live, seg) && ListsOk(Stage(s, m, i + 1)) && RowsUnlinked(m, i + 1)
    ensures DataOf(Stage(s, m, i).types) == old(DataOf(Stage(s, m, i).types))
  {
    SlotIsStatic(s, m, i);
    forall k | i < k < |m.castInitial|
      ensures SetOf(m.castInitial[k]) !! Nodes(ty) + SetOf(m.castInitial[i])
    {
      assert ListOk(ty, Stage(s, m, i));
      assert RowUnlinked(m.castInitial[k], 0);
      forall j | 0 <= j < |m.castInitial[k]|
        ensures m.castInitial[k][j] !in Nodes(ty)
      {
        UnlinkedOutside(m.castInitial[k][j], ty);
      }
    }
    MergeSlot(m, i, ty, s, seg);
    forall k | i < k < |m.castInitial|
      ensures RowUnlinked(m.castInitial[k], 0)
    {
      assert old(RowUnlinked(m.castInitial[k], 0));
    }
  }

  /** Takes the loaded descriptor, overwriting its client data if the module has its own, or the module's. */
  method PickType(m: ModuleInfo, i: nat, own: TypeInfo, found: TypeInfo?, ghost live: map<CString, TypeInfo>,
          ghost seg: seq<ModuleInfo>, ghost v: Lists)
    returns (ty: TypeInfo)
    requires Ready(m, live, seg) && RowsUnlinked(m, i) && ListsOk(v)
    requires own in v.types && (found != null ==> found in v.types)
    modifies (if found == null then {} else {found})`clientdata
    ensures ty == if found == null then own else found
    ensures DataOf(v.types) ==
              if old(own.clientdata) != 0 then old(DataOf(v.types))[ty := old(own.clientdata)] else old(DataOf(v.types))
    ensures Ready(m, live, seg) && RowsUnlinked(m, i) && ListsOk(v)
  {
    if found != null {
      if own.clientdata != 0 {
        found.clientdata := own.clientdata;
      }
      ty := found;
    } else {
      ty := own;
    }
  }

  /** The type array gets its entry for slot `i`; neither the other modules' tables nor the lists change. */
  method SetSlot(m: ModuleInfo, i: nat, ty: TypeInfo?, ghost live: map<CString, TypeInfo>,
          ghost seg: seq<ModuleInfo>, ghost v: Lists)
    requires Ready(m, live, seg) && i < |m.types| && ListsOk(v)
    modifies m`types
    ensures Ready(m, live, seg) && m.types == old(m.types)[i := ty] && ListsOk(v)
    ensures DataOf(v.types) == old(DataOf(v.types))
  {
    assert forall k :: 0 <= k < |seg| ==> seg[k] != m;
    m.types := m.types[i := ty];
    forall t | t in v.types
      ensures Nodes(t) <= v.nodes && ListOk(t, v)
    {
      assert old(ListOk(t, v));
      assert forall j :: 0 <= j < |t.chain| ==> old(Linked(t, j)) ==> Linked(t, j);
    }
  }

  /** Slot `i`: a module's own client data, when it has any, goes to the shared descriptor. */
  ghost function DataStep(shared: map<CString, TypeInfo>, own: TypeInfo, data: map<TypeInfo, nat>): map<TypeInfo, nat> {
    if own in data && data[own] != 0 then data[Slot(shared, own) := data[own]] else data
  }

  ghost function LoadData(shared: map<CString, TypeInfo>, m: ModuleInfo, data: map<TypeInfo, nat>,
          k: nat): map<TypeInfo, nat>
    requires k <= |m.typeInitial|
  {
    if k == 0 then data else DataStep(shared, m.typeInitial[k - 1], LoadData(shared, m, data, k - 1))
  }

  /** The descriptor that slot `i` gets: the shared one for its name. */
  method ChooseType(m: ModuleInfo, i: nat, ghost live: map<CString, TypeInfo>, ghost seg: seq<ModuleInfo>,
          ghost v: Lists)
    returns (ty: TypeInfo)
    requires WellFormed(m) && i < |m.typeInitial| && v.shared == NewLive(live, m, |m.typeInitial|)
    requires m.typeInitial[i] in v.types && Slot(v.shared, m.typeInitial[i]) in v.types
    requires Ready(m, live, seg) && RowsUnlinked(m, i) && ListsOk(v)
    modifies Slot(v.shared, m.typeInitial[i])`clientdata
    ensures ty == Slot(v.shared, m.typeInitial[i])
    ensures DataOf(v.types) == DataStep(v.shared, m.typeInitial[i], old(DataOf(v.types)))
    ensures Ready(m, live, seg) && RowsUnlinked(m, i) && ListsOk(v)
  {
    NewLiveSlot(live, m, i);
    var found := LookUpLoaded(m, m.typeInitial[i].name, live, seg);
    assert found != null ==> found == Slot(v.shared, m.typeInitial[i]);
    ty := PickType(m, i, m.typeInitial[i], found, live, seg, v);
  }

  lemma SlotNamed(shared: map<CString, TypeInfo>, m: ModuleInfo, i: nat, j: nat)
    requires Consistent(shared) && WellFormed(m) && i < |m.typeInitial| && j < |m.typeInitial| && i != j
    ensures Slot(shared, m.typeInitial[i]) != Slot(shared, m.typeInitial[j])
    ensures m.typeInitial[i] != Slot(shared, m.typeInitial[j])
  {
    NameOnlyAt(m, i);
  }

  lemma {:induction false} LoadDataElsewhere(shared: map<CString, TypeInfo>, m: ModuleInfo,
          data: map<TypeInfo, nat>, from: nat, k: nat, t: TypeInfo)
    requires from <= k <= |m.typeInitial| && t in data
    requires forall j :: from <= j < k ==> Slot(shared, m.typeInitial[j]) != t
    ensures t in LoadData(shared, m, data, k) && t in LoadData(shared, m, data, from)
    ensures LoadData(shared, m, data, k)[t] == LoadData(shared, m, data, from)[t]
    decreases k
  {
    if k > from {
      LoadDataElsewhere(shared, m, data, from, k - 1, t);
    } else {
      LoadDataKeys(shared, m, data, k, t);
    }
  }

  lemma {:induction false} LoadDataKeys(shared: map<CString, TypeInfo>, m: ModuleInfo, data: map<TypeInfo, nat>,
          k: nat, t: TypeInfo)
    requires k <= |m.typeInitial| && t in data
    ensures t in LoadData(shared, m, data, k)
  {
    if k > 0 {
      LoadDataKeys(shared, m, data, k - 1, t);
    }
  }

  /** A load overwrites client data by client data that is not null. */
  lemma {:induction false} LoadDataKeepsSet(shared: map<CString, TypeInfo>, m: ModuleInfo,
          data: map<TypeInfo, nat>, k: nat, t: TypeInfo)
    requires k <= |m.typeInitial| && t in data && data[t] != 0
    ensures t in LoadData(shared, m, data, k) && LoadData(shared, m, data, k)[t] != 0
  {
    if k > 0 {
      LoadDataKeepsSet(shared, m, data, k - 1, t);
    }
  }

  /** After a load a slot's shared descriptor has the module's client data, if it brought any, or its own. */
  lemma LoadDataAt(shared: map<CString, TypeInfo>, m: ModuleInfo, data: map<TypeInfo, nat>, i: nat)
    requires Consistent(shared) && WellFormed(m) && i < |m.typeInitial|
    requires m.typeInitial[i] in data && Slot(shared, m.typeInitial[i]) in data
    ensures var own, slot := m.typeInitial[i], Slot(shared, m.typeInitial[i]);
            var after := LoadData(shared, m, data, |m.typeInitial|);
            slot in after && after[slot] == if data[own] != 0 then data[own] else data[slot]
  {
    var own := m.typeInitial[i];
    var slot := Slot(shared, own);
    forall j | 0 <= j < |m.typeInitial| && j != i
      ensures Slot(shared, m.typeInitial[j]) != slot && Slot(shared, m.typeInitial[j]) != own
    {
      SlotNamed(shared, m, i, j);
    }
    LoadDataElsewhere(shared, m, data, 0, i, own);
    LoadDataElsewhere(shared, m, data, 0, i, slot);
    LoadDataElsewhere(shared, m, data, i + 1, |m.typeInitial|, slot);
  }

  /** The descriptors that the slots of a module being loaded share. */
  ghost function SlotTypes(s: Registry, m: ModuleInfo): set<TypeInfo> {
    set t | t in Slots(NewLive(s.live, m, |m.typeInitial|), m)
  }

  /** One round of the loop on the lists and the module's table. */
  method FillSlot(m: ModuleInfo, i: nat, ghost s: Registry, ghost seg: seq<ModuleInfo>)
    requires Loading(s, m, i) && Ready(m, s.live, seg) && i < |m.types|
    requires ListsOk(Stage(s, m, i)) && RowsUnlinked(m, i) && RowsApart(m)
    modifies m`types
    modifies Stage(s, m, i).nodes`ty, Stage(s, m, i).nodes`next, Stage(s, m, i).nodes`prev, Stage(s, m, i).nodes`owner
    modifies SlotTypes(s, m)`cast, SlotTypes(s, m)`chain, SlotTypes(s, m)`sources, SlotTypes(s, m)`clientdata
    ensures Ready(m, s.live, seg) && RowsUnlinked(m, i + 1) && ListsOk(Stage(s, m, i + 1))
    ensures m.types == old(m.types)[i := Slots(NewLive(s.live, m, |m.typeInitial|), m)[i]]
    ensures DataOf(Stage(s, m, i).types) ==
              DataStep(NewLive(s.live, m, |m.typeInitial|), m.typeInitial[i], old(DataOf(Stage(s, m, i).types)))
  {
    hide Inv, Ready, ListsOk, RowsUnlinked, RowsApart, LoadChains;
    SlotIsStatic(s, m, i);
    RowIsStatic(s, m, i);
    OwnIsStatic(s, m, i);
    assert Slots(NewLive(s.live, m, |m.typeInitial|), m)[i] in SlotTypes(s, m);
    var ty := ChooseType(m, i, s.live, seg, Stage(s, m, i));
    MergeSlotKeepingRows(m, i, ty, s, seg);
    SetSlot(m, i, ty, s.live, seg, Stage(s, m, i + 1));
  }

  /** The first `i` slots are done; `data` is the client data before the first. */
  ghost predicate Filled(s: Registry, m: ModuleInfo, seg: seq<ModuleInfo>, data: map<TypeInfo, nat>, i: nat)
    requires i <= |m.typeInitial| == |m.castInitial|
    reads m, seg, Statics(s.loads + [m]), Records(s.loads + [m]), RowNodes(m)
  {
    && Ready(m, s.live, seg) && RowsUnlinked(m, i) && ListsOk(Stage(s, m, i))
    && |m.types| == |m.typeInitial| + 1
    && m.types[..i] == Slots(NewLive(s.live, m, |m.typeInitial|), m)[..i]
    && DataOf(Statics(s.loads + [m])) == LoadData(NewLive(s.live, m, |m.typeInitial|), m, data, i)
  }

  method FillRound(m: ModuleInfo, i: nat, ghost s: Registry, ghost seg: seq<ModuleInfo>, ghost data: map<TypeInfo, nat>)
    requires Loading(s, m, i) && RowsApart(m) && Filled(s, m, seg, data, i)
    modifies m`types
    modifies Records(s.loads + [m])`ty, Records(s.loads + [m])`next, Records(s.loads + [m])`prev
    modifies Records(s.loads + [m])`owner
    modifies SlotTypes(s, m)`cast, SlotTypes(s, m)`chain, SlotTypes(s, m)`sources, SlotTypes(s, m)`clientdata
    ensures Filled(s, m, seg, data, i + 1)
  {
    hide Inv, Ready, ListsOk, RowsUnlinked, RowsApart, LoadChains;
    ghost var table := Slots(NewLive(s.live, m, |m.typeInitial|), m);
    ghost var before := m.types;
    FillSlot(m, i, s, seg);
    assert before[i := table[i]][..i + 1] == before[..i] + [table[i]];
  }

  /** The loop over the slots of the module being loaded. */
  method FillTable(m: ModuleInfo, ghost s: Registry, ghost seg: seq<ModuleInfo>)
    requires Inv(s) && m !in s.ring && Loadable(s, m) && RowsApart(m)
    requires Filled(s, m, seg, DataOf(Statics(s.loads + [m])), 0)
    modifies m`types
    modifies Records(s.loads + [m])`ty, Records(s.loads + [m])`next, Records(s.loads + [m])`prev
    modifies Records(s.loads + [m])`owner
    modifies SlotTypes(s, m)`cast, SlotTypes(s, m)`chain, SlotTypes(s, m)`sources, SlotTypes(s, m)`clientdata
    ensures Filled(s, m, seg, old(DataOf(Statics(s.loads + [m]))), |m.typeInitial|)
    ensures TableIs(m, Slots(NewLive(s.live, m, |m.typeInitial|), m))
  {
    hide Ready, ListsOk, RowsApart, LoadChains, Inv;
    ghost var data := DataOf(Statics(s.loads + [m]));
    for i := 0 to |m.typeInitial|
      invariant Filled(s, m, seg, data, i)
    {
      FillRound(m, i, s, seg, data);
    }
    SetSlot(m, |m.typeInitial|, null, s.live, seg, Stage(s, m, |m.typeInitial|));
    NewLiveConsistent(s, m);
    SlotsSorted(NewLive(s.live, m, |m.typeInitial|), m);
  }

  lemma NewLiveConsistent(s: Registry, m: ModuleInfo)
    requires Consistent(s.live) && WellFormed(m)
    ensures Consistent(NewLive(s.live, m, |m.typeInitial|))
  {
    NewLiveAll(s.live, m, |m.typeInitial|);
  }
}
