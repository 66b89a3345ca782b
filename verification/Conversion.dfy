/** Converting wrapped pointers: `SWIG_Python_ConvertPtrAndOwn` and the ownership it hands over. */
module Conversion {
  import opened CStrings
  import opened CastLists
  import opened Registry
  import opened RegistryRuns
  import opened Loader
  import opened Interpreters

  /** `SwigPyObject`: a wrapped pointer (0 is null), its type, whether it is owned, and the next wrapper. */
  class Wrapper {
    const ty: TypeInfo
    var ptr: int
    var own: bool
    var next: Wrapper?

    /** `SwigPyObject_New`. */
    constructor (ptr: int, ty: TypeInfo, own: bool)
      ensures this.ptr == ptr && this.ty == ty && this.own == own && next == null
    {
      this.ptr, this.ty, this.own, next := ptr, ty, own, null;
    }

    /**
     * `SwigPyObject_append`: the other wrapper comes right behind this one. Where this one is wrapper
     * `k` of a chain and the other is not in it, the result is the chain with the other inserted.
     */
    method Append(other: Wrapper, ghost w: Wrapper?, ghost chain: seq<Wrapper>, ghost k: nat)
      modifies this`next, other`next
      ensures next == other && (this != other ==> other.next == old(next))
      ensures old(WrapperChain(w, chain)) && k < |chain| && chain[k] == this && other !in chain ==>
                WrapperChain(w, chain[..k + 1] + [other] + chain[k + 1..])
    {
      ghost var inserts := WrapperChain(w, chain) && k < |chain| && chain[k] == this && other !in chain;
      if inserts {
        forall i | 0 <= i < |chain| && i != k
          ensures chain[i] != this
        {
          WrappersDistinct(w, chain, if i < k then i else k, if i < k then k else i);
        }
        assert WrapperLink(chain, k);
      }
      other.next := next;
      next := other;
      if inserts {
        forall i | 0 <= i < |chain| && i != k
          ensures WrapperLink(chain, i)
        {
          assert old(WrapperLink(chain, i));
        }
        InsertedLinks(chain, other, k);
      }
    }

    /** `SwigPyObject_acquire`. */
    method Acquire()
      modifies `own
      ensures own && own == OwnAfter(OwnEvent.Acquire, old(own))
    {
      own := true;
    }

    /** `SwigPyObject_disown`. */
    method Disown()
      modifies `own
      ensures !own && own == OwnAfter(OwnEvent.Disown, old(own))
    {
      own := false;
    }
  }

  /** The argument: no object, `None`, or an object with the wrapper that its `this` leads to, if any. */
  datatype PyObj = NoObject | PyNone | Wrapped(this_: Wrapper?)

  /** The bits of `flags`; `SWIG_POINTER_RELEASE` is both `clear` and `disown`. */
  datatype Flags = Flags(disown: bool, noNull: bool, clear: bool) {
    predicate Release() {
      clear && disown
    }
  }

  datatype Status = Success | Error | NullReferenceError | ReleaseNotOwned

  /** `*own`: what the conversion allocated and what the wrapper owned. */
  datatype OwnBits = OwnBits(newMemory: bool, owned: bool)

  /** `chain` lists the wrappers met from `w` on. */
  ghost predicate WrapperChain(w: Wrapper?, chain: seq<Wrapper>)
    reads chain`next
  {
    && w == (if chain == [] then null else chain[0])
    && forall i :: 0 <= i < |chain| ==> WrapperLink(chain, i)
  }

  ghost predicate WrapperLink(chain: seq<Wrapper>, i: nat)
    requires i < |chain|
    reads chain`next
  {
    chain[i].next == if i + 1 < |chain| then chain[i + 1] else null
  }

  lemma {:induction false} WrappersDistinct(w: Wrapper?, chain: seq<Wrapper>, i: nat, j: nat)
    requires WrapperChain(w, chain) && i < j < |chain|
    ensures chain[i] != chain[j]
    decreases |chain| - j
  {
    assert WrapperLink(chain, i) && WrapperLink(chain, j);
    if j + 1 < |chain| {
      WrappersDistinct(w, chain, i + 1, j + 1);
    }
  }

  /** The links of a chain with `other` inserted behind wrapper `k`. */
  lemma InsertedLinks(chain: seq<Wrapper>, other: Wrapper, k: nat)
    requires k < |chain| && chain[k].next == other
    requires other.next == if k + 1 < |chain| then chain[k + 1] else null
    requires forall i :: 0 <= i < |chain| && i != k ==> WrapperLink(chain, i)
    ensures WrapperChain(chain[0], chain[..k + 1] + [other] + chain[k + 1..])
  {
    var all := chain[..k + 1] + [other] + chain[k + 1..];
    forall i | 0 <= i < |all|
      ensures WrapperLink(all, i)
    {
      if i != k && i != k + 1 {
        assert WrapperLink(chain, if i < k then i else i - 1);
      }
    }
  }

  /** A wrapper of type `from` converts to the target after the steps `history`. */
  ghost predicate Converts(history: seq<Op>, from: TypeInfo, ty: TypeInfo?) {
    ty == null || from == ty || DeclaredBy(history, from.name, ty.name)
  }

  /** `hits` says of every wrapper of a chain whether it converts. */
  ghost predicate Hits(history: seq<Op>, chain: seq<Wrapper>, ty: TypeInfo?, hits: seq<bool>) {
    |hits| == |chain| && forall i :: 0 <= i < |chain| ==> HitAt(history, chain, ty, hits, i)
  }

  ghost predicate HitAt(history: seq<Op>, chain: seq<Wrapper>, ty: TypeInfo?, hits: seq<bool>, i: nat)
    requires i < |chain| == |hits|
  {
    hits[i] <==> Converts(history, chain[i].ty, ty)
  }

  /** The position of the first hit; the length when there is none. */
  function FirstHit(hits: seq<bool>): (k: nat)
    ensures k <= |hits|
    ensures k < |hits| ==> hits[k]
    ensures forall i :: 0 <= i < k ==> !hits[i]
  {
    if hits == [] || hits[0] then 0 else 1 + FirstHit(hits[1..])
  }

  /** `SWIG_TypeCast`: a record with a converter applies it, one without leaves the pointer as it is. */
  function TypeCast(tc: CastInfo?, ptr: int): (to: Converted)
    ensures tc != null && tc.converter.Some? ==> to == tc.converter.value(ptr)
    ensures tc == null || tc.converter.None? ==> to == Converted(ptr, false)
  {
    if tc == null || tc.converter.None? then Converted(ptr, false) else tc.converter.value(ptr)
  }

  /** Two histories declare the same casts. */
  ghost predicate SameCasts(before: seq<Op>, after: seq<Op>) {
    forall a, b :: DeclaredBy(after, a, b) <==> DeclaredBy(before, a, b)
  }

  /** Lookups and queries do not change what is declared. */
  lemma LookupsDeclareNothing(history: seq<Op>, op: Op)
    requires !op.LoadOp?
    ensures SameCasts(history, history + [op])
  {
    var all := history + [op];
    forall a, b
      ensures DeclaredBy(all, a, b) <==> DeclaredBy(history, a, b)
    {
      assert forall i :: 0 <= i < |history| ==> all[i] == history[i];
      assert all[|history|] == op;
    }
  }

  // ---------- handing over ownership ----------

  /** What a conversion that found a wrapper does: its answer, and the wrapper's new ownership and pointer. */
  datatype Handover = Handover(status: Status, own: bool, ptr: int)

  function HandOver(flags: Flags, own: bool, ptr: int): Handover {
    if flags.Release() && !own then Handover(ReleaseNotOwned, own, ptr)
    else Handover(Success, own && !flags.disown, if flags.clear then 0 else ptr)
  }

  /** What can happen to the ownership of one wrapper. */
  datatype OwnEvent = Acquire | Disown | Convert(flags: Flags)

  function OwnAfter(e: OwnEvent, own: bool): bool {
    match e
    case Acquire => true
    case Disown => false
    case Convert(flags) => HandOver(flags, own, 0).own
  }

  /** The ownership when event `i` of a run that starts with `own` happens. */
  function OwnBefore(events: seq<OwnEvent>, own: bool, i: nat): bool
    requires i <= |events|
  {
    if i == 0 then own else OwnAfter(events[i - 1], OwnBefore(events, own, i - 1))
  }

  /** Event `i` is a release conversion that succeeds. */
  predicate Releases(events: seq<OwnEvent>, own: bool, i: nat)
    requires i < |events|
  {
    && events[i].Convert? && events[i].flags.Release()
    && HandOver(events[i].flags, OwnBefore(events, own, i), 0).status == Success
  }

  /** Event `i` takes the ownership away: a disown, or a conversion with that flag that succeeds. */
  predicate Disowns(events: seq<OwnEvent>, own: bool, i: nat)
    requires i < |events|
  {
    || events[i] == Disown
    || (&& events[i].Convert? && events[i].flags.disown
        && HandOver(events[i].flags, OwnBefore(events, own, i), 0).status == Success)
  }

  lemma {:induction false} StaysReleased(events: seq<OwnEvent>, own: bool, i: nat, j: nat)
    requires i <= j <= |events| && !OwnBefore(events, own, i)
    requires forall k :: i <= k < j ==> events[k] != Acquire
    ensures !OwnBefore(events, own, j)
  {
    if i < j {
      StaysReleased(events, own, i, j - 1);
      assert events[j - 1] != Acquire;
    }
  }

  /** Between two release conversions of a wrapper that both succeed, it is acquired. */
  lemma ReleaseOnce(events: seq<OwnEvent>, own: bool, i: nat, j: nat)
    requires i < j < |events| && Releases(events, own, i) && Releases(events, own, j)
    ensures exists k :: i < k < j && events[k] == Acquire
  {
    if forall k :: i < k < j ==> events[k] != Acquire {
      StaysReleased(events, own, i + 1, j);
    }
  }

  /** After the ownership was taken away, with or without clearing, a release succeeds only after an acquire. */
  lemma DisownedNeedsAcquire(events: seq<OwnEvent>, own: bool, i: nat, j: nat)
    requires i < j < |events| && Disowns(events, own, i) && Releases(events, own, j)
    ensures exists k :: i < k < j && events[k] == Acquire
  {
    if forall k :: i < k < j ==> events[k] != Acquire {
      StaysReleased(events, own, i + 1, j);
    }
  }

  /** A release conversion that succeeds needs ownership: from the start, or by an acquire before it. */
  lemma ReleaseNeedsOwnership(events: seq<OwnEvent>, own: bool, i: nat)
    requires i < |events| && Releases(events, own, i)
    ensures own || exists k :: 0 <= k < i && events[k] == Acquire
  {
    if !own && forall k :: 0 <= k < i ==> events[k] != Acquire {
      StaysReleased(events, own, 0, i);
    }
  }

  // ---------- the conversion ----------

  ghost function Wanted(ty: TypeInfo?): set<TypeInfo> {
    if ty == null then {} else {ty}
  }

  /** The target, when there is one, is the shared descriptor of its name. */
  ghost predicate SharedTarget(s: Registry, ty: TypeInfo?) {
    ty == null || (ty.name in s.live && s.live[ty.name] == ty)
  }

  /** The interpreter after lookups made since the registry was `s`, with `history` behind it. */
  ghost predicate OnlyLookups(it: Interpreter, history: seq<Op>, s: Registry)
    reads it, it.Model().ring, Statics(it.Model().loads), Records(it.Model().loads)
  {
    && it.Valid() && it.Model().loads == s.loads && it.Model().live == s.live
    && SameCasts(history, it.history)
  }

  lemma ListInRecords(it: Interpreter, history: seq<Op>, s: Registry, ty: TypeInfo)
    requires OnlyLookups(it, history, s) && SharedTarget(s, ty)
    ensures Nodes(ty) <= Records(s.loads)
  {
    assert InStatics(s.loads, ty);
  }

  /** One more lookup is still only a lookup. */
  lemma OneMoreLookup(it: Interpreter, history: seq<Op>, s: Registry, op: Op)
    requires OnlyLookups(it, history, s) && (op.CheckOp? || op.StructOp?) && op.t in s.live
    ensures var all := it.history + [op];
            After(all).loads == s.loads && After(all).live == s.live && SameCasts(history, all)
  {
    AfterStep(it.history, op);
    LookupsDeclareNothing(it.history, op);
  }

  /** `SWIG_TypeCheck` in the course of a search. */
  method LookUp(it: Interpreter, c: CString, ty: TypeInfo, ghost w: Wrapper?, ghost chain: seq<Wrapper>,
          ghost history: seq<Op>, ghost s: Registry)
    returns (tc: CastInfo?)
    requires OnlyLookups(it, history, s) && SharedTarget(s, ty) && WrapperChain(w, chain)
    modifies it`head, it`cache, it`history, ty`cast, ty`chain, ty`sources, Records(s.loads)`next, Records(s.loads)`prev
    ensures OnlyLookups(it, history, s) && WrapperChain(w, chain)
    ensures tc == null <==> !DeclaredBy(history, c, ty.name)
    ensures tc != null ==> ty.cast == tc && RecordOf(s.loads, tc, c, ty.name)
  {
    hide Interpreter.Valid, After;
    ListInRecords(it, history, s, ty);
    OneMoreLookup(it, history, s, CheckOp(c, ty.name));
    tc := it.TypeCheck(c, ty, it.Model());
  }

  /** `SWIG_TypeCheckStruct` after other lookups: it finds what it would have found before them. */
  method LookUpStruct(it: Interpreter, from: TypeInfo, ty: TypeInfo, ghost history: seq<Op>, ghost s: Registry)
    returns (tc: CastInfo?)
    requires OnlyLookups(it, history, s) && SharedTarget(s, ty) && s == After(history)
    modifies it`head, it`cache, it`history, ty`cast, ty`chain, ty`sources
    modifies Records(s.loads)`next, Records(s.loads)`prev
    ensures OnlyLookups(it, history, s)
    ensures tc != null <==> IsSource(history, from, ty.name)
    ensures tc != null ==> tc.ty == from && ty.cast == tc && RecordOf(s.loads, tc, from.name, ty.name)
  {
    hide Interpreter.Valid, After;
    ListInRecords(it, history, s, ty);
    OneMoreLookup(it, history, s, StructOp(from, ty.name));
    tc := it.TypeCheckStruct(from, ty, it.Model());
  }

  /**
   * `to` is what a pointer becomes under the cast from `c` to `t`: its image under the converter of the
   * record that first declared the cast, or, where that has none, the pointer itself.
   */
  ghost predicate CastByName(loads: seq<ModuleInfo>, c: CString, t: CString, ptr: int, to: Converted) {
    exists tc | tc in Records(loads) ::
      && RecordOf(loads, tc, c, t)
      && to == if tc.converter.Some? then tc.converter.value(ptr) else Converted(ptr, false)
  }

  lemma CastsByName(loads: seq<ModuleInfo>, tc: CastInfo, c: CString, t: CString, ptr: int)
    requires RecordOf(loads, tc, c, t)
    ensures CastByName(loads, c, t, ptr, TypeCast(tc, ptr))
  {
    FirstRecordDeclares(loads, tc, t);
    var m :| m in loads && InRowOf(m, tc, t);
    var i :| 0 <= i < |m.castInitial| && tc in m.castInitial[i];
    assert m.castInitial[i] in m.castInitial;
    assert tc in RowNodes(m);
  }

  /** `to` is what a pointer of type `from` becomes: itself, or its image under the declared cast to `ty`. */
  ghost predicate CastTo(loads: seq<ModuleInfo>, from: TypeInfo, ptr: int, ty: TypeInfo?, to: Converted) {
    if ty == null || from == ty then to == Converted(ptr, false)
    else CastByName(loads, from.name, ty.name, ptr, to)
  }

  /** One turn of the search: does wrapper `k` convert, and to what? */
  method TryWrapper(it: Interpreter, sobj: Wrapper, ty: TypeInfo?, ghost w: Wrapper?, ghost chain: seq<Wrapper>,
          ghost k: nat, ghost hits: seq<bool>, ghost history: seq<Op>, ghost s: Registry)
    returns (found: bool, to: Converted)
    requires OnlyLookups(it, history, s) && SharedTarget(s, ty) && WrapperChain(w, chain)
    requires Hits(history, chain, ty, hits) && k < |chain| && chain[k] == sobj
    modifies it`head, it`cache, it`history, Wanted(ty)`cast, Wanted(ty)`chain, Wanted(ty)`sources
    modifies Records(s.loads)`next, Records(s.loads)`prev
    ensures OnlyLookups(it, history, s) && WrapperChain(w, chain)
    ensures found <==> hits[k]
    ensures found ==> CastTo(s.loads, sobj.ty, sobj.ptr, ty, to)
  {
    hide OnlyLookups, SharedTarget, RecordOf, CastByName;
    assert HitAt(history, chain, ty, hits, k);
    found, to := true, Converted(sobj.ptr, false);
    if ty != null && sobj.ty != ty {
      var tc := LookUp(it, sobj.ty.name, ty, w, chain, history, s);
      found := tc != null;
      if found {
        to := TypeCast(tc, sobj.ptr);
        CastsByName(s.loads, tc, sobj.ty.name, ty.name, sobj.ptr);
      }
    }
  }

  ghost function WrapperAt(chain: seq<Wrapper>, k: nat): set<Wrapper> {
    if k < |chain| then {chain[k]} else {}
  }

  /** What happens to the wrapper that was found. */
  method HandOverWrapper(sobj: Wrapper, flags: Flags) returns (status: Status, owned: bool)
    modifies sobj`own, sobj`ptr
    ensures HandOver(flags, old(sobj.own), old(sobj.ptr)) == Handover(status, sobj.own, sobj.ptr)
    ensures status == if flags.clear && flags.disown && !old(sobj.own) then ReleaseNotOwned else Success
    ensures sobj.own <==> old(sobj.own) && !flags.disown
    ensures sobj.ptr == if status == Success && flags.clear then 0 else old(sobj.ptr)
    ensures owned <==> status == Success && old(sobj.own)
  {
    if flags.Release() && !sobj.own {
      return ReleaseNotOwned, false;
    }
    owned := sobj.own;
    if flags.disown {
      sobj.own := false;
    }
    if flags.clear {
      sobj.ptr := 0;
    }
    status := Success;
  }

  /** The same, and the interpreter is left as it is. */
  method HandOverFound(it: Interpreter, sobj: Wrapper, flags: Flags, ghost history: seq<Op>, ghost s: Registry)
    returns (status: Status, owned: bool)
    requires OnlyLookups(it, history, s)
    modifies sobj`own, sobj`ptr
    ensures OnlyLookups(it, history, s)
    ensures status == if flags.clear && flags.disown && !old(sobj.own) then ReleaseNotOwned else Success
    ensures sobj.own <==> old(sobj.own) && !flags.disown
    ensures sobj.ptr == if status == Success && flags.clear then 0 else old(sobj.ptr)
    ensures owned <==> status == Success && old(sobj.own)
  {
    hide OnlyLookups;
    ghost var model := it.Model();
    ghost var ring, statics, records := model.ring, Statics(model.loads), Records(model.loads);
    assert allocated(ring);
    status, owned := HandOverWrapper(sobj, flags);
    assert unchanged(it) && unchanged(ring) && unchanged(statics) && unchanged(records);
  }

  /** The search over a chain of wrappers: the first one that converts, and what its pointer converts to. */
  method FindWrapper(it: Interpreter, w: Wrapper?, ty: TypeInfo?, ghost chain: seq<Wrapper>,
          ghost hits: seq<bool>, ghost history: seq<Op>, ghost s: Registry)
    returns (sobj: Wrapper?, to: Converted)
    requires OnlyLookups(it, history, s) && SharedTarget(s, ty) && WrapperChain(w, chain)
    requires Hits(history, chain, ty, hits)
    modifies it`head, it`cache, it`history, Wanted(ty)`cast, Wanted(ty)`chain, Wanted(ty)`sources
    modifies Records(s.loads)`next, Records(s.loads)`prev
    ensures OnlyLookups(it, history, s)
    ensures var k := FirstHit(hits);
            if k == |chain| then sobj == null else sobj == chain[k] && CastTo(s.loads, sobj.ty, sobj.ptr, ty, to)
  {
    hide OnlyLookups, SharedTarget;
    sobj, to := w, Converted(0, false);
    ghost var k: nat := 0;
    while sobj != null
      invariant k <= |chain| && sobj == (if k < |chain| then chain[k] else null)
      invariant OnlyLookups(it, history, s) && WrapperChain(w, chain)
      invariant forall i :: 0 <= i < k ==> !hits[i]
      decreases |chain| - k
    {
      var found;
      found, to := TryWrapper(it, sobj, ty, w, chain, k, hits, history, s);
      if found {
        return;
      }
      assert WrapperLink(chain, k);
      sobj, k := sobj.next, k + 1;
    }
  }

  /**
   * `SWIG_Python_ConvertPtrAndOwn` without implicit conversion, with both out-pointers given. `ptr` and
   * `own` are what is written through them, none where nothing is. The first wrapper that converts hands
   * over; no other changes.
   */
  method ConvertPtrAndOwn(it: Interpreter, obj: PyObj, ty: TypeInfo?, flags: Flags, ghost chain: seq<Wrapper>,
          ghost hits: seq<bool>, ghost history: seq<Op>, ghost s: Registry, ghost k: nat)
    returns (status: Status, ptr: Option<int>, own: Option<OwnBits>)
    requires OnlyLookups(it, history, s) && SharedTarget(s, ty)
    requires WrapperChain(if obj.Wrapped? then obj.this_ else null, chain)
    requires Hits(history, chain, ty, hits) && k == FirstHit(hits)
    modifies it`head, it`cache, it`history, Wanted(ty)`cast, Wanted(ty)`chain, Wanted(ty)`sources
    modifies Records(s.loads)`next, Records(s.loads)`prev, WrapperAt(chain, k)`own, WrapperAt(chain, k)`ptr
    ensures OnlyLookups(it, history, s)
    ensures obj.NoObject? ==> status == Error && ptr.None? && own.None?
    ensures obj.PyNone? ==> status == if flags.noNull then NullReferenceError else Success
    ensures obj.PyNone? ==> ptr == Some(0) && own.None?
    ensures obj.Wrapped? && k == |chain| ==> status == Error && ptr.None? && own == Some(OwnBits(false, false))
    ensures k < |chain| ==>
              && status == (if flags.clear && flags.disown && !old(chain[k].own) then ReleaseNotOwned else Success)
              && (chain[k].own <==> old(chain[k].own) && !flags.disown)
              && chain[k].ptr == (if status == Success && flags.clear then 0 else old(chain[k].ptr))
              && ptr.Some? && own.Some?
              && CastTo(s.loads, chain[k].ty, old(chain[k].ptr), ty, Converted(ptr.value, own.value.newMemory))
              && (own.value.owned <==> status == Success && old(chain[k].own))
  {
    hide OnlyLookups, SharedTarget;
    if obj.NoObject? {
      return Error, None, None;
    }
    if obj.PyNone? {
      return if flags.noNull then NullReferenceError else Success, Some(0), None;
    }
    var sobj, to := FindWrapper(it, obj.this_, ty, chain, hits, history, s);
    if sobj == null {
      return Error, None, Some(OwnBits(false, false));
    }
    var owned;
    status, owned := HandOverFound(it, sobj, flags, history, s);
    ptr, own := Some(to.ptr), Some(OwnBits(to.newMemory, owned));
  }
}
