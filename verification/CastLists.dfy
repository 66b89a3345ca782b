/** Type descriptors, cast records, and the doubly linked cast list that every descriptor heads. */
module CastLists {
  import opened CStrings

  /** A pointer and whether the conversion allocated a new object. */
  datatype Converted = Converted(ptr: int, newMemory: bool)

  /** `swig_type_info`. A null `clientdata` is 0. */
  class TypeInfo {
    const name: CString
    const str: Option<CString>
    var cast: CastInfo?
    var clientdata: nat
    ghost var chain: seq<CastInfo>     // the nodes of the list that starts at `cast`
    ghost var sources: seq<TypeInfo>   // the descriptors those nodes point at

    /** A statically initialised descriptor. */
    constructor (name: CString, str: Option<CString>, clientdata: nat)
      ensures this.name == name && this.str == str && this.clientdata == clientdata
      ensures cast == null && chain == [] && sources == []
    {
      this.name, this.str, this.clientdata := name, str, clientdata;
      cast, chain, sources := null, [], [];
    }
  }

  /** `swig_cast_info`; `declared` is the descriptor the static initialiser points at. */
  class CastInfo {
    ghost const declared: TypeInfo
    const converter: Option<int -> Converted>
    var ty: TypeInfo
    var next: CastInfo?
    var prev: CastInfo?
    ghost var owner: TypeInfo?

    /** A statically initialised record. */
    constructor (ty: TypeInfo, converter: Option<int -> Converted>)
      ensures this.ty == declared == ty && this.converter == converter
      ensures next == null && prev == null && owner == null
    {
      this.ty, declared, this.converter := ty, ty, converter;
      next, prev, owner := null, null, null;
    }
  }

  // ---------- sequences ----------

  function MoveToFront<T>(s: seq<T>, k: nat): (r: seq<T>)
    requires k < |s|
    ensures |r| == |s|
  {
    [s[k]] + s[..k] + s[k + 1..]
  }

  lemma MovedAt<T>(s: seq<T>, k: nat)
    requires k < |s|
    ensures forall i :: 0 <= i < |s| ==> MoveToFront(s, k)[i] == s[if i == 0 then k else if i <= k then i - 1 else i]
  {
  }

  /** The position of the first descriptor named `c`; the length when there is none. */
  function IndexOf(ts: seq<TypeInfo>, c: CString): (k: nat)
    ensures k <= |ts|
    ensures k < |ts| ==> ts[k].name == c
    ensures forall i :: 0 <= i < k ==> ts[i].name != c
  {
    if ts == [] then 0 else if ts[0].name == c then 0 else 1 + IndexOf(ts[1..], c)
  }

  /** The position of the first occurrence of the descriptor `t` itself. */
  function IndexOfStruct(ts: seq<TypeInfo>, t: TypeInfo): (k: nat)
    ensures k <= |ts|
    ensures k < |ts| ==> ts[k] == t
    ensures forall i :: 0 <= i < k ==> ts[i] != t
  {
    if ts == [] then 0 else if ts[0] == t then 0 else 1 + IndexOfStruct(ts[1..], t)
  }

  lemma MoveToFrontPermutes<T>(s: seq<T>, k: nat)
    requires k < |s|
    ensures multiset(MoveToFront(s, k)) == multiset(s)
    ensures MoveToFront(s, k)[0] == s[k]
    ensures MoveToFront(s, k)[1..] == s[..k] + s[k + 1..]
  {
    assert s == s[..k] + [s[k]] + s[k + 1..];
    assert multiset(s) == multiset(s[..k]) + multiset([s[k]]) + multiset(s[k + 1..]);
  }

  lemma MoveToFrontMembers<T>(s: seq<T>, k: nat)
    requires k < |s|
    ensures forall x :: x in MoveToFront(s, k) ==> x in s
  {
  }

  lemma MovedNodes<T>(s: seq<T>, k: nat)
    requires k < |s|
    ensures (set x | x in MoveToFront(s, k)) == set x | x in s
  {
    forall x | x in s
      ensures x in MoveToFront(s, k)
    {
      var i :| 0 <= i < |s| && s[i] == x;
      assert MoveToFront(s, k)[if i == k then 0 else if i < k then i + 1 else i] == x;
    }
  }

  // ---------- the list in memory ----------

  ghost function Nodes(t: TypeInfo): set<CastInfo>
    reads t`chain
  {
    set c | c in t.chain
  }

  /**
   * `t.chain` is the list that starts at `t.cast`, linked both ways and owned by `t`. Every record keeps
   * the name of the source it was declared with.
   */
  ghost predicate ListValid(t: TypeInfo)
    reads t`cast, t`chain, t`sources, Nodes(t)
  {
    && |t.sources| == |t.chain|
    && t.cast == (if t.chain == [] then null else t.chain[0])
    && (forall i :: 0 <= i < |t.chain| ==> Linked(t, i))
  }

  /** `cast` is a record of `t` that points at `source`, which has the name that the record declares. */
  ghost predicate Owned(cast: CastInfo, source: TypeInfo, t: TypeInfo)
    reads cast`ty, cast`owner
  {
    cast.ty == source && source.name == cast.declared.name && cast.owner == t
  }

  ghost predicate Linked(t: TypeInfo, i: nat)
    requires i < |t.chain| == |t.sources|
    reads t`cast, t`chain, t`sources, Nodes(t)
  {
    && Owned(t.chain[i], t.sources[i], t)
    && t.chain[i].next == (if i + 1 < |t.chain| then t.chain[i + 1] else null)
    && t.chain[i].prev == (if 0 < i then t.chain[i - 1] else null)
  }

  /** The links leave no room for a node to occur twice: the list is acyclic. */
  lemma {:induction false} NodesDistinct(t: TypeInfo, i: nat, j: nat)
    requires ListValid(t) && i < j < |t.chain|
    ensures t.chain[i] != t.chain[j]
    decreases i
  {
    assert Linked(t, i) && Linked(t, j);
    if i > 0 {
      NodesDistinct(t, i - 1, j - 1);
    }
  }

  /** The types that cast to `t` without a converter. */
  ghost function Plain(t: TypeInfo): set<TypeInfo>
    reads t`chain, t`sources
  {
    PlainSources(t.chain, t.sources)
  }

  ghost function PlainSources(chain: seq<CastInfo>, sources: seq<TypeInfo>): set<TypeInfo> {
    set i | 0 <= i < |chain| && i < |sources| && chain[i].converter.None? :: sources[i]
  }

  lemma PlainMoved(chain: seq<CastInfo>, sources: seq<TypeInfo>, k: nat)
    requires k < |chain| == |sources|
    ensures PlainSources(MoveToFront(chain, k), MoveToFront(sources, k)) == PlainSources(chain, sources)
  {
    var chain', sources' := MoveToFront(chain, k), MoveToFront(sources, k);
    forall x | x in PlainSources(chain, sources)
      ensures x in PlainSources(chain', sources')
    {
      var i :| 0 <= i < |chain| && chain[i].converter.None? && sources[i] == x;
      var j := if i == k then 0 else if i < k then i + 1 else i;
      assert chain'[j] == chain[i] && sources'[j] == x;
    }
    forall x | x in PlainSources(chain', sources')
      ensures x in PlainSources(chain, sources)
    {
      var j :| 0 <= j < |chain'| && chain'[j].converter.None? && sources'[j] == x;
      var i := if j == 0 then k else if j <= k then j - 1 else j;
      assert chain[i] == chain'[j] && sources[i] == x;
    }
  }

  lemma MoveHeadToFront<T>(s: seq<T>)
    requires s != []
    ensures MoveToFront(s, 0) == s
  {
  }

  /** The links of node `i` of `chain` once node `k` has been moved to the front. */
  ghost predicate Relinked(chain: seq<CastInfo>, k: nat, i: nat)
    requires 0 < k < |chain| && i < |chain|
    reads chain[i]
  {
    var behind := if k + 1 < |chain| then chain[k + 1] else null;
    && chain[i].next == (if i == k then chain[0] else if i + 1 == k then behind
                         else if i + 1 < |chain| then chain[i + 1] else null)
    && chain[i].prev == (if i == k then null else if i == 0 then chain[k]
                         else if i == k + 1 then chain[k - 1] else chain[i - 1])
  }

  /** Unlinks `iter` and relinks it in front of the list. */
  method Relink(iter: CastInfo, ty: TypeInfo, ghost k: nat)
    requires ListValid(ty) && 0 < k < |ty.chain| && iter == ty.chain[k]
    modifies ty`cast, Nodes(ty)`next, Nodes(ty)`prev
    ensures ty.cast == iter && forall i :: 0 <= i < |ty.chain| ==> Relinked(ty.chain, k, i)
  {
    hide Owned;
    ghost var chain := ty.chain;
    forall i, j | 0 <= i < j < |chain|
      ensures chain[i] != chain[j]
    {
      NodesDistinct(ty, i, j);
    }
    assert Linked(ty, k) && Linked(ty, k - 1) && (k + 1 < |chain| ==> Linked(ty, k + 1)) && Linked(ty, 0);
    iter.prev.next := iter.next;
    if iter.next != null {
      iter.next.prev := iter.prev;
    }
    iter.next := ty.cast;
    iter.prev := null;
    if ty.cast != null {
      ty.cast.prev := iter;
    }
    ty.cast := iter;
    forall i | 0 <= i < |chain|
      ensures Relinked(chain, k, i)
    {
      assert old(Linked(ty, i));
    }
  }

  /** Those links are the links of the list with node `k` in front. */
  lemma RelinkedList(ty: TypeInfo, chain: seq<CastInfo>, sources: seq<TypeInfo>, k: nat)
    requires 0 < k < |chain| == |sources| && ty.cast == chain[k]
    requires forall i :: 0 <= i < |chain| ==>
               Relinked(chain, k, i) && Owned(chain[i], sources[i], ty)
    requires ty.chain == MoveToFront(chain, k) && ty.sources == MoveToFront(sources, k)
    ensures ListValid(ty)
  {
    hide MoveToFront, Owned;
    MovedAt(chain, k);
    MovedAt(sources, k);
    forall i | 0 <= i < |chain|
      ensures Linked(ty, i)
    {
      assert Relinked(chain, k, if i == 0 then k else if i <= k then i - 1 else i);
    }
  }

  /** The same on the list as a value. */
  method Promote(iter: CastInfo, ty: TypeInfo, ghost k: nat)
    requires ListValid(ty) && 0 < k < |ty.chain| && iter == ty.chain[k]
    modifies ty`cast, ty`chain, ty`sources, Nodes(ty)`next, Nodes(ty)`prev
    ensures ListValid(ty) && ty.chain == MoveToFront(old(ty.chain), k) && ty.cast == iter
    ensures ty.sources == MoveToFront(old(ty.sources), k)
    ensures Nodes(ty) == old(Nodes(ty)) && Plain(ty) == old(Plain(ty))
  {
    hide MoveToFront, Relinked;
    ghost var chain, sources := ty.chain, ty.sources;
    forall i | 0 <= i < |chain|
      ensures Owned(chain[i], sources[i], ty)
    {
      assert Linked(ty, i);
    }
    Relink(iter, ty, k);
    ty.chain, ty.sources := MoveToFront(chain, k), MoveToFront(sources, k);
    RelinkedList(ty, chain, sources, k);
    MovedNodes(chain, k);
    PlainMoved(chain, sources, k);
  }

  /** `SWIG_TypeCheck`: the cast from the type named `c`, moved to the front of the list. */
  method TypeCheck(c: CString, ty: TypeInfo) returns (r: CastInfo?)
    requires ListValid(ty)
    modifies ty`cast, ty`chain, ty`sources, Nodes(ty)`next, Nodes(ty)`prev
    ensures ListValid(ty)
    ensures var k := IndexOf(old(ty.sources), c);
            if k == |old(ty.chain)| then r == null && ty.chain == old(ty.chain) && ty.sources == old(ty.sources)
            else
              && r == old(ty.chain)[k] && ty.chain == MoveToFront(old(ty.chain), k)
              && ty.sources == MoveToFront(old(ty.sources), k)
    ensures Nodes(ty) == old(Nodes(ty)) && Plain(ty) == old(Plain(ty))
    ensures r != null ==> ty.cast == r && r in Nodes(ty) && r.ty.name == r.declared.name == c
  {
    var iter := ty.cast;
    ghost var k: nat := 0;
    ghost var ts := ty.sources;
    forall t | t in ts
      ensures StrCmp(t.name, c) == 0 <==> t.name == c
    {
      LexZeroIsEqual(false, t.name, c);
    }
    while iter != null
      invariant k <= |ty.chain| && iter == (if k < |ty.chain| then ty.chain[k] else null)
      invariant forall i :: 0 <= i < k ==> ts[i].name != c
      decreases |ty.chain| - k
    {
      assert Linked(ty, k);
      if StrCmp(iter.ty.name, c) == 0 {
        assert IndexOf(ts, c) == k;
        if iter != ty.cast {
          Promote(iter, ty, k);
        } else {
          if k > 0 {
            NodesDistinct(ty, 0, k);
          }
          assert k == 0;
          MoveHeadToFront(ty.chain);
          MoveHeadToFront(ts);
        }
        return iter;
      }
      iter, k := iter.next, k + 1;
    }
    r := null;
  }

  /** `SWIG_TypeCheckStruct`: as `TypeCheck`, but it compares descriptors instead of names. */
  method TypeCheckStruct(from: TypeInfo, ty: TypeInfo) returns (r: CastInfo?)
    requires ListValid(ty)
    modifies ty`cast, ty`chain, ty`sources, Nodes(ty)`next, Nodes(ty)`prev
    ensures ListValid(ty)
    ensures var k := IndexOfStruct(old(ty.sources), from);
            if k == |old(ty.chain)| then r == null && ty.chain == old(ty.chain) && ty.sources == old(ty.sources)
            else
              && r == old(ty.chain)[k] && ty.chain == MoveToFront(old(ty.chain), k)
              && ty.sources == MoveToFront(old(ty.sources), k)
    ensures Nodes(ty) == old(Nodes(ty)) && Plain(ty) == old(Plain(ty))
    ensures r != null ==> ty.cast == r && r in Nodes(ty) && r.ty == from && r.declared.name == from.name
  {
    var iter := ty.cast;
    ghost var k: nat := 0;
    ghost var ts := ty.sources;
    while iter != null
      invariant k <= |ty.chain| && iter == (if k < |ty.chain| then ty.chain[k] else null)
      invariant forall i :: 0 <= i < k ==> ts[i] != from
      decreases |ty.chain| - k
    {
      assert Linked(ty, k);
      if iter.ty == from {
        assert IndexOfStruct(ts, from) == k;
        if iter != ty.cast {
          Promote(iter, ty, k);
        } else {
          if k > 0 {
            NodesDistinct(ty, 0, k);
          }
          assert k == 0;
          MoveHeadToFront(ty.chain);
          MoveHeadToFront(ts);
        }
        return iter;
      }
      iter, k := iter.next, k + 1;
    }
    r := null;
  }

  /** Links a fresh record in at the head of the list, as `SWIG_InitializeModule` does. */
  method InsertCast(cast: CastInfo, ty: TypeInfo)
    requires ListValid(ty) && cast.owner == null && cast.next == null && cast.prev == null
    requires cast.ty.name == cast.declared.name
    modifies ty`cast, ty`chain, ty`sources, cast`next, cast`owner, Nodes(ty)`prev
    ensures ListValid(ty) && ty.chain == [cast] + old(ty.chain) && cast.owner == ty
    ensures ty.sources == [cast.ty] + old(ty.sources)
  {
    ghost var chain := ty.chain;
    forall i | 0 <= i < |chain|
      ensures Linked(ty, i) && chain[i] != cast && (i > 0 ==> chain[i] != chain[0])
    {
      assert Linked(ty, i) && Linked(ty, 0);
    }
    if ty.cast != null {
      assert Linked(ty, 0);
      ty.cast.prev := cast;
      cast.next := ty.cast;
    }
    ty.cast := cast;
    cast.owner := ty;
    ty.chain, ty.sources := [cast] + chain, [cast.ty] + ty.sources;
    forall i | 0 <= i < |ty.chain|
      ensures Linked(ty, i)
    {
      if i > 0 {
        assert old(Linked(ty, i - 1));
      }
    }
  }
}
