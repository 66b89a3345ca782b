/**
 * The registry as a value: which modules are loaded, which descriptor is the shared one for each
 * mangled name, and from which descriptors each shared descriptor can be cast.
 */
module Registry {
  import opened CStrings
  import opened CastLists

  /** `swig_module_info`: the generated arrays, and the table the loader fills in. */
  class ModuleInfo {
    const typeInitial: seq<TypeInfo>
    const castInitial: seq<seq<CastInfo>>
    var types: seq<TypeInfo?>
    var next: ModuleInfo?
    var propagated: bool

    constructor (typeInitial: seq<TypeInfo>, castInitial: seq<seq<CastInfo>>)
      ensures this.typeInitial == typeInitial && this.castInitial == castInitial
      ensures next == null && !propagated && |types| == |typeInitial| + 1
    {
      this.typeInitial, this.castInitial := typeInitial, castInitial;
      types := seq(|typeInitial| + 1, _ => null);
      next, propagated := null, false;
    }
  }

  // ---------- what one module declares ----------

  ghost predicate Has(m: ModuleInfo, n: CString) {
    exists i :: 0 <= i < |m.typeInitial| && m.typeInitial[i].name == n
  }

  ghost predicate InRow(row: seq<CastInfo>, c: CString) {
    exists j :: 0 <= j < |row| && row[j].declared.name == c
  }

  ghost predicate Declares(m: ModuleInfo, c: CString, t: CString) {
    exists i ::
      0 <= i < |m.typeInitial| && i < |m.castInitial| && m.typeInitial[i].name == t && InRow(m.castInitial[i], c)
  }

  predicate Before(ts: seq<TypeInfo>, i: nat, j: nat)
    requires i < |ts| && j < |ts|
  {
    StrCmp(ts[i].name, ts[j].name) < 0
  }

  /** Strictly sorted by `strcmp` on the mangled names. */
  predicate Sorted(ts: seq<TypeInfo>) {
    forall i, j :: 0 <= i < j < |ts| ==> Before(ts, i, j)
  }

  lemma SortedPair(ts: seq<TypeInfo>, i: nat, j: nat)
    requires Sorted(ts) && i < j < |ts|
    ensures StrCmp(ts[i].name, ts[j].name) < 0 < StrCmp(ts[j].name, ts[i].name)
  {
    assert Before(ts, i, j);
    LexAntisymmetric(false, ts[i].name, ts[j].name);
  }

  /** What the generator guarantees: a sorted type table, and rows over the module's own types. */
  ghost predicate WellFormed(m: ModuleInfo) {
    && |m.castInitial| == |m.typeInitial|
    && Sorted(m.typeInitial)
    && (forall i :: 0 <= i < |m.castInitial| ==> RowWellFormed(m, m.castInitial[i]))
  }

  ghost predicate RowWellFormed(m: ModuleInfo, row: seq<CastInfo>) {
    && (forall j :: 0 <= j < |row| ==> row[j].declared in m.typeInitial)
    && (forall j, k :: 0 <= j < k < |row| ==> row[j].declared.name != row[k].declared.name)
  }

  lemma NamesDistinct(m: ModuleInfo, i: nat, j: nat)
    requires WellFormed(m) && i < |m.typeInitial| && j < |m.typeInitial|
    requires m.typeInitial[i].name == m.typeInitial[j].name
    ensures i == j
  {
    LexZeroIsEqual(false, m.typeInitial[i].name, m.typeInitial[j].name);
    if i < j {
      SortedPair(m.typeInitial, i, j);
    } else if j < i {
      SortedPair(m.typeInitial, j, i);
    }
  }

  lemma NameOnlyAt(m: ModuleInfo, i: nat)
    requires WellFormed(m) && i < |m.typeInitial|
    ensures forall j :: 0 <= j < |m.typeInitial| && j != i ==> m.typeInitial[j].name != m.typeInitial[i].name
  {
    forall j | 0 <= j < |m.typeInitial| && j != i
      ensures m.typeInitial[j].name != m.typeInitial[i].name
    {
      if m.typeInitial[j].name == m.typeInitial[i].name {
        NamesDistinct(m, i, j);
      }
    }
  }

  // ---------- the registry and its steps ----------

  datatype Registry = Registry(
    loads: seq<ModuleInfo>,
    ring: seq<ModuleInfo>,
    live: map<CString, TypeInfo>,
    chains: map<CString, seq<TypeInfo>>,
    cache: map<CString, TypeInfo>)

  const Empty := Registry([], [], map[], map[], map[])

  /** The shared descriptors after the first `k` slots of `m`. */
  ghost function NewLive(live: map<CString, TypeInfo>, m: ModuleInfo, k: nat): map<CString, TypeInfo>
    requires k <= |m.typeInitial|
  {
    if k == 0 then live
    else
      var p := NewLive(live, m, k - 1);
      var t := m.typeInitial[k - 1];
      if t.name in p then p else p[t.name := t]
  }

  /** Where a record of a row for `t` points once it is linked in: only a new type redirects it. */
  ghost function Target(live: map<CString, TypeInfo>, t: CString, x: TypeInfo): TypeInfo {
    if t !in live && x.name in live then live[x.name] else x
  }

  /** Bring the cast from `x` to the front, adding it when it is not there. */
  function Touch(chain: seq<TypeInfo>, x: TypeInfo): seq<TypeInfo> {
    var k := IndexOf(chain, x.name);
    if k < |chain| then MoveToFront(chain, k) else [x] + chain
  }

  ghost function TouchRow(live: map<CString, TypeInfo>, t: CString, chain: seq<TypeInfo>, row: seq<CastInfo>,
          j: nat): seq<TypeInfo>
    requires j <= |row|
  {
    if j == 0 then chain else Touch(TouchRow(live, t, chain, row, j - 1), Target(live, t, row[j - 1].declared))
  }

  ghost function ChainOf(chains: map<CString, seq<TypeInfo>>, n: CString): seq<TypeInfo> {
    if n in chains then chains[n] else []
  }

  /** The cast lists before any row of `m` is read: a new type's list is empty. */
  ghost function NewChains(s: Registry, m: ModuleInfo): map<CString, seq<TypeInfo>> {
    map n | n in NewLive(s.live, m, |m.typeInitial|).Keys :: ChainOf(s.chains, n)
  }

  /** The cast lists after the first `k` rows of `m`. */
  ghost function LoadChains(s: Registry, m: ModuleInfo, k: nat): map<CString, seq<TypeInfo>>
    requires k <= |m.typeInitial| == |m.castInitial|
  {
    if k == 0 then NewChains(s, m)
    else
      var p := LoadChains(s, m, k - 1);
      var t := m.typeInitial[k - 1].name;
      p[t := TouchRow(s.live, t, ChainOf(p, t), m.castInitial[k - 1], |m.castInitial[k - 1]|)]
  }

  function Splice(ring: seq<ModuleInfo>, m: ModuleInfo): seq<ModuleInfo> {
    if ring == [] then [m] else [ring[0], m] + ring[1..]
  }

  /** `SWIG_InitializeModule` on the registry. */
  ghost function Load(s: Registry, m: ModuleInfo): Registry
    requires |m.typeInitial| == |m.castInitial|
  {
    if m in s.ring then s
    else Registry(s.loads + [m], Splice(s.ring, m), NewLive(s.live, m, |m.typeInitial|),
                  LoadChains(s, m, |m.typeInitial|), s.cache)
  }

  // ---------- what the parts of a load do ----------

  lemma {:induction false} NewLiveAll(live: map<CString, TypeInfo>, m: ModuleInfo, k: nat)
    requires WellFormed(m) && k <= |m.typeInitial|
    ensures forall n :: n in live ==> n in NewLive(live, m, k) && NewLive(live, m, k)[n] == live[n]
    ensures forall n :: n in NewLive(live, m, k) && n !in live ==>
              exists i :: 0 <= i < k && m.typeInitial[i].name == n && NewLive(live, m, k)[n] == m.typeInitial[i]
    ensures forall i :: 0 <= i < k ==> m.typeInitial[i].name in NewLive(live, m, k)
  {
    if k > 0 {
      NewLiveAll(live, m, k - 1);
      var p, q := NewLive(live, m, k - 1), NewLive(live, m, k);
      forall n | n in q && n !in live
        ensures exists i :: 0 <= i < k && m.typeInitial[i].name == n && q[n] == m.typeInitial[i]
      {
        if n in p {
          var i :| 0 <= i < k - 1 && m.typeInitial[i].name == n && p[n] == m.typeInitial[i];
        } else {
          assert q[n] == m.typeInitial[k - 1];
        }
      }
    }
  }

  /** A slot of `m` holds the descriptor loaded before under its name, or `m`'s own. */
  lemma NewLiveSlot(live: map<CString, TypeInfo>, m: ModuleInfo, i: nat)
    requires WellFormed(m) && i < |m.typeInitial|
    ensures var t := m.typeInitial[i]; var q := NewLive(live, m, |m.typeInitial|);
            t.name in q && q[t.name] == if t.name in live then live[t.name] else t
  {
    NewLiveAll(live, m, |m.typeInitial|);
    var n := m.typeInitial[i].name;
    var q := NewLive(live, m, |m.typeInitial|);
    if n !in live {
      var j :| 0 <= j < |m.typeInitial| && m.typeInitial[j].name == n && q[n] == m.typeInitial[j];
      NamesDistinct(m, i, j);
    }
  }

  lemma NewLiveHas(live: map<CString, TypeInfo>, m: ModuleInfo, i: nat)
    requires WellFormed(m) && i < |m.typeInitial|
    ensures m.typeInitial[i].name in NewLive(live, m, |m.typeInitial|)
  {
    NewLiveAll(live, m, |m.typeInitial|);
  }

  lemma {:induction false} LoadChainsKeys(s: Registry, m: ModuleInfo, k: nat)
    requires WellFormed(m) && k <= |m.typeInitial|
    ensures LoadChains(s, m, k).Keys == NewLive(s.live, m, |m.typeInitial|).Keys
  {
    if k > 0 {
      LoadChainsKeys(s, m, k - 1);
      NewLiveHas(s.live, m, k - 1);
    }
  }

  /** What row `k` does: it changes the list of its own type only. */
  lemma LoadChainsRow(s: Registry, m: ModuleInfo, k: nat)
    requires k < |m.typeInitial| == |m.castInitial|
    ensures var p, n, row := LoadChains(s, m, k), m.typeInitial[k].name, m.castInitial[k];
            LoadChains(s, m, k + 1) == p[n := TouchRow(s.live, n, ChainOf(p, n), row, |row|)]
  {
  }

  lemma LoadChainsSkip(s: Registry, m: ModuleInfo, k: nat, n: CString)
    requires k < |m.typeInitial| == |m.castInitial| && m.typeInitial[k].name != n
    ensures ChainOf(LoadChains(s, m, k + 1), n) == ChainOf(LoadChains(s, m, k), n)
  {
    LoadChainsRow(s, m, k);
  }

  lemma {:induction false} Constant<T>(vals: seq<T>, from: nat, k: nat)
    requires from <= k < |vals| && forall i :: from <= i < k ==> vals[i + 1] == vals[i]
    ensures vals[k] == vals[from]
    decreases k - from
  {
    if from < k {
      Constant(vals, from + 1, k);
      assert vals[from + 1] == vals[from];
    }
  }

  lemma {:induction false} LoadChainsElsewhere(s: Registry, m: ModuleInfo, from: nat, k: nat, n: CString)
    requires from <= k <= |m.typeInitial| == |m.castInitial|
    requires forall i :: from <= i < k ==> m.typeInitial[i].name != n
    ensures ChainOf(LoadChains(s, m, k), n) == ChainOf(LoadChains(s, m, from), n)
  {
    var vals := seq(k + 1, i requires 0 <= i <= k => ChainOf(LoadChains(s, m, i), n));
    forall i | from <= i < k
      ensures vals[i + 1] == vals[i]
    {
      LoadChainsSkip(s, m, i, n);
    }
    Constant(vals, from, k);
  }

  lemma NewChainsOf(s: Registry, m: ModuleInfo, n: CString)
    requires WellFormed(m) && s.chains.Keys == s.live.Keys
    ensures ChainOf(NewChains(s, m), n) == ChainOf(s.chains, n)
  {
    NewLiveAll(s.live, m, |m.typeInitial|);
  }

  /** A type that `m` does not mention keeps its list. */
  lemma LoadChainsOther(s: Registry, m: ModuleInfo, k: nat, n: CString)
    requires WellFormed(m) && k <= |m.typeInitial| && s.chains.Keys == s.live.Keys
    requires forall i :: 0 <= i < k ==> m.typeInitial[i].name != n
    ensures ChainOf(LoadChains(s, m, k), n) == ChainOf(s.chains, n)
  {
    LoadChainsElsewhere(s, m, 0, k, n);
    NewChainsOf(s, m, n);
  }

  /** The list of slot `i`'s type is its old list with the whole row touched. */
  lemma LoadChainsAt(s: Registry, m: ModuleInfo, i: nat)
    requires WellFormed(m) && i < |m.typeInitial| && s.chains.Keys == s.live.Keys
    ensures var n := m.typeInitial[i].name; var row := m.castInitial[i];
            ChainOf(LoadChains(s, m, |m.typeInitial|), n) == TouchRow(s.live, n, ChainOf(s.chains, n), row, |row|)
  {
    var n := m.typeInitial[i].name;
    NameOnlyAt(m, i);
    LoadChainsOther(s, m, i, n);
    LoadChainsRow(s, m, i);
    LoadChainsElsewhere(s, m, i + 1, |m.typeInitial|, n);
  }

  // ---------- names in a list ----------

  ghost predicate Castable(chain: seq<TypeInfo>, c: CString) {
    exists i :: 0 <= i < |chain| && chain[i].name == c
  }

  ghost predicate NoDuplicates(chain: seq<TypeInfo>) {
    forall i, j :: 0 <= i < j < |chain| ==> chain[i].name != chain[j].name
  }

  /** Where element `i` of a list is after element `k` was moved to its front. */
  lemma MovedIndex(chain: seq<TypeInfo>, k: nat, i: nat)
    requires k < |chain| && i < |chain|
    ensures var r := MoveToFront(chain, k);
            && r[if i == k then 0 else if i < k then i + 1 else i] == chain[i]
            && r[i] == chain[if i == 0 then k else if i <= k then i - 1 else i]
  {
  }

  lemma MovedMember(chain: seq<TypeInfo>, k: nat, x: TypeInfo)
    requires k < |chain|
    ensures x in MoveToFront(chain, k) <==> x in chain
  {
    if i :| 0 <= i < |chain| && chain[i] == x {
      MovedIndex(chain, k, i);
    }
    if i :| 0 <= i < |chain| && MoveToFront(chain, k)[i] == x {
      MovedIndex(chain, k, i);
    }
  }

  lemma MovedName(chain: seq<TypeInfo>, k: nat, c: CString)
    requires k < |chain|
    ensures Castable(MoveToFront(chain, k), c) <==> Castable(chain, c)
  {
    if i :| 0 <= i < |chain| && chain[i].name == c {
      MovedIndex(chain, k, i);
    }
    if i :| 0 <= i < |chain| && MoveToFront(chain, k)[i].name == c {
      MovedIndex(chain, k, i);
    }
  }

  lemma PromoteKeepsNames(chain: seq<TypeInfo>, k: nat)
    requires k < |chain| && NoDuplicates(chain)
    ensures NoDuplicates(MoveToFront(chain, k))
    ensures forall x :: x in MoveToFront(chain, k) <==> x in chain
    ensures forall c :: Castable(MoveToFront(chain, k), c) <==> Castable(chain, c)
  {
    var r := MoveToFront(chain, k);
    forall i, j | 0 <= i < j < |r|
      ensures r[i].name != r[j].name
    {
      MovedIndex(chain, k, i);
      MovedIndex(chain, k, j);
    }
    forall x
      ensures x in r <==> x in chain
    {
      MovedMember(chain, k, x);
    }
    forall c
      ensures Castable(r, c) <==> Castable(chain, c)
    {
      MovedName(chain, k, c);
    }
  }

  lemma InFrontKeepsNames(chain: seq<TypeInfo>, x: TypeInfo)
    requires NoDuplicates(chain) && !Castable(chain, x.name)
    ensures NoDuplicates([x] + chain)
    ensures forall c :: Castable([x] + chain, c) <==> Castable(chain, c) || c == x.name
    ensures forall y :: y in [x] + chain <==> y in chain || y == x
  {
    var r := [x] + chain;
    assert r[0] == x && forall i :: 0 <= i < |chain| ==> r[i + 1] == chain[i];
  }

  lemma TouchKeepsNames(chain: seq<TypeInfo>, x: TypeInfo)
    requires NoDuplicates(chain)
    ensures NoDuplicates(Touch(chain, x))
    ensures forall c :: Castable(Touch(chain, x), c) <==> Castable(chain, c) || c == x.name
    ensures forall y :: y in Touch(chain, x) ==> y in chain || (y == x && !Castable(chain, x.name))
    ensures forall y :: y in chain ==> y in Touch(chain, x)
  {
    var k := IndexOf(chain, x.name);
    if k < |chain| {
      PromoteKeepsNames(chain, k);
    } else {
      InFrontKeepsNames(chain, x);
    }
  }
}
