/** What every run of loads and lookups keeps true of the registry. */
module RegistryRuns {
  import opened CStrings
  import opened TypeNames
  import opened CastLists
  import opened Registry
  import opened Queries

  // ---------- what a sequence of loaded modules declares ----------

  ghost predicate Known(loads: seq<ModuleInfo>, n: CString) {
    exists m :: m in loads && Has(m, n)
  }

  ghost predicate Declared(loads: seq<ModuleInfo>, c: CString, t: CString) {
    exists m :: m in loads && Declares(m, c, t)
  }

  ghost predicate InStatics(loads: seq<ModuleInfo>, t: TypeInfo) {
    exists m :: m in loads && t in m.typeInitial
  }

  /** The first module to declare the cast from `c` to `t` found both types loaded already. */
  ghost predicate Late(loads: seq<ModuleInfo>, c: CString, t: CString) {
    loads != [] &&
    var before, m := loads[..|loads| - 1], loads[|loads| - 1];
    if Declared(before, c, t) then Late(before, c, t)
    else Declares(m, c, t) && Known(before, c) && Known(before, t)
  }

  /** `x` is the descriptor of the module that first declared the cast from its name to `t`. */
  ghost predicate FirstSource(loads: seq<ModuleInfo>, x: TypeInfo, t: CString) {
    loads != [] &&
    var before, m := loads[..|loads| - 1], loads[|loads| - 1];
    if Declared(before, x.name, t) then FirstSource(before, x, t) else Declares(m, x.name, t) && x in m.typeInitial
  }

  /** `r` is the record with which a cast to `t` was first declared: one of a row for `t`. */
  ghost predicate FirstRecord(loads: seq<ModuleInfo>, r: CastInfo, t: CString) {
    loads != [] &&
    var before, m := loads[..|loads| - 1], loads[|loads| - 1];
    if Declared(before, r.declared.name, t) then FirstRecord(before, r, t) else InRowOf(m, r, t)
  }

  /** `r` is the record with which the cast from `c` to `t` was first declared. */
  ghost predicate RecordOf(loads: seq<ModuleInfo>, r: CastInfo, c: CString, t: CString) {
    r.declared.name == c && FirstRecord(loads, r, t)
  }

  ghost predicate InRowOf(m: ModuleInfo, r: CastInfo, t: CString) {
    exists i :: 0 <= i < |m.typeInitial| && i < |m.castInitial| && m.typeInitial[i].name == t && r in m.castInitial[i]
  }

  lemma OneMore(loads: seq<ModuleInfo>, m: ModuleInfo, c: CString, t: CString)
    ensures Known(loads + [m], c) <==> Known(loads, c) || Has(m, c)
    ensures Declared(loads + [m], c, t) <==> Declared(loads, c, t) || Declares(m, c, t)
    ensures Late(loads + [m], c, t) <==>
              if Declared(loads, c, t) then Late(loads, c, t)
              else Declares(m, c, t) && Known(loads, c) && Known(loads, t)
  {
    var all := loads + [m];
    assert all[..|all| - 1] == loads && all[|all| - 1] == m;
    assert forall x :: x in all <==> x in loads || x == m;
  }

  lemma FirstSourceOneMore(loads: seq<ModuleInfo>, m: ModuleInfo, x: TypeInfo, t: CString)
    ensures FirstSource(loads + [m], x, t) <==>
              if Declared(loads, x.name, t) then FirstSource(loads, x, t)
              else Declares(m, x.name, t) && x in m.typeInitial
  {
    var all := loads + [m];
    assert all[..|all| - 1] == loads && all[|all| - 1] == m;
  }

  lemma FirstRecordOneMore(loads: seq<ModuleInfo>, m: ModuleInfo, r: CastInfo, t: CString)
    ensures FirstRecord(loads + [m], r, t) <==>
              if Declared(loads, r.declared.name, t) then FirstRecord(loads, r, t) else InRowOf(m, r, t)
  {
    var all := loads + [m];
    assert all[..|all| - 1] == loads && all[|all| - 1] == m;
  }

  lemma {:induction false} FirstRecordDeclares(loads: seq<ModuleInfo>, r: CastInfo, t: CString)
    requires FirstRecord(loads, r, t)
    ensures Declared(loads, r.declared.name, t)
    ensures exists m :: m in loads && InRowOf(m, r, t)
  {
    var before, m := loads[..|loads| - 1], loads[|loads| - 1];
    assert loads == before + [m];
    if Declared(before, r.declared.name, t) {
      FirstRecordDeclares(before, r, t);
    } else {
      assert m in loads && InRowOf(m, r, t);
      RecordDeclares(m, r, t);
    }
  }

  lemma RecordDeclares(m: ModuleInfo, r: CastInfo, t: CString)
    requires InRowOf(m, r, t)
    ensures Declares(m, r.declared.name, t)
  {
    var i :| 0 <= i < |m.typeInitial| && i < |m.castInitial| && m.typeInitial[i].name == t && r in m.castInitial[i];
    var j :| 0 <= j < |m.castInitial[i]| && m.castInitial[i][j] == r;
    assert InRow(m.castInitial[i], r.declared.name);
  }

  /** There is one such record for a source and a type, so it has one converter. */
  lemma {:induction false} FirstRecordUnique(loads: seq<ModuleInfo>, r: CastInfo, r': CastInfo, t: CString)
    requires forall m :: m in loads ==> WellFormed(m)
    requires FirstRecord(loads, r, t) && FirstRecord(loads, r', t) && r.declared.name == r'.declared.name
    ensures r == r'
  {
    var before, m := loads[..|loads| - 1], loads[|loads| - 1];
    if Declared(before, r.declared.name, t) {
      FirstRecordUnique(before, r, r', t);
    } else {
      RowRecordUnique(m, r, r', t);
    }
  }

  lemma RowRecordUnique(m: ModuleInfo, r: CastInfo, r': CastInfo, t: CString)
    requires WellFormed(m) && InRowOf(m, r, t) && InRowOf(m, r', t) && r.declared.name == r'.declared.name
    ensures r == r'
  {
    var i :| 0 <= i < |m.typeInitial| && m.typeInitial[i].name == t && r in m.castInitial[i];
    var i' :| 0 <= i' < |m.typeInitial| && m.typeInitial[i'].name == t && r' in m.castInitial[i'];
    NamesDistinct(m, i, i');
    assert RowWellFormed(m, m.castInitial[i]);
  }

  lemma {:induction false} FirstSourceUnique(loads: seq<ModuleInfo>, x: TypeInfo, y: TypeInfo, t: CString)
    requires forall m :: m in loads ==> WellFormed(m)
    requires FirstSource(loads, x, t) && FirstSource(loads, y, t) && x.name == y.name
    ensures x == y
  {
    var before, m := loads[..|loads| - 1], loads[|loads| - 1];
    if Declared(before, x.name, t) {
      FirstSourceUnique(before, x, y, t);
    } else {
      var i :| 0 <= i < |m.typeInitial| && m.typeInitial[i] == x;
      var j :| 0 <= j < |m.typeInitial| && m.typeInitial[j] == y;
      NamesDistinct(m, i, j);
    }
  }

  // ---------- invariants ----------

  ghost predicate Consistent(live: map<CString, TypeInfo>) {
    forall n :: n in live ==> live[n].name == n
  }

  ghost predicate Apart(a: ModuleInfo, b: ModuleInfo) {
    forall t :: t in a.typeInitial ==> t !in b.typeInitial
  }

  /** Each module is in the ring once: the first load leads, the others follow newest first. */
  ghost predicate RingInv(s: Registry) {
    && |s.ring| == |s.loads|
    && (s.loads != [] ==> s.ring[0] == s.loads[0])
    && (forall i :: 1 <= i < |s.loads| ==> s.ring[i] == s.loads[|s.loads| - i])
    && (forall i, j :: 0 <= i < j < |s.loads| ==> s.loads[i] != s.loads[j])
    && (forall m :: m in s.loads ==> WellFormed(m))
  }

  ghost predicate LiveInv(s: Registry) {
    && Consistent(s.live)
    && (forall n :: n in s.live <==> Known(s.loads, n))
    && (forall n :: n in s.live ==> InStatics(s.loads, s.live[n]))
  }

  /** The cast list of `t` holds each declared source once, and says which descriptor that is. */
  ghost predicate ChainInv(s: Registry, t: CString)
    requires t in s.chains
  {
    && NoDuplicates(s.chains[t])
    && (forall c :: Castable(s.chains[t], c) <==> Declared(s.loads, c, t))
    && (forall x :: x in s.chains[t] ==> TargetInv(s, t, x))
  }

  ghost predicate TargetInv(s: Registry, t: CString, x: TypeInfo) {
    && InStatics(s.loads, x)
    && x.name in s.live
    && (x == s.live[x.name] <==> !Late(s.loads, x.name, t))
    && (Late(s.loads, x.name, t) ==> FirstSource(s.loads, x, t))
  }

  ghost predicate ChainsInv(s: Registry) {
    s.chains.Keys == s.live.Keys && forall t :: t in s.chains ==> ChainInv(s, t)
  }

  ghost predicate Names(d: TypeInfo, q: CString) {
    d.name == q || (d.str.Some? && HasAlias(d.str.value, q))
  }

  ghost predicate CacheInv(s: Registry) {
    forall q :: q in s.cache ==>
      var d := s.cache[q]; d.name in s.live && s.live[d.name] == d && Names(d, q)
  }

  ghost predicate Inv(s: Registry) {
    RingInv(s) && LiveInv(s) && ChainsInv(s) && CacheInv(s)
  }

  lemma EachHasList(s: Registry)
    requires Inv(s)
    ensures s.chains.Keys == s.live.Keys
  {
  }

  // ---------- loading ----------

  lemma {:induction false} TouchRowNames(live: map<CString, TypeInfo>, t: CString, chain: seq<TypeInfo>,
          row: seq<CastInfo>, j: nat)
    requires Consistent(live) && NoDuplicates(chain) && j <= |row|
    ensures var r := TouchRow(live, t, chain, row, j);
            && NoDuplicates(r)
            && (forall c :: Castable(r, c) <==> Castable(chain, c) || InRow(row[..j], c))
  {
    if j > 0 {
      TouchRowNames(live, t, chain, row, j - 1);
      TouchKeepsNames(TouchRow(live, t, chain, row, j - 1), Target(live, t, row[j - 1].declared));
      assert row[..j] == row[..j - 1] + [row[j - 1]];
      forall c
        ensures InRow(row[..j], c) <==> InRow(row[..j - 1], c) || row[j - 1].declared.name == c
      {
        assert row[..j][j - 1] == row[j - 1];
        if InRow(row[..j - 1], c) {
          var k :| 0 <= k < j - 1 && row[..j - 1][k].declared.name == c;
          assert row[..j][k].declared.name == c;
        }
      }
    }
  }

  /** A list without the descriptor of that name. */
  ghost function Without(ts: seq<TypeInfo>, c: CString): (r: seq<TypeInfo>)
    ensures forall x :: x in r ==> x in ts
  {
    var k := IndexOf(ts, c);
    if k < |ts| then ts[..k] + ts[k + 1..] else ts
  }

  /** What is left of a list without the sources of the first `j` records of a row, in its order. */
  ghost function Behind(base: seq<TypeInfo>, row: seq<CastInfo>, j: nat): seq<TypeInfo>
    requires j <= |row|
  {
    if j == 0 then base else Without(Behind(base, row, j - 1), row[j - 1].declared.name)
  }

  lemma IndexBehind(front: seq<TypeInfo>, rest: seq<TypeInfo>, c: CString)
    requires forall i :: 0 <= i < |front| ==> front[i].name != c
    ensures IndexOf(front + rest, c) == |front| + IndexOf(rest, c)
  {
    var all, k := front + rest, IndexOf(rest, c);
    assert k < |rest| ==> all[|front| + k] == rest[k];
    forall i | 0 <= i < |front| + k
      ensures all[i].name != c
    {
      if i >= |front| {
        assert all[i] == rest[i - |front|];
      }
    }
  }

  lemma MovedBehind<T>(front: seq<T>, rest: seq<T>, k: nat)
    requires k < |rest|
    ensures var r := MoveToFront(front + rest, |front| + k);
            r[0] == rest[k] && r[1..] == front + (rest[..k] + rest[k + 1..])
  {
    var all := front + rest;
    assert all[..|front| + k] == front + rest[..k];
    assert all[|front| + k + 1..] == rest[k + 1..];
  }

  lemma TouchInFront(front: seq<TypeInfo>, rest: seq<TypeInfo>, x: TypeInfo)
    requires forall i :: 0 <= i < |front| ==> front[i].name != x.name
    ensures var r := Touch(front + rest, x);
            r != [] && r[0].name == x.name && r[1..] == front + Without(rest, x.name)
  {
    hide MoveToFront, IndexOf;
    IndexBehind(front, rest, x.name);
    var k := IndexOf(rest, x.name);
    if k < |rest| {
      MovedBehind(front, rest, k);
    }
  }

  lemma TargetName(live: map<CString, TypeInfo>, t: CString, x: TypeInfo)
    requires Consistent(live)
    ensures Target(live, t, x).name == x.name
  {
  }

  /** One more source in front. */
  lemma InFront(r: seq<TypeInfo>, front: seq<TypeInfo>, rest: seq<TypeInfo>, names: seq<CString>)
    requires names != [] && |front| == |names| - 1 && r != [] && r[1..] == front + rest
    requires r[0].name == names[|names| - 1]
    requires forall i :: 0 <= i < |front| ==> front[i].name == names[|front| - 1 - i]
    ensures |names| <= |r| && r[|names|..] == rest
    ensures forall i :: 0 <= i < |names| ==> r[i].name == names[|names| - 1 - i]
  {
    assert r == [r[0]] + front + rest;
  }

  /** The order of a merged list: the row's sources, the last one first, and then the rest of the list. */
  lemma {:induction false} RowOrder(live: map<CString, TypeInfo>, t: CString, base: seq<TypeInfo>,
          row: seq<CastInfo>, j: nat)
    requires Consistent(live) && j <= |row|
    requires forall i, k :: 0 <= i < k < |row| ==> row[i].declared.name != row[k].declared.name
    ensures var r := TouchRow(live, t, base, row, j);
            && j <= |r| && r[j..] == Behind(base, row, j)
            && forall i :: 0 <= i < j ==> r[i].name == row[j - 1 - i].declared.name
  {
    hide Touch, Target, Without, Consistent;
    if j > 0 {
      RowOrder(live, t, base, row, j - 1);
      var p, x := TouchRow(live, t, base, row, j - 1), Target(live, t, row[j - 1].declared);
      TargetName(live, t, row[j - 1].declared);
      assert p == p[..j - 1] + p[j - 1..];
      TouchInFront(p[..j - 1], p[j - 1..], x);
      var names := seq(j, i requires 0 <= i < j => row[i].declared.name);
      InFront(Touch(p, x), p[..j - 1], Without(p[j - 1..], x.name), names);
    }
  }

  lemma LastTarget(live: map<CString, TypeInfo>, t: CString, chain: seq<TypeInfo>, row: seq<CastInfo>, j: nat,
          y: TypeInfo)
    requires Consistent(live) && NoDuplicates(chain) && 0 < j <= |row|
    requires y in TouchRow(live, t, chain, row, j) && y !in TouchRow(live, t, chain, row, j - 1)
    ensures y == Target(live, t, row[j - 1].declared) && !Castable(chain, row[j - 1].declared.name)
  {
    hide NoDuplicates, Touch;
    var p := TouchRow(live, t, chain, row, j - 1);
    var x := Target(live, t, row[j - 1].declared);
    TouchRowNames(live, t, chain, row, j - 1);
    TouchKeepsNames(p, x);
    assert x.name == row[j - 1].declared.name;
  }

  /** A node of the new list is an old one, or the target of a record whose source was missing. */
  lemma {:induction false} TouchRowTargets(live: map<CString, TypeInfo>, t: CString, chain: seq<TypeInfo>,
          row: seq<CastInfo>, j: nat, y: TypeInfo)
    requires Consistent(live) && NoDuplicates(chain) && j <= |row|
    requires y in TouchRow(live, t, chain, row, j) && y !in chain
    ensures exists i :: 0 <= i < j && y == Target(live, t, row[i].declared) && !Castable(chain, row[i].declared.name)
  {
    var p := TouchRow(live, t, chain, row, j - 1);
    if y in p {
      TouchRowTargets(live, t, chain, row, j - 1, y);
    } else {
      LastTarget(live, t, chain, row, j, y);
    }
  }

  /** What a module must be like when it is loaded for the first time. */
  ghost predicate Loadable(s: Registry, m: ModuleInfo) {
    WellFormed(m) && forall x :: x in s.loads ==> Apart(x, m)
  }

  lemma LoadKeepsRing(s: Registry, m: ModuleInfo)
    requires RingInv(s) && m !in s.ring && WellFormed(m)
    ensures RingInv(Load(s, m))
  {
    var r := Load(s, m);
    forall x | x in s.loads
      ensures x in s.ring
    {
      var i :| 0 <= i < |s.loads| && s.loads[i] == x;
      assert i > 0 ==> s.ring[|s.loads| - i] == x;
    }
    if s.loads != [] {
      forall i | 1 <= i < |r.loads|
        ensures r.ring[i] == r.loads[|r.loads| - i]
      {
        if i > 1 {
          assert r.ring[i] == s.ring[i - 1] == s.loads[|s.loads| - (i - 1)];
        }
      }
    }
  }

  lemma InStaticsOneMore(loads: seq<ModuleInfo>, m: ModuleInfo, t: TypeInfo)
    ensures InStatics(loads + [m], t) <==> InStatics(loads, t) || t in m.typeInitial
  {
    assert forall x :: x in loads + [m] <==> x in loads || x == m;
  }

  lemma NewLiveFits(s: Registry, m: ModuleInfo, n: CString)
    requires LiveInv(s) && WellFormed(m)
    ensures var live := NewLive(s.live, m, |m.typeInitial|);
            && (n in live <==> Known(s.loads + [m], n))
            && (n in live ==> live[n].name == n && InStatics(s.loads + [m], live[n]))
  {
    var live := NewLive(s.live, m, |m.typeInitial|);
    OneMore(s.loads, m, n, n);
    NewLiveAll(s.live, m, |m.typeInitial|);
    if n in live {
      InStaticsOneMore(s.loads, m, live[n]);
    }
  }

  lemma LoadKeepsLive(s: Registry, m: ModuleInfo)
    requires LiveInv(s) && m !in s.ring && WellFormed(m)
    ensures LiveInv(Load(s, m))
  {
    forall n
      ensures var live := NewLive(s.live, m, |m.typeInitial|);
              && (n in live <==> Known(s.loads + [m], n))
              && (n in live ==> live[n].name == n && InStatics(s.loads + [m], live[n]))
    {
      NewLiveFits(s, m, n);
    }
  }

  lemma DeclaresAt(m: ModuleInfo, i: nat, c: CString)
    requires WellFormed(m) && i < |m.typeInitial|
    ensures Declares(m, c, m.typeInitial[i].name) <==> InRow(m.castInitial[i], c)
  {
    NameOnlyAt(m, i);
  }

  lemma LoadedChain(s: Registry, m: ModuleInfo, t: CString)
    requires Inv(s) && m !in s.ring && Loadable(s, m) && t in Load(s, m).live
    ensures var old', new' := ChainOf(s.chains, t), ChainOf(Load(s, m).chains, t);
            && NoDuplicates(new')
            && (forall c :: Castable(new', c) <==> Castable(old', c) || Declares(m, c, t))
  {
    var chain := ChainOf(s.chains, t);
    if i :| 0 <= i < |m.typeInitial| && m.typeInitial[i].name == t {
      var row := m.castInitial[i];
      LoadChainsAt(s, m, i);
      TouchRowNames(s.live, t, chain, row, |row|);
      assert row[..|row|] == row;
      forall c
        ensures Declares(m, c, t) <==> InRow(row, c)
      {
        DeclaresAt(m, i, c);
      }
    } else {
      LoadChainsOther(s, m, |m.typeInitial|, t);
    }
  }

  lemma DeclaredIsKnown(loads: seq<ModuleInfo>, c: CString, t: CString)
    ensures Declared(loads, c, t) ==> Known(loads, t)
  {
    forall m | m in loads && Declares(m, c, t)
      ensures Has(m, t)
    {
    }
  }

  /** Where a record of row `i` points: at the shared descriptor unless both types were known. */
  lemma TargetShared(s: Registry, m: ModuleInfo, i: nat, x: TypeInfo)
    requires RingInv(s) && LiveInv(s) && Loadable(s, m)
    requires i < |m.typeInitial| && x in m.typeInitial && m !in s.ring
    ensures var t := m.typeInitial[i].name; var y := Target(s.live, t, x); var r := Load(s, m);
            && y.name == x.name && InStatics(r.loads, y) && y.name in r.live
            && (y == r.live[y.name] <==> !(Known(s.loads, y.name) && Known(s.loads, t)))
  {
    var k :| 0 <= k < |m.typeInitial| && m.typeInitial[k] == x;
    var r := Load(s, m);
    NewLiveSlot(s.live, m, k);
    assert m in r.loads;
    if x.name in s.live {
      var d :| d in s.loads && s.live[x.name] in d.typeInitial;
      assert d in r.loads && Apart(d, m);
    }
  }

  /** A node that a load adds is the shared descriptor unless both types were loaded before. */
  lemma LoadedTarget(s: Registry, m: ModuleInfo, t: CString, y: TypeInfo)
    requires Inv(s) && m !in s.ring && Loadable(s, m)
    requires y in ChainOf(Load(s, m).chains, t) && y !in ChainOf(s.chains, t)
    ensures TargetInv(Load(s, m), t, y)
  {
    var chain := ChainOf(s.chains, t);
    if forall i :: 0 <= i < |m.typeInitial| ==> m.typeInitial[i].name != t {
      LoadChainsOther(s, m, |m.typeInitial|, t);
    }
    var i :| 0 <= i < |m.typeInitial| && m.typeInitial[i].name == t;
    var row := m.castInitial[i];
    LoadChainsAt(s, m, i);
    assert t in s.chains ==> ChainInv(s, t);
    TouchRowTargets(s.live, t, chain, row, |row|, y);
    var j :| 0 <= j < |row| && y == Target(s.live, t, row[j].declared) && !Castable(chain, row[j].declared.name);
    assert RowWellFormed(m, row);
    TargetShared(s, m, i, row[j].declared);
    assert InRow(row, y.name) && Declares(m, y.name, t);
    DeclaredIsKnown(s.loads, y.name, t);
    OneMore(s.loads, m, y.name, t);
    FirstSourceOneMore(s.loads, m, y, t);
  }

  lemma KeptTarget(s: Registry, m: ModuleInfo, t: CString, y: TypeInfo)
    requires Inv(s) && m !in s.ring && Loadable(s, m) && t in s.chains && y in s.chains[t]
    ensures TargetInv(Load(s, m), t, y)
  {
    assert ChainInv(s, t) && TargetInv(s, t, y);
    var i :| 0 <= i < |s.chains[t]| && s.chains[t][i] == y;
    assert Castable(s.chains[t], y.name);
    OneMore(s.loads, m, y.name, t);
    FirstSourceOneMore(s.loads, m, y, t);
    NewLiveAll(s.live, m, |m.typeInitial|);
    var x :| x in s.loads && y in x.typeInitial;
    assert x in Load(s, m).loads;
  }

  lemma LoadKeepsChain(s: Registry, m: ModuleInfo, t: CString)
    requires Inv(s) && m !in s.ring && Loadable(s, m) && t in Load(s, m).chains && t in Load(s, m).live
    ensures ChainInv(Load(s, m), t)
  {
    var r := Load(s, m);
    LoadedChain(s, m, t);
    forall c
      ensures Castable(r.chains[t], c) <==> Declared(r.loads, c, t)
    {
      OneMore(s.loads, m, c, t);
      DeclaredIsKnown(s.loads, c, t);
      assert t in s.chains ==> ChainInv(s, t);
    }
    forall y | y in r.chains[t]
      ensures TargetInv(r, t, y)
    {
      if y in ChainOf(s.chains, t) {
        KeptTarget(s, m, t, y);
      } else {
        LoadedTarget(s, m, t, y);
      }
    }
  }

  lemma LoadKeepsInv(s: Registry, m: ModuleInfo)
    requires Inv(s) && m !in s.ring && Loadable(s, m)
    ensures Inv(Load(s, m))
  {
    LoadKeepsRing(s, m);
    LoadKeepsLive(s, m);
    LoadChainsKeys(s, m, |m.typeInitial|);
    var r := Load(s, m);
    forall t | t in r.chains
      ensures ChainInv(r, t)
    {
      LoadKeepsChain(s, m, t);
    }
    NewLiveAll(s.live, m, |m.typeInitial|);
    assert CacheInv(r);
  }

  lemma PromoteKeepsInv(s: Registry, t: CString, k: nat)
    requires Inv(s) && t in s.chains && k < |s.chains[t]|
    ensures Inv(s.(chains := s.chains[t := MoveToFront(s.chains[t], k)]))
  {
    hide Declared, Late, FirstSource, Known, MoveToFront, NoDuplicates;
    var r := s.(chains := s.chains[t := MoveToFront(s.chains[t], k)]);
    assert ChainInv(s, t);
    PromoteKeepsNames(s.chains[t], k);
    forall u | u in r.chains
      ensures ChainInv(r, u)
    {
      assert ChainInv(s, u);
      forall x | x in r.chains[u]
        ensures TargetInv(r, u, x)
      {
        assert TargetInv(s, u, x);
      }
    }
  }

  // ---------- searching ----------

  ghost function Slot(live: map<CString, TypeInfo>, t: TypeInfo): TypeInfo {
    if t.name in live then live[t.name] else t
  }

  /** What a loaded module's type array holds. */
  ghost function Slots(live: map<CString, TypeInfo>, m: ModuleInfo): (ts: seq<TypeInfo>)
    ensures |ts| == |m.typeInitial|
    ensures forall i :: 0 <= i < |ts| ==> ts[i] == Slot(live, m.typeInitial[i])
  {
    seq(|m.typeInitial|, i requires 0 <= i < |m.typeInitial| => Slot(live, m.typeInitial[i]))
  }

  ghost function Tables(live: map<CString, TypeInfo>, ms: seq<ModuleInfo>): (tables: seq<seq<TypeInfo>>)
    ensures |tables| == |ms|
    ensures forall k :: 0 <= k < |ms| ==> tables[k] == Slots(live, ms[k])
  {
    seq(|ms|, k requires 0 <= k < |ms| => Slots(live, ms[k]))
  }

  lemma SortedByNames(a: seq<TypeInfo>, b: seq<TypeInfo>)
    requires Sorted(a) && |a| == |b| && forall i :: 0 <= i < |a| ==> a[i].name == b[i].name
    ensures Sorted(b)
  {
    forall i, j | 0 <= i < j < |b|
      ensures Before(b, i, j)
    {
      assert Before(a, i, j);
    }
  }

  /** Replacing initial descriptors by shared ones keeps a table sorted. */
  lemma SlotsSorted(live: map<CString, TypeInfo>, m: ModuleInfo)
    requires Consistent(live) && Sorted(m.typeInitial)
    ensures Sorted(Slots(live, m))
  {
    SortedByNames(m.typeInitial, Slots(live, m));
  }

  /** Searching any modules by mangled name finds the shared descriptor exactly when one has the name. */
  lemma {:induction false} FindMangledIsLive(live: map<CString, TypeInfo>, ms: seq<ModuleInfo>, n: CString)
    requires Consistent(live)
    requires Known(ms, n) ==> n in live
    ensures FindMangled(Tables(live, ms), n) == if Known(ms, n) then live[n] else null
  {
    if ms != [] {
      var tables := Tables(live, ms);
      var table := tables[0];
      assert tables[1..] == Tables(live, ms[1..]);
      assert forall m :: m in ms <==> m == ms[0] || m in ms[1..];
      FindInFinds(table, n);
      if i :| 0 <= i < |ms[0].typeInitial| && ms[0].typeInitial[i].name == n {
        assert table[i].name == n && Has(ms[0], n);
      } else {
        assert forall i :: 0 <= i < |table| ==> table[i].name == ms[0].typeInitial[i].name;
        FindMangledIsLive(live, ms[1..], n);
      }
    }
  }

  lemma {:induction false} FindAliasInSound(table: seq<TypeInfo>, q: CString)
    ensures var d := FindAliasIn(table, q); d != null ==> d in table && AliasOf(d, q)
  {
    if table != [] {
      FindAliasInSound(table[1..], q);
    }
  }

  lemma {:induction false} FindAliasNames(live: map<CString, TypeInfo>, ms: seq<ModuleInfo>, q: CString)
    requires Consistent(live)
    requires forall m, i :: m in ms && 0 <= i < |m.typeInitial| ==> m.typeInitial[i].name in live
    ensures var d := FindAlias(Tables(live, ms), q);
            d != null ==> AliasOf(d, q) && d.name in live && live[d.name] == d
  {
    if ms != [] {
      var table := Tables(live, ms)[0];
      assert Tables(live, ms)[1..] == Tables(live, ms[1..]);
      FindAliasInSound(table, q);
      if FindAliasIn(table, q) != null {
        var k :| 0 <= k < |table| && table[k] == FindAliasIn(table, q);
        assert table[k] == Slot(live, ms[0].typeInitial[k]) && ms[0] in ms;
      } else {
        FindAliasNames(live, ms[1..], q);
      }
    }
  }

  ghost function Search(s: Registry, q: CString): TypeInfo? {
    Find(Tables(s.live, s.ring), q)
  }

  lemma LoadsAreRing(s: Registry)
    requires RingInv(s)
    ensures forall m :: m in s.ring <==> m in s.loads
  {
    forall m
      ensures m in s.ring <==> m in s.loads
    {
      if m in s.ring {
        var i :| 0 <= i < |s.ring| && s.ring[i] == m;
        assert i > 0 ==> s.loads[|s.loads| - i] == m;
      }
      if m in s.loads {
        var i :| 0 <= i < |s.loads| && s.loads[i] == m;
        assert i > 0 ==> s.ring[|s.loads| - i] == m;
      }
    }
  }

  lemma SearchFinds(s: Registry, q: CString)
    requires Inv(s)
    ensures q in s.live ==> Search(s, q) == s.live[q]
    ensures var d := Search(s, q); d != null ==> Names(d, q) && d.name in s.live && s.live[d.name] == d
  {
    LoadsAreRing(s);
    assert Known(s.ring, q) <==> Known(s.loads, q);
    FindMangledIsLive(s.live, s.ring, q);
    forall m, i | m in s.ring && 0 <= i < |m.typeInitial|
      ensures m.typeInitial[i].name in s.live
    {
      assert Has(m, m.typeInitial[i].name);
    }
    FindAliasNames(s.live, s.ring, q);
  }

  // ---------- runs ----------

  /** What a program does with the registry. */
  datatype Op =
    | LoadOp(m: ModuleInfo)
    | CheckOp(c: CString, t: CString)
    | StructOp(from: TypeInfo, t: CString)
    | QueryOp(q: CString)

  ghost predicate Allowed(s: Registry, op: Op) {
    match op
    case LoadOp(m) => WellFormed(m) && (m in s.ring || Loadable(s, m))
    case CheckOp(_, t) => t in s.chains
    case StructOp(_, t) => t in s.chains
    case QueryOp(q) => s.ring != [] && (q in s.cache || !SearchOverruns(Tables(s.live, s.ring), q))
  }

  ghost function Promoted(s: Registry, t: CString, k: nat): Registry
    requires t in s.chains
  {
    if k < |s.chains[t]| then s.(chains := s.chains[t := MoveToFront(s.chains[t], k)]) else s
  }

  ghost function Query(s: Registry, q: CString): Registry {
    if q in s.cache || Search(s, q) == null then s else s.(cache := s.cache[q := Search(s, q)])
  }

  ghost function Apply(s: Registry, op: Op): Registry
    requires Allowed(s, op)
  {
    match op
    case LoadOp(m) => Load(s, m)
    case CheckOp(c, t) => Promoted(s, t, IndexOf(s.chains[t], c))
    case StructOp(from, t) => Promoted(s, t, IndexOfStruct(s.chains[t], from))
    case QueryOp(q) => Query(s, q)
  }

  lemma CacheApart(s: Registry, cache: map<CString, TypeInfo>)
    requires ChainsInv(s)
    ensures ChainsInv(s.(cache := cache))
  {
    hide Declared, Late, FirstSource, NoDuplicates;
    var r := s.(cache := cache);
    forall t | t in r.chains
      ensures ChainInv(r, t)
    {
      assert ChainInv(s, t);
      forall x | x in r.chains[t]
        ensures TargetInv(r, t, x)
      {
        assert TargetInv(s, t, x);
      }
    }
  }

  lemma QueryKeepsInv(s: Registry, q: CString)
    requires Inv(s)
    ensures Inv(Query(s, q))
  {
    hide Search, ChainsInv, Names;
    SearchFinds(s, q);
    CacheApart(s, Query(s, q).cache);
  }

  lemma PromotedKeepsInv(s: Registry, t: CString, k: nat)
    requires Inv(s) && t in s.chains
    ensures Inv(Promoted(s, t, k))
  {
    if k < |s.chains[t]| {
      PromoteKeepsInv(s, t, k);
    }
  }

  lemma StepKeepsInv(s: Registry, op: Op)
    requires Inv(s) && Allowed(s, op)
    ensures Inv(Apply(s, op))
  {
    match op
    case LoadOp(m) =>
      if m !in s.ring {
        LoadKeepsInv(s, m);
      }
    case CheckOp(c, t) => PromotedKeepsInv(s, t, IndexOf(s.chains[t], c));
    case StructOp(from, t) => PromotedKeepsInv(s, t, IndexOfStruct(s.chains[t], from));
    case QueryOp(q) => QueryKeepsInv(s, q);
  }

  // ---------- theorems about whole runs ----------

  /** The registry after the steps `ops`, starting before the first load. */
  ghost function After(ops: seq<Op>): Registry {
    if ops == [] then Empty
    else
      var p := After(ops[..|ops| - 1]);
      if Allowed(p, ops[|ops| - 1]) then Apply(p, ops[|ops| - 1]) else p
  }

  /** Every step of `ops` is one the program may take at that point. */
  ghost predicate IsRun(ops: seq<Op>) {
    ops == [] || (IsRun(ops[..|ops| - 1]) && Allowed(After(ops[..|ops| - 1]), ops[|ops| - 1]))
  }

  lemma NothingLoaded()
    ensures Inv(After([])) && After([]).loads == []
  {
  }

  lemma {:induction false} RunKeepsInv(ops: seq<Op>)
    requires IsRun(ops)
    ensures Inv(After(ops))
    ensures forall m :: m in After(ops).loads <==> LoadOp(m) in ops
  {
    hide RingInv, LiveInv, ChainsInv, CacheInv, NewLive, LoadChains, Search;
    if ops != [] {
      var before, op := ops[..|ops| - 1], ops[|ops| - 1];
      RunKeepsInv(before);
      StepKeepsInv(After(before), op);
      LoadsAreRing(After(before));
      assert ops == before + [op];
    } else {
      NothingLoaded();
    }
  }

  /** Some load step of the run brought in a declaration of the cast from `c` to `t`. */
  ghost predicate DeclaredBy(ops: seq<Op>, c: CString, t: CString) {
    exists i :: 0 <= i < |ops| && ops[i].LoadOp? && Declares(ops[i].m, c, t)
  }

  lemma DeclaredByLoads(ops: seq<Op>, c: CString, t: CString)
    requires IsRun(ops)
    ensures Declared(After(ops).loads, c, t) <==> DeclaredBy(ops, c, t)
  {
    RunKeepsInv(ops);
    var loads := After(ops).loads;
    if i :| 0 <= i < |ops| && ops[i].LoadOp? && Declares(ops[i].m, c, t) {
      assert ops[i] == LoadOp(ops[i].m) && ops[i].m in loads;
    }
    if m :| m in loads && Declares(m, c, t) {
      assert LoadOp(m) in ops;
    }
  }

  /**
   * Castability is the union of all declarations: after any run a lookup of the source `c` in the
   * list of a loaded type `t` succeeds exactly when some loaded module declared a cast from `c` to `t`.
   */
  lemma CastableIffDeclared(ops: seq<Op>, c: CString, t: CString)
    requires IsRun(ops) && t in After(ops).live
    ensures var s := After(ops);
            t in s.chains && (IndexOf(s.chains[t], c) < |s.chains[t]| <==> DeclaredBy(ops, c, t))
  {
    var s := After(ops);
    RunKeepsInv(ops);
    DeclaredByLoads(ops, c, t);
    assert ChainInv(s, t);
    LookupIffCastable(s.chains[t], c);
  }

  /** The record of a cast is one that a module of the run brought, in a row of the type's name; there is no other. */
  lemma RecordOfRun(ops: seq<Op>, r: CastInfo, r': CastInfo, c: CString, t: CString)
    requires IsRun(ops) && RecordOf(After(ops).loads, r, c, t)
    ensures DeclaredBy(ops, c, t)
    ensures exists m, i: nat, j: nat :: LoadOp(m) in ops && IsEntry(m, i, j, t, r)
    ensures RecordOf(After(ops).loads, r', c, t) ==> r' == r
  {
    var loads := After(ops).loads;
    RunKeepsInv(ops);
    FirstRecordDeclares(loads, r, t);
    DeclaredByLoads(ops, c, t);
    var m :| m in loads && InRowOf(m, r, t);
    var i :| 0 <= i < |m.typeInitial| && i < |m.castInitial| && m.typeInitial[i].name == t && r in m.castInitial[i];
    var j :| 0 <= j < |m.castInitial[i]| && m.castInitial[i][j] == r;
    assert LoadOp(m) in ops && IsEntry(m, i, j, t, r);
    if RecordOf(loads, r', c, t) {
      FirstRecordUnique(loads, r, r', t);
    }
  }

  /** `r` is entry `j` of the row of slot `i`, whose type is named `t`. */
  ghost predicate IsEntry(m: ModuleInfo, i: nat, j: nat, t: CString, r: CastInfo) {
    && i < |m.typeInitial| && i < |m.castInitial| && j < |m.castInitial[i]|
    && m.typeInitial[i].name == t && m.castInitial[i][j] == r
  }

  lemma LookupIffCastable(chain: seq<TypeInfo>, c: CString)
    ensures IndexOf(chain, c) < |chain| <==> Castable(chain, c)
  {
  }

  /** Every module that `ops` loads is loaded by `ops'` too. */
  ghost predicate LoadsIn(ops: seq<Op>, ops': seq<Op>) {
    forall i :: 0 <= i < |ops| && ops[i].LoadOp? ==> ops[i] in ops'
  }

  lemma LoadedByBoth(ops: seq<Op>, ops': seq<Op>, t: CString)
    requires IsRun(ops) && IsRun(ops') && LoadsIn(ops, ops') && t in After(ops).live
    ensures t in After(ops').live
  {
    RunKeepsInv(ops);
    RunKeepsInv(ops');
    var m :| m in After(ops).loads && Has(m, t);
    var i :| 0 <= i < |ops| && ops[i] == LoadOp(m);
    assert m in After(ops').loads;
  }

  /** So the order of loads, and all lookups in between, make no difference to it. */
  lemma CastableInAnyOrder(ops: seq<Op>, ops': seq<Op>, c: CString, t: CString)
    requires IsRun(ops) && IsRun(ops') && LoadsIn(ops, ops') && LoadsIn(ops', ops)
    requires t in After(ops).live
    ensures var a, b := ChainOf(After(ops).chains, t), ChainOf(After(ops').chains, t);
            IndexOf(a, c) < |a| <==> IndexOf(b, c) < |b|
  {
    LoadedByBoth(ops, ops', t);
    CastableIffDeclared(ops, c, t);
    CastableIffDeclared(ops', c, t);
    if i :| 0 <= i < |ops| && ops[i].LoadOp? && Declares(ops[i].m, c, t) {
      assert ops[i] in ops';
    }
    if i :| 0 <= i < |ops'| && ops'[i].LoadOp? && Declares(ops'[i].m, c, t) {
      assert ops'[i] in ops;
    }
  }

  /** No list ever holds two casts from the same source. */
  lemma NoDuplicateCasts(ops: seq<Op>, t: CString)
    requires IsRun(ops) && t in After(ops).chains
    ensures NoDuplicates(After(ops).chains[t])
  {
    RunKeepsInv(ops);
    assert ChainInv(After(ops), t);
  }

  /**
   * The descriptor that the record of a declared cast to `t` points at: the shared one, or, when the
   * first declaring module found both types loaded, that module's own.
   */
  ghost predicate IsSource(ops: seq<Op>, x: TypeInfo, t: CString) {
    var s := After(ops);
    && DeclaredBy(ops, x.name, t)
    && if Late(s.loads, x.name, t) then FirstSource(s.loads, x, t) else x.name in s.live && s.live[x.name] == x
  }

  lemma IndexOfMember(ts: seq<TypeInfo>, x: TypeInfo)
    ensures IndexOfStruct(ts, x) < |ts| <==> x in ts
  {
  }

  lemma NodeIsSource(ops: seq<Op>, x: TypeInfo, t: CString)
    requires IsRun(ops) && t in After(ops).chains && x in After(ops).chains[t]
    ensures IsSource(ops, x, t)
  {
    hide After, NoDuplicates, Late, FirstSource, Declared, DeclaredBy, LiveInv, CacheInv, InStatics;
    RunKeepsInv(ops);
    assert ChainInv(After(ops), t) && TargetInv(After(ops), t, x);
    DeclaredByLoads(ops, x.name, t);
    assert Castable(After(ops).chains[t], x.name);
  }

  lemma SourceIsNode(ops: seq<Op>, x: TypeInfo, t: CString)
    requires IsRun(ops) && t in After(ops).chains && IsSource(ops, x, t)
    ensures x in After(ops).chains[t]
  {
    hide After, NoDuplicates, Late, FirstSource, Declared, DeclaredBy, LiveInv, CacheInv, InStatics;
    RunKeepsInv(ops);
    var s := After(ops);
    var chain := s.chains[t];
    assert ChainInv(s, t);
    DeclaredByLoads(ops, x.name, t);
    var k :| 0 <= k < |chain| && chain[k].name == x.name;
    assert TargetInv(s, t, chain[k]);
    if Late(s.loads, x.name, t) {
      FirstSourceUnique(s.loads, chain[k], x, t);
    }
  }

  /** After any run the lookup by descriptor finds a descriptor exactly when it is the source of a declared cast. */
  lemma StructLookupIff(ops: seq<Op>, from: TypeInfo, t: CString)
    requires IsRun(ops) && t in After(ops).chains
    ensures IndexOfStruct(After(ops).chains[t], from) < |After(ops).chains[t]| <==> IsSource(ops, from, t)
  {
    hide IsSource, After;
    IndexOfMember(After(ops).chains[t], from);
    if from in After(ops).chains[t] {
      NodeIsSource(ops, from, t);
    }
    if IsSource(ops, from, t) {
      SourceIsNode(ops, from, t);
    }
  }

  /** The ring after any run: every loaded module once, the first in front, the rest newest first. */
  lemma RingAfterRun(ops: seq<Op>)
    requires IsRun(ops)
    ensures RingInv(After(ops))
    ensures forall m :: m in After(ops).ring <==> LoadOp(m) in ops
  {
    RunKeepsInv(ops);
    LoadsAreRing(After(ops));
  }

  lemma {:induction false} CachePersists(ops: seq<Op>, more: seq<Op>, q: CString)
    requires IsRun(ops + more) && q in After(ops).cache
    ensures IsRun(ops)
    ensures q in After(ops + more).cache && After(ops + more).cache[q] == After(ops).cache[q]
    decreases |more|
  {
    if more == [] {
      assert ops + more == ops;
    } else {
      var all := ops + more;
      assert all[..|all| - 1] == ops + more[..|more| - 1];
      CachePersists(ops, more[..|more| - 1], q);
    }
  }

  /**
   * An answer cached for a mangled name stays the answer of a fresh search of the ring, whatever
   * is loaded or looked up later.
   */
  lemma CachedMangledStaysFresh(ops: seq<Op>, more: seq<Op>, q: CString)
    requires IsRun(ops + more) && q in After(ops).cache && After(ops).cache[q].name == q
    ensures var s := After(ops + more); q in s.cache && q in s.live && s.cache[q] == Search(s, q) == s.live[q]
  {
    var s := After(ops + more);
    CachePersists(ops, more, q);
    RunKeepsInv(ops + more);
    SearchFinds(s, q);
  }

  /** Step `i` is a query for `q` that finds a descriptor. */
  ghost predicate HitAt(ops: seq<Op>, q: CString, i: nat)
    requires i < |ops|
  {
    ops[i] == QueryOp(q) && Search(After(ops[..i]), q) != null
  }

  /** An answer is in the cache exactly when some query of the run found one. */
  lemma {:induction false} CachedIff(ops: seq<Op>, q: CString)
    requires IsRun(ops)
    ensures q in After(ops).cache <==> exists i :: 0 <= i < |ops| && HitAt(ops, q, i)
  {
    if ops != [] {
      var n, before, op := |ops| - 1, ops[..|ops| - 1], ops[|ops| - 1];
      CachedIff(before, q);
      forall i | 0 <= i < n
        ensures HitAt(ops, q, i) <==> HitAt(before, q, i)
      {
        assert before[..i] == ops[..i];
      }
      CacheAfter(After(before), op, q);
      if q in After(ops).cache && q !in After(before).cache {
        assert HitAt(ops, q, n);
      }
    }
  }

  lemma CacheAfter(s: Registry, op: Op, q: CString)
    requires Allowed(s, op)
    ensures q in Apply(s, op).cache <==> q in s.cache || (op == QueryOp(q) && Search(s, q) != null)
  {
  }

  /**
   * Misses are not remembered: however often a query found nothing in a run, once its type is loaded
   * it is answered with the shared descriptor, as a fresh search would answer it.
   */
  lemma MissIsNotCached(ops: seq<Op>, q: CString)
    requires IsRun(ops) && q in After(ops).live
    requires forall i :: 0 <= i < |ops| ==> !HitAt(ops, q, i)
    ensures var r := Query(After(ops), q); q in r.cache && r.cache[q] == After(ops).live[q] == Search(After(ops), q)
    ensures Allowed(After(ops), QueryOp(q))
  {
    RunKeepsInv(ops);
    CachedIff(ops, q);
    SearchFinds(After(ops), q);
    LiveHasRing(After(ops), q);
  }

  /** A query for a loaded name is answered before any alias is looked at. */
  lemma LiveHasRing(s: Registry, q: CString)
    requires Inv(s) && q in s.live
    ensures s.ring != [] && !SearchOverruns(Tables(s.live, s.ring), q)
  {
    LoadsAreRing(s);
    FindMangledIsLive(s.live, s.ring, q);
  }

  /** A miss followed by the load of a module with the type: the module's own descriptor is found. */
  lemma MissThenLoad(ops: seq<Op>, m: ModuleInfo, q: CString)
    requires IsRun(ops) && q !in After(ops).cache && Search(After(ops), q) == null
    requires Has(m, q) && m !in After(ops).ring && Loadable(After(ops), m)
    ensures var s := Query(Load(Query(After(ops), q), m), q);
            q in s.cache && s.cache[q].name == q && s.cache[q] in m.typeInitial
  {
    hide After, RingInv, ChainsInv, CacheInv, Search, LoadChains;
    var s := After(ops);
    RunKeepsInv(ops);
    SearchFinds(s, q);
    LoadKeepsInv(s, m);
    SearchFinds(Load(s, m), q);
    var i :| 0 <= i < |m.typeInitial| && m.typeInitial[i].name == q;
    NewLiveSlot(s.live, m, i);
  }

  lemma SlotsKept(s: Registry, m: ModuleInfo, x: ModuleInfo)
    requires LiveInv(s) && WellFormed(m) && x in s.loads
    ensures Slots(NewLive(s.live, m, |m.typeInitial|), x) == Slots(s.live, x)
  {
    NewLiveAll(s.live, m, |m.typeInitial|);
    forall i | 0 <= i < |x.typeInitial|
      ensures x.typeInitial[i].name in s.live
    {
      assert Has(x, x.typeInitial[i].name);
    }
  }

  lemma TablesSpliced(live: map<CString, TypeInfo>, live': map<CString, TypeInfo>, ring: seq<ModuleInfo>, m: ModuleInfo)
    requires ring != [] && forall k :: 0 <= k < |ring| ==> Slots(live', ring[k]) == Slots(live, ring[k])
    ensures var before := Tables(live, ring);
            Tables(live', Splice(ring, m)) == [before[0], Slots(live', m)] + before[1..]
  {
    var before, after := Tables(live, ring), Tables(live', Splice(ring, m));
    forall k | 0 <= k < |after|
      ensures after[k] == ([before[0], Slots(live', m)] + before[1..])[k]
    {
      assert after[k] == Slots(live', Splice(ring, m)[k]);
      assert k > 1 ==> Splice(ring, m)[k] == ring[k - 1];
    }
  }

  /** The tables after a load: the head's, the new module's, then all the others unchanged. */
  lemma TablesAfterLoad(s: Registry, m: ModuleInfo)
    requires Inv(s) && s.ring != [] && m !in s.ring && Loadable(s, m)
    ensures var r := Load(s, m); var before := Tables(s.live, s.ring);
            Tables(r.live, r.ring) == [before[0], Slots(r.live, m)] + before[1..]
  {
    LoadsAreRing(s);
    forall k | 0 <= k < |s.ring|
      ensures Slots(NewLive(s.live, m, |m.typeInitial|), s.ring[k]) == Slots(s.live, s.ring[k])
    {
      SlotsKept(s, m, s.ring[k]);
    }
    TablesSpliced(s.live, NewLive(s.live, m, |m.typeInitial|), s.ring, m);
  }

  lemma FindAliasInserted(head: seq<TypeInfo>, own: seq<TypeInfo>, rest: seq<seq<TypeInfo>>, q: CString)
    ensures FindAlias([head] + rest, q) ==
              if FindAliasIn(head, q) != null then FindAliasIn(head, q) else FindAlias(rest, q)
    ensures FindAlias([head, own] + rest, q) ==
              if FindAliasIn(head, q) != null then FindAliasIn(head, q)
              else if FindAliasIn(own, q) != null then FindAliasIn(own, q)
              else FindAlias(rest, q)
  {
    assert ([head] + rest)[1..] == rest;
    assert ([head, own] + rest)[1..] == [own] + rest;
    assert ([own] + rest)[1..] == rest;
  }

  /** A query that is no loaded mangled name is answered by the alias scan. */
  lemma SearchByAlias(s: Registry, q: CString)
    requires Inv(s) && q !in s.live
    ensures Search(s, q) == FindAlias(Tables(s.live, s.ring), q)
  {
    LoadsAreRing(s);
    assert Known(s.ring, q) <==> Known(s.loads, q);
    FindMangledIsLive(s.live, s.ring, q);
  }

  lemma AliasScanAfterLoad(s: Registry, m: ModuleInfo, q: CString)
    requires Inv(s) && s.ring != [] && m !in s.ring && Loadable(s, m)
    ensures var r := Load(s, m);
            var head, own := FindAliasIn(Slots(s.live, s.ring[0]), q), FindAliasIn(Slots(r.live, m), q);
            FindAlias(Tables(r.live, r.ring), q) ==
              if head != null then head else if own != null then own else FindAlias(Tables(s.live, s.ring), q)
    ensures FindAliasIn(Slots(s.live, s.ring[0]), q) != null ==>
              FindAlias(Tables(s.live, s.ring), q) == FindAliasIn(Slots(s.live, s.ring[0]), q)
  {
    TablesAfterLoad(s, m);
    var before := Tables(s.live, s.ring);
    FindAliasInserted(before[0], Slots(Load(s, m).live, m), before[1..], q);
    assert before == [before[0]] + before[1..];
  }

  /**
   * An answer found by alias only: a later load leaves a fresh search at that answer exactly when
   * the new module does not have the query as a mangled name and is not asked before the answer,
   * or has nothing else to say.
   */
  lemma AliasAnswerAfterLoad(s: Registry, m: ModuleInfo, q: CString)
    requires Inv(s) && s.ring != [] && m !in s.ring && Loadable(s, m)
    requires Search(s, q) != null && q !in s.live
    ensures var r := Load(s, m); var own := FindAliasIn(Slots(r.live, m), q);
            Search(r, q) == Search(s, q) <==>
              !Has(m, q) && (FindAliasIn(Slots(s.live, s.ring[0]), q) != null || own == null || own == Search(s, q))
  {
    var r := Load(s, m);
    LoadKeepsInv(s, m);
    OneMore(s.loads, m, q, q);
    SearchFinds(s, q);
    SearchByAlias(s, q);
    if Has(m, q) {
      SearchFinds(r, q);
    } else {
      SearchByAlias(r, q);
      AliasScanAfterLoad(s, m, q);
    }
  }

  /** `d` is the first descriptor, in ring and then in index order, with the alias `q`. */
  ghost predicate IsFirstAlias(s: Registry, q: CString, d: TypeInfo) {
    exists k: nat, i: nat ::
      FirstAliasAt(Tables(s.live, s.ring), q, k, i) && Tables(s.live, s.ring)[k][i] == d
  }

  lemma FirstAliasAnswers(s: Registry, q: CString, d: TypeInfo)
    ensures FindAlias(Tables(s.live, s.ring), q) == d <==> IsFirstAlias(s, q, d)
  {
    var tables := Tables(s.live, s.ring);
    if FindAlias(tables, q) == d {
      var k, i := FindAliasAt(tables, q);
    }
    if IsFirstAlias(s, q, d) {
      var k: nat, i: nat :| FirstAliasAt(tables, q, k, i) && tables[k][i] == d;
      FindAliasIsFirst(tables, q, k, i);
    }
  }

  /**
   * After any run a cached answer is what a fresh search gives exactly when it has the query as its
   * mangled name or, while no loaded type has that name, is the first alias match of the present ring.
   */
  lemma CachedIsFreshIff(ops: seq<Op>, q: CString)
    requires IsRun(ops) && q in After(ops).cache
    ensures var s := After(ops);
            s.cache[q] == Search(s, q) <==>
              if q in s.live then s.cache[q].name == q else IsFirstAlias(s, q, s.cache[q])
  {
    hide After, Search, IsFirstAlias, Names, RingInv, ChainsInv;
    var s := After(ops);
    RunKeepsInv(ops);
    SearchFinds(s, q);
    if q !in s.live {
      SearchByAlias(s, q);
      FirstAliasAnswers(s, q, s.cache[q]);
    }
  }
}
