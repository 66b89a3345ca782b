/** Searching the module ring for a descriptor, by mangled name and by readable alias. */
module Queries {
  import opened CStrings
  import opened TypeNames
  import opened CastLists
  import opened Registry

  // ---------- the naive searches ----------

  function FindIn(table: seq<TypeInfo>, name: CString): TypeInfo? {
    if table == [] then null else if table[0].name == name then table[0] else FindIn(table[1..], name)
  }

  /** Scan table after table for the mangled name. */
  function FindMangled(tables: seq<seq<TypeInfo>>, name: CString): TypeInfo? {
    if tables == [] then null
    else if FindIn(tables[0], name) != null then FindIn(tables[0], name)
    else FindMangled(tables[1..], name)
  }

  ghost predicate AliasOf(t: TypeInfo, name: CString) {
    t.str.Some? && HasAlias(t.str.value, name)
  }

  ghost function FindAliasIn(table: seq<TypeInfo>, name: CString): TypeInfo? {
    if table == [] then null else if AliasOf(table[0], name) then table[0] else FindAliasIn(table[1..], name)
  }

  /** Scan table after table for a readable alias. */
  ghost function FindAlias(tables: seq<seq<TypeInfo>>, name: CString): TypeInfo? {
    if tables == [] then null
    else if FindAliasIn(tables[0], name) != null then FindAliasIn(tables[0], name)
    else FindAlias(tables[1..], name)
  }

  /** Comparing the query with the aliases of `t` reads past a terminator. */
  predicate Overruns(t: TypeInfo, name: CString) {
    t.str.Some? && WalkOverruns(t.str.value, name)
  }

  ghost predicate ScanOverruns(table: seq<TypeInfo>, name: CString) {
    exists i :: 0 <= i < |table| && Overruns(table[i], name)
  }

  /** No mangled name is the query, and the scan of the readable ones reads past a terminator. */
  ghost predicate SearchOverruns(tables: seq<seq<TypeInfo>>, name: CString) {
    FindMangled(tables, name) == null && exists k :: 0 <= k < |tables| && ScanOverruns(tables[k], name)
  }

  /** A mangled match anywhere beats every readable one. */
  ghost function Find(tables: seq<seq<TypeInfo>>, name: CString): TypeInfo? {
    if FindMangled(tables, name) != null then FindMangled(tables, name) else FindAlias(tables, name)
  }

  lemma {:induction false} FindInFinds(table: seq<TypeInfo>, name: CString)
    ensures FindIn(table, name) == null <==> forall i :: 0 <= i < |table| ==> table[i].name != name
    ensures FindIn(table, name) != null ==> FindIn(table, name) in table && FindIn(table, name).name == name
  {
    if table != [] {
      FindInFinds(table[1..], name);
      assert forall i :: 0 < i < |table| ==> table[i] == table[1..][i - 1];
    }
  }

  lemma {:induction false} FindAliasInFinds(table: seq<TypeInfo>, name: CString, k: nat)
    requires k <= |table| && (forall i :: 0 <= i < k ==> !AliasOf(table[i], name))
    requires k < |table| ==> AliasOf(table[k], name)
    ensures FindAliasIn(table, name) == if k < |table| then table[k] else null
  {
    if k > 0 {
      FindAliasInFinds(table[1..], name, k - 1);
    }
  }

  /** Descriptor `i` of table `k` is the first one, in ring and then in index order, with the alias. */
  ghost predicate FirstAliasAt(tables: seq<seq<TypeInfo>>, name: CString, k: nat, i: nat) {
    && k < |tables| && i < |tables[k]| && AliasOf(tables[k][i], name)
    && (forall j :: 0 <= j < i ==> !AliasOf(tables[k][j], name))
    && (forall l :: 0 <= l < k ==> NoAliasIn(tables[l], name))
  }

  ghost predicate NoAliasIn(table: seq<TypeInfo>, name: CString) {
    forall i :: 0 <= i < |table| ==> !AliasOf(table[i], name)
  }

  /** The alias scan answers with the first match of the ring. */
  lemma {:induction false} FindAliasIsFirst(tables: seq<seq<TypeInfo>>, name: CString, k: nat, i: nat)
    requires FirstAliasAt(tables, name, k, i)
    ensures FindAlias(tables, name) == tables[k][i]
  {
    if k == 0 {
      FindAliasInFinds(tables[0], name, i);
    } else {
      assert NoAliasIn(tables[0], name);
      FindAliasInFinds(tables[0], name, |tables[0]|);
      assert forall l :: 0 <= l < k - 1 ==> tables[1..][l] == tables[l + 1];
      FindAliasIsFirst(tables[1..], name, k - 1, i);
    }
  }

  lemma {:induction false} FirstInTable(table: seq<TypeInfo>, name: CString) returns (i: nat)
    requires !NoAliasIn(table, name)
    ensures i < |table| && AliasOf(table[i], name) && forall j :: 0 <= j < i ==> !AliasOf(table[j], name)
  {
    i := 0;
    while !AliasOf(table[i], name)
      invariant i < |table| && forall j :: 0 <= j < i ==> !AliasOf(table[j], name)
      decreases |table| - i
    {
      i := i + 1;
    }
  }

  /** Any answer it has is the first match of the ring. */
  lemma {:induction false} FindAliasAt(tables: seq<seq<TypeInfo>>, name: CString) returns (k: nat, i: nat)
    requires FindAlias(tables, name) != null
    ensures FirstAliasAt(tables, name, k, i) && FindAlias(tables, name) == tables[k][i]
  {
    FindAliasInNone(tables[0], name);
    if NoAliasIn(tables[0], name) {
      k, i := FindAliasAt(tables[1..], name);
      assert forall l :: 0 < l < |tables| ==> tables[1..][l - 1] == tables[l];
      k := k + 1;
    } else {
      k := 0;
      i := FirstInTable(tables[0], name);
    }
    FindAliasIsFirst(tables, name, k, i);
  }

  /** It has no answer exactly when no descriptor of the ring has the alias. */
  lemma {:induction false} FindAliasNone(tables: seq<seq<TypeInfo>>, name: CString)
    ensures FindAlias(tables, name) == null <==> forall k :: 0 <= k < |tables| ==> NoAliasIn(tables[k], name)
  {
    if tables != [] {
      FindAliasNone(tables[1..], name);
      FindAliasInNone(tables[0], name);
      assert forall k :: 0 < k < |tables| ==> tables[k] == tables[1..][k - 1];
    }
  }

  lemma {:induction false} FindAliasInNone(table: seq<TypeInfo>, name: CString)
    ensures FindAliasIn(table, name) == null <==> NoAliasIn(table, name)
  {
    if table != [] {
      FindAliasInNone(table[1..], name);
      assert forall i :: 0 < i < |table| ==> table[i] == table[1..][i - 1];
    }
  }

  lemma {:induction false} FindMangledNone(tables: seq<seq<TypeInfo>>, name: CString)
    ensures FindMangled(tables, name) == null <==>
              forall k, i :: 0 <= k < |tables| && 0 <= i < |tables[k]| ==> tables[k][i].name != name
  {
    if tables != [] {
      FindMangledNone(tables[1..], name);
      FindInFinds(tables[0], name);
      assert forall k :: 0 < k < |tables| ==> tables[k] == tables[1..][k - 1];
    }
  }

  /** The whole search has no answer exactly when no descriptor of the ring has the name or the alias. */
  lemma FindNone(tables: seq<seq<TypeInfo>>, name: CString)
    ensures Find(tables, name) == null <==>
              forall k, i :: 0 <= k < |tables| && 0 <= i < |tables[k]| ==>
                tables[k][i].name != name && !AliasOf(tables[k][i], name)
  {
    FindMangledNone(tables, name);
    FindAliasNone(tables, name);
    if Find(tables, name) == null {
      forall k, i | 0 <= k < |tables| && 0 <= i < |tables[k]|
        ensures tables[k][i].name != name && !AliasOf(tables[k][i], name)
      {
        assert NoAliasIn(tables[k], name);
      }
    } else if FindMangled(tables, name) == null {
      var k :| 0 <= k < |tables| && !NoAliasIn(tables[k], name);
      var i :| 0 <= i < |tables[k]| && AliasOf(tables[k][i], name);
    }
  }

  /** A query that can overrun has no alias anywhere. */
  lemma OverrunHasNoAlias(t: TypeInfo, t': TypeInfo, name: CString)
    requires Overruns(t, name)
    ensures !AliasOf(t', name)
  {
    if t'.str.Some? {
      NoAliasForSpaceEnded(AliasesFrom(t'.str.value, 0), name);
    }
  }

  // ---------- one sorted table ----------

  lemma NotRightOf(table: seq<TypeInfo>, i: nat, name: CString)
    requires Sorted(table) && i < |table| && StrCmp(name, table[i].name) < 0
    ensures forall j :: i <= j < |table| ==> table[j].name != name
  {
    LexZeroIsEqual(false, name, name);
    forall j | i < j < |table|
      ensures table[j].name != name
    {
      SortedPair(table, i, j);
      LexTransitive(false, name, table[i].name, table[j].name);
    }
  }

  lemma NotLeftOf(table: seq<TypeInfo>, i: nat, name: CString)
    requires Sorted(table) && i < |table| && StrCmp(name, table[i].name) > 0
    ensures forall j :: 0 <= j <= i ==> table[j].name != name
  {
    LexZeroIsEqual(false, name, name);
    LexAntisymmetric(false, name, table[i].name);
    forall j | 0 <= j < i
      ensures table[j].name != name
    {
      SortedPair(table, j, i);
      LexTransitive(false, table[j].name, table[i].name, name);
    }
  }

  lemma FoundAt(table: seq<TypeInfo>, i: nat, name: CString)
    requires Sorted(table) && i < |table| && StrCmp(name, table[i].name) == 0
    ensures FindIn(table, name) == table[i]
  {
    LexZeroIsEqual(false, name, table[i].name);
    FindInFinds(table, name);
    var j :| 0 <= j < |table| && table[j] == FindIn(table, name);
    if i < j {
      SortedPair(table, i, j);
    } else if j < i {
      SortedPair(table, j, i);
    }
  }

  /** The module's type array is filled with `table`, which is sorted, and closed by a null. */
  ghost predicate TableIs(m: ModuleInfo, table: seq<TypeInfo>)
    reads m`types
  {
    && |table| == |m.typeInitial| && |m.types| == |table| + 1 && m.types[|table|] == null
    && (forall i :: 0 <= i < |table| ==> m.types[i] == table[i])
    && Sorted(table)
  }

  /** The binary search of one module's table. */
  method SearchTable(m: ModuleInfo, name: CString, ghost table: seq<TypeInfo>) returns (found: TypeInfo?)
    requires TableIs(m, table)
    ensures found == FindIn(table, name)
  {
    FindInFinds(table, name);
    if |m.typeInitial| != 0 {
      var l, r := 0, |m.typeInitial| - 1;
      while true
        invariant 0 <= l <= r < |table|
        invariant forall j :: 0 <= j < l || r < j < |table| ==> table[j].name != name
        decreases r - l
      {
        var i := (l + r) / 2;
        assert m.types[i] == table[i];
        var compare := StrCmp(name, m.types[i].name);
        if compare == 0 {
          FoundAt(table, i, name);
          return m.types[i];
        } else if compare < 0 {
          NotRightOf(table, i, name);
          if i != 0 {
            r := i - 1;
          } else {
            break;
          }
        } else {
          NotLeftOf(table, i, name);
          l := i + 1;
        }
        if l > r {
          break;
        }
      }
    }
    found := null;
  }

  // ---------- a stretch of the ring ----------

  /** Position `k` of `seg` points at the next position, or at `end` when it is the last. */
  ghost predicate NextIs(seg: seq<ModuleInfo>, k: nat, end: ModuleInfo)
    requires k < |seg|
    reads seg`next
  {
    seg[k].next == if k + 1 < |seg| then seg[k + 1] else end
  }

  /** Following `next` from `start`, `seg` lists the modules met before `end`. */
  ghost predicate Segment(start: ModuleInfo, end: ModuleInfo, seg: seq<ModuleInfo>)
    reads seg`next
  {
    && seg != [] && seg[0] == start
    && (forall k :: 0 <= k < |seg| ==> NextIs(seg, k, end))
    && (forall k :: 0 < k < |seg| ==> seg[k] != end)
  }

  /** `tables` is what the modules' type arrays hold. */
  ghost predicate Holds(seg: seq<ModuleInfo>, tables: seq<seq<TypeInfo>>)
    reads seg`types
  {
    && |tables| == |seg|
    && forall k :: 0 <= k < |seg| ==> TableIs(seg[k], tables[k])
  }

  /** `SWIG_MangledTypeQueryModule`. */
  method MangledTypeQueryModule(start: ModuleInfo, end: ModuleInfo, name: CString, ghost seg: seq<ModuleInfo>,
          ghost tables: seq<seq<TypeInfo>>)
    returns (ret: TypeInfo?)
    requires Segment(start, end, seg) && Holds(seg, tables)
    ensures ret == FindMangled(tables, name)
  {
    var iter := start;
    ghost var k: nat := 0;
    while true
      invariant k < |seg| && iter == seg[k]
      invariant FindMangled(tables, name) == FindMangled(tables[k..], name)
      decreases |seg| - k
    {
      assert TableIs(seg[k], tables[k]);
      ret := SearchTable(iter, name, tables[k]);
      if ret != null {
        return;
      }
      assert tables[k..][1..] == tables[k + 1..];
      assert NextIs(seg, k, end);
      iter, k := iter.next, k + 1;
      if iter == end {
        break;
      }
    }
    ret := null;
  }

  /** The scan of one module's readable names: the first match, or a read past a terminator. */
  method ScanAliases(m: ModuleInfo, name: CString, ghost table: seq<TypeInfo>) returns (found: TypeInfo?, overrun: bool)
    requires TableIs(m, table)
    ensures overrun <==> ScanOverruns(table, name)
    ensures found == FindAliasIn(table, name)
  {
    for i := 0 to |m.typeInitial|
      invariant forall j :: 0 <= j < i ==> !AliasOf(table[j], name) && !Overruns(table[j], name)
    {
      assert m.types[i] == table[i];
      if m.types[i].str.Some? {
        var equiv := TypeEquiv(m.types[i].str.value, name);
        if equiv == Overrun {
          NoneAfterOverrun(table, i, name);
          return null, true;
        }
        if equiv.value != 0 {
          FindAliasInFinds(table, name, i);
          NoOverrunBesideAlias(table, i, name);
          return m.types[i], false;
        }
      }
    }
    FindAliasInFinds(table, name, |table|);
    found, overrun := null, false;
  }

  lemma NoneAfterOverrun(table: seq<TypeInfo>, i: nat, name: CString)
    requires i < |table| && Overruns(table[i], name)
    ensures ScanOverruns(table, name) && FindAliasIn(table, name) == null
  {
    forall j | 0 <= j < |table|
      ensures !AliasOf(table[j], name)
    {
      OverrunHasNoAlias(table[i], table[j], name);
    }
    FindAliasInFinds(table, name, |table|);
  }

  lemma NoOverrunBesideAlias(table: seq<TypeInfo>, i: nat, name: CString)
    requires i < |table| && AliasOf(table[i], name)
    ensures !ScanOverruns(table, name)
  {
    if j :| 0 <= j < |table| && Overruns(table[j], name) {
      OverrunHasNoAlias(table[j], table[i], name);
    }
  }

  /** An overrun in one table rules a match out in all tables. */
  lemma OverrunAnswersNothing(tables: seq<seq<TypeInfo>>, k: nat, name: CString)
    requires k < |tables| && ScanOverruns(tables[k], name)
    ensures FindAlias(tables, name) == null
  {
    var i :| 0 <= i < |tables[k]| && Overruns(tables[k][i], name);
    forall l | 0 <= l < |tables|
      ensures NoAliasIn(tables[l], name)
    {
      forall j | 0 <= j < |tables[l]|
        ensures !AliasOf(tables[l][j], name)
      {
        OverrunHasNoAlias(tables[k][i], tables[l][j], name);
      }
    }
    FindAliasNone(tables, name);
  }

  /** `SWIG_TypeQueryModule`; `overrun` says that a comparison read past a terminator. */
  method TypeQueryModule(start: ModuleInfo, end: ModuleInfo, name: CString, ghost seg: seq<ModuleInfo>,
          ghost tables: seq<seq<TypeInfo>>)
    returns (ret: TypeInfo?, overrun: bool)
    requires Segment(start, end, seg) && Holds(seg, tables)
    ensures overrun <==> SearchOverruns(tables, name)
    ensures ret == Find(tables, name)
  {
    overrun := false;
    ret := MangledTypeQueryModule(start, end, name, seg, tables);
    if ret != null {
      return;
    }
    var iter := start;
    ghost var k: nat := 0;
    while true
      invariant k < |seg| && iter == seg[k] && !overrun
      invariant FindAlias(tables, name) == FindAlias(tables[k..], name)
      invariant forall l :: 0 <= l < k ==> !ScanOverruns(tables[l], name)
      decreases |seg| - k
    {
      assert TableIs(seg[k], tables[k]);
      ret, overrun := ScanAliases(iter, name, tables[k]);
      if overrun {
        OverrunAnswersNothing(tables, k, name);
        return null, true;
      }
      if ret != null {
        forall l | 0 <= l < |tables|
          ensures !ScanOverruns(tables[l], name)
        {
          if ScanOverruns(tables[l], name) {
            OverrunAnswersNothing(tables, l, name);
          }
        }
        return;
      }
      assert tables[k..][1..] == tables[k + 1..];
      assert NextIs(seg, k, end);
      iter, k := iter.next, k + 1;
      if iter == end {
        break;
      }
    }
    ret := null;
  }
}
