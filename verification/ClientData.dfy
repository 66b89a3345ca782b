/** Spreading client data over the cast graph: `SWIG_TypeClientData` and `SWIG_PropagateClientData`. */
module ClientData {
  import opened CastLists
  import opened Registry
  import opened Queries
  import opened Loader

  type Graph = map<TypeInfo, set<TypeInfo>>
  type Data = map<TypeInfo, nat>

  // ---------- reachability through unset types ----------

  ghost predicate ReachIn(edges: Graph, unset: set<TypeInfo>, a: TypeInfo, b: TypeInfo, n: nat)
  {
    if n == 0 then a == b
    else a in edges && exists c | c in unset :: c in edges[a] && ReachIn(edges, unset, c, b, n - 1)
  }

  /** A chain of casts without converters leads from `a` to `b`; every type after `a` is unset. */
  ghost predicate Reach(edges: Graph, unset: set<TypeInfo>, a: TypeInfo, b: TypeInfo) {
    exists n: nat :: ReachIn(edges, unset, a, b, n)
  }

  ghost function Unset(data: Data): set<TypeInfo> {
    set t | t in data && data[t] == 0
  }

  lemma {:induction false} ReachExtend(edges: Graph, unset: set<TypeInfo>, a: TypeInfo, b: TypeInfo,
          c: TypeInfo, n: nat)
    requires ReachIn(edges, unset, a, b, n) && b in edges && c in edges[b] && c in unset
    ensures ReachIn(edges, unset, a, c, n + 1)
  {
    if n == 0 {
      assert ReachIn(edges, unset, c, c, 0);
    } else {
      var d :| d in unset && d in edges[a] && ReachIn(edges, unset, d, b, n - 1);
      ReachExtend(edges, unset, d, b, c, n - 1);
    }
  }

  lemma {:induction false} ReachMonotone(edges: Graph, unset: set<TypeInfo>, more: set<TypeInfo>, a: TypeInfo,
          b: TypeInfo, n: nat)
    requires ReachIn(edges, unset, a, b, n) && unset <= more
    ensures ReachIn(edges, more, a, b, n)
  {
    if n > 0 {
      var c :| c in unset && c in edges[a] && ReachIn(edges, unset, c, b, n - 1);
      ReachMonotone(edges, unset, more, c, b, n - 1);
    }
  }

  /** `m` holds every unset successor of its members. */
  ghost predicate ClosedUnder(edges: Graph, unset: set<TypeInfo>, m: set<TypeInfo>) {
    forall x, y :: x in m && x in edges && y in edges[x] && y in unset ==> y in m
  }

  lemma {:induction false} ClosedHoldsReachable(edges: Graph, unset: set<TypeInfo>, m: set<TypeInfo>,
          a: TypeInfo, b: TypeInfo, n: nat)
    requires ClosedUnder(edges, unset, m) && a in m && ReachIn(edges, unset, a, b, n)
    ensures b in m
  {
    if n > 0 {
      var c :| c in unset && c in edges[a] && ReachIn(edges, unset, c, b, n - 1);
      ClosedHoldsReachable(edges, unset, m, c, b, n - 1);
    }
  }

  /** What one call leaves: the start and everything it reaches through unset types get the value. */
  ghost function Spread(edges: Graph, data: Data, start: TypeInfo, value: nat): Data {
    map t | t in data :: if t == start || Reach(edges, Unset(data), start, t) then value else data[t]
  }

  // ---------- null client data: when the recursion ends ----------

  /** A call that sets nothing ends within `n` nested calls: no walk through unset types is longer. */
  ghost predicate EndsIn(edges: Graph, unset: set<TypeInfo>, a: TypeInfo, n: nat) {
    n > 0 && forall c | c in unset :: a in edges && c in edges[a] ==> EndsIn(edges, unset, c, n - 1)
  }

  lemma SomeDepth(edges: Graph, unset: set<TypeInfo>, a: TypeInfo, n: nat)
    requires EndsIn(edges, unset, a, n)
    ensures n > 0
  {
  }

  ghost predicate OnCycle(edges: Graph, unset: set<TypeInfo>, t: TypeInfo) {
    exists n: nat :: n > 0 && ReachIn(edges, unset, t, t, n)
  }

  lemma {:induction false} WalkIsShort(edges: Graph, unset: set<TypeInfo>, a: TypeInfo, b: TypeInfo, n: nat, k: nat)
    requires EndsIn(edges, unset, a, n) && ReachIn(edges, unset, a, b, k)
    ensures k < n && EndsIn(edges, unset, b, n - k)
    decreases k
  {
    if k > 0 {
      var c :| c in unset && c in edges[a] && ReachIn(edges, unset, c, b, k - 1);
      WalkIsShort(edges, unset, c, b, n - 1, k - 1);
    }
  }

  lemma {:induction false} EndsOffCycles(edges: Graph, unset: set<TypeInfo>, t: TypeInfo, n: nat)
    requires EndsIn(edges, unset, t, n)
    ensures !OnCycle(edges, unset, t)
  {
    if k: nat :| k > 0 && ReachIn(edges, unset, t, t, k) {
      WalkIsShort(edges, unset, t, t, n, k);
      EndsOffCycles(edges, unset, t, n - k);
    }
  }

  lemma {:induction false} EndsInMore(edges: Graph, unset: set<TypeInfo>, a: TypeInfo, n: nat, more: nat)
    requires EndsIn(edges, unset, a, n) && n <= more
    ensures EndsIn(edges, unset, a, more)
  {
    forall c | c in unset && a in edges && c in edges[a]
      ensures EndsIn(edges, unset, c, more - 1)
    {
      EndsInMore(edges, unset, c, n - 1, more - 1);
    }
  }

  /** The types that a walk of at least one step leads to. */
  ghost function Ahead(edges: Graph, unset: set<TypeInfo>, a: TypeInfo): set<TypeInfo> {
    set t | t in unset && StepsTo(edges, unset, a, t)
  }

  ghost predicate StepsTo(edges: Graph, unset: set<TypeInfo>, a: TypeInfo, t: TypeInfo) {
    exists n: nat :: n > 0 && ReachIn(edges, unset, a, t, n)
  }

  /** No type that `a` leads to is on a cycle. */
  ghost predicate NoCycleAhead(edges: Graph, unset: set<TypeInfo>, a: TypeInfo) {
    forall t | t in unset + {a} :: Reach(edges, unset, a, t) ==> !OnCycle(edges, unset, t)
  }

  lemma AheadShrinks(edges: Graph, unset: set<TypeInfo>, a: TypeInfo, c: TypeInfo)
    requires NoCycleAhead(edges, unset, a) && a in edges && c in edges[a] && c in unset
    ensures Ahead(edges, unset, c) < Ahead(edges, unset, a) && NoCycleAhead(edges, unset, c)
  {
    assert ReachIn(edges, unset, c, c, 0);
    assert ReachIn(edges, unset, a, c, 1);
    forall t | t in Ahead(edges, unset, c)
      ensures t in Ahead(edges, unset, a)
    {
      var n: nat :| n > 0 && ReachIn(edges, unset, c, t, n);
      assert ReachIn(edges, unset, a, t, n + 1);
    }
    forall t | t in unset && Reach(edges, unset, c, t)
      ensures !OnCycle(edges, unset, t)
    {
      var n: nat :| ReachIn(edges, unset, c, t, n);
      assert ReachIn(edges, unset, a, t, n + 1);
    }
    assert c in Ahead(edges, unset, a) && c !in Ahead(edges, unset, c);
  }

  lemma {:induction false} AcyclicEnds(edges: Graph, unset: set<TypeInfo>, a: TypeInfo)
    requires NoCycleAhead(edges, unset, a)
    ensures EndsIn(edges, unset, a, |Ahead(edges, unset, a)| + 1)
    decreases |Ahead(edges, unset, a)|
  {
    var n := |Ahead(edges, unset, a)|;
    forall c | c in unset && a in edges && c in edges[a]
      ensures EndsIn(edges, unset, c, n)
    {
      AheadShrinks(edges, unset, a, c);
      Smaller(Ahead(edges, unset, c), Ahead(edges, unset, a));
      AcyclicEnds(edges, unset, c);
      EndsInMore(edges, unset, c, |Ahead(edges, unset, c)| + 1, n);
    }
  }

  lemma Smaller<T>(a: set<T>, b: set<T>)
    requires a < b
    ensures |a| < |b|
  {
    var x :| x in b && x !in a;
    assert b == (b - a) + a && x in b - a;
    assert |b| == |b - a| + |a|;
  }

  ghost predicate Ends(edges: Graph, unset: set<TypeInfo>, a: TypeInfo) {
    exists n: nat :: EndsIn(edges, unset, a, n)
  }

  /** Such a call ends exactly when no cycle of casts without converters lies ahead of it. */
  lemma EndsIff(edges: Graph, unset: set<TypeInfo>, a: TypeInfo)
    ensures Ends(edges, unset, a) <==> NoCycleAhead(edges, unset, a)
  {
    if n: nat :| EndsIn(edges, unset, a, n) {
      forall t | t in unset + {a} && Reach(edges, unset, a, t)
        ensures !OnCycle(edges, unset, t)
      {
        var k: nat :| ReachIn(edges, unset, a, t, k);
        WalkIsShort(edges, unset, a, t, n, k);
        EndsOffCycles(edges, unset, t, n - k);
      }
    }
    if NoCycleAhead(edges, unset, a) {
      AcyclicEnds(edges, unset, a);
    }
  }

  /** A type that casts to itself without a converter, as every generated row has it, is such a cycle. */
  lemma SelfCastNeverEnds(edges: Graph, unset: set<TypeInfo>, a: TypeInfo)
    requires a in edges && a in edges[a]
    ensures !Ends(edges, unset + {a}, a)
  {
    var more := unset + {a};
    EndsIff(edges, more, a);
    assert ReachIn(edges, more, a, a, 0) && ReachIn(edges, more, a, a, 1);
    assert Reach(edges, more, a, a) && OnCycle(edges, more, a);
    assert a in more + {a};
  }

  // ---------- the loop over one cast list, on values ----------

  /** `marked` has the value, all else is as in `data`; only the start may still have unset successors. */
  ghost predicate Marking(edges: Graph, data: Data, start: TypeInfo, value: nat, marked: set<TypeInfo>, now: Data) {
    && start in marked && marked <= data.Keys && now.Keys == data.Keys && edges.Keys == data.Keys
    && (forall t :: t in data ==> now[t] == if t in marked then value else data[t])
    && (forall t :: t in marked && t != start ==> t in Unset(data) && Reach(edges, Unset(data), start, t))
    && (forall x, y :: x in marked && x != start && y in edges[x] && y in Unset(data) ==> y in marked)
  }

  ghost function Reachable(edges: Graph, unset: set<TypeInfo>, a: TypeInfo): set<TypeInfo> {
    set t | t in unset && Reach(edges, unset, a, t)
  }

  /** A recursive call on an unset successor of the start keeps the marking. */
  lemma MarkingStep(edges: Graph, data: Data, start: TypeInfo, value: nat, marked: set<TypeInfo>, now: Data,
          c: TypeInfo)
    requires Marking(edges, data, start, value, marked, now) && value != 0
    requires c in edges[start] && c in now && now[c] == 0
    ensures Marking(edges, data, start, value, marked + Reachable(edges, Unset(now), c), Spread(edges, now, c, value))
    ensures c in Reachable(edges, Unset(now), c)
  {
    var u0, u := Unset(data), Unset(now);
    var r := Reachable(edges, u, c);
    var marked', now' := marked + r, Spread(edges, now, c, value);
    assert u == u0 - marked;
    assert ReachIn(edges, u, c, c, 0);
    forall t | t in r
      ensures t in u0 && Reach(edges, u0, start, t)
    {
      var n: nat :| ReachIn(edges, u, c, t, n);
      ReachMonotone(edges, u, u0, c, t, n);
      assert ReachIn(edges, u0, start, t, n + 1);
    }
    forall x, y | x in r && y in edges[x] && y in u0
      ensures y in marked'
    {
      if y in u {
        var n: nat :| ReachIn(edges, u, c, x, n);
        ReachExtend(edges, u, c, x, y, n);
      }
    }
    forall t | t in data
      ensures now'[t] == if t in marked' then value else data[t]
    {
      ReachedIsUnset(edges, u, c, t);
    }
  }

  lemma ReachedIsUnset(edges: Graph, unset: set<TypeInfo>, a: TypeInfo, t: TypeInfo)
    requires a in unset
    ensures Reach(edges, unset, a, t) ==> t in unset
  {
    if n: nat :| ReachIn(edges, unset, a, t, n) {
      ReachedInIsUnset(edges, unset, a, t, n);
    }
  }

  lemma {:induction false} ReachedInIsUnset(edges: Graph, unset: set<TypeInfo>, a: TypeInfo, t: TypeInfo, n: nat)
    requires a in unset && ReachIn(edges, unset, a, t, n)
    ensures t in unset
  {
    if n > 0 {
      var c :| c in unset && c in edges[a] && ReachIn(edges, unset, c, t, n - 1);
      ReachedInIsUnset(edges, unset, c, t, n - 1);
    }
  }

  /** When every unset successor of the start is marked too, the marking is the whole spread. */
  lemma MarkingDone(edges: Graph, data: Data, start: TypeInfo, value: nat, marked: set<TypeInfo>, now: Data)
    requires Marking(edges, data, start, value, marked, now)
    requires forall y :: y in edges[start] && y in Unset(data) ==> y in marked
    ensures now == Spread(edges, data, start, value)
  {
    var u := Unset(data);
    assert ClosedUnder(edges, u, marked);
    forall t | t in data
      ensures t in marked <==> t == start || Reach(edges, u, start, t)
    {
      if n: nat :| ReachIn(edges, u, start, t, n) {
        ClosedHoldsReachable(edges, u, marked, start, t, n);
      }
    }
  }

  // ---------- the graph in memory ----------

  /** `edges` is the graph of casts without converters that the lists of its types make up. */
  ghost predicate GraphOk(edges: Graph, nodes: set<CastInfo>)
    reads edges.Keys`cast, edges.Keys`chain, edges.Keys`sources, nodes
  {
    forall t | t in edges.Keys :: Nodes(t) <= nodes && NodeOk(edges, t)
  }

  ghost predicate NodeOk(edges: Graph, t: TypeInfo)
    requires t in edges
    reads t`cast, t`chain, t`sources, Nodes(t)
  {
    ListValid(t) && (forall x :: x in t.sources ==> x in edges) && edges[t] == Plain(t)
  }

  /** A start's value stored: the loop begins with the start as the only marked type. */
  lemma MarkingBegins(edges: Graph, data: Data, start: TypeInfo, value: nat)
    requires edges.Keys == data.Keys && start in data
    ensures Marking(edges, data, start, value, {start}, data[start := value])
  {
  }

  /** What is still unset during the loop is less than what the call started with. */
  lemma MarkingShrinks(edges: Graph, data: Data, start: TypeInfo, value: nat, marked: set<TypeInfo>, now: Data)
    requires Marking(edges, data, start, value, marked, now) && value != 0
    ensures Unset(now) <= Unset(data) - {start}
  {
  }

  /** Writing client data changes no list. */
  method Store(ti: TypeInfo, clientdata: nat, ghost edges: Graph, ghost nodes: set<CastInfo>)
    requires GraphOk(edges, nodes) && ti in edges
    modifies ti`clientdata
    ensures GraphOk(edges, nodes) && DataOf(edges.Keys) == old(DataOf(edges.Keys))[ti := clientdata]
  {
    ti.clientdata := clientdata;
  }

  /** What a type's loop does with one record. */
  ghost function Visited(edges: Graph, data: Data, cast: CastInfo, source: TypeInfo, value: nat): Data {
    if cast.converter.None? && source in data && data[source] == 0 then Spread(edges, data, source, value) else data
  }

  /** A call that writes null changes its start alone. */
  lemma NullSpread(edges: Graph, data: Data, start: TypeInfo)
    requires start in data
    ensures Spread(edges, data, start, 0) == data[start := 0]
  {
    forall t | t in data && t != start && Reach(edges, Unset(data), start, t)
      ensures data[t] == 0
    {
      var n: nat :| ReachIn(edges, Unset(data), start, t, n);
      StepsAreUnset(edges, Unset(data), start, t, n);
    }
  }

  lemma NullVisited(edges: Graph, data: Data, cast: CastInfo, source: TypeInfo)
    ensures Visited(edges, data, cast, source, 0) == data
  {
    if source in data && data[source] == 0 {
      NullSpread(edges, data, source);
    }
  }

  /** The body of the loop over a cast list; `depth` bounds the recursion of a call that writes null. */
  method Visit(cast: CastInfo, clientdata: nat, ghost edges: Graph, ghost nodes: set<CastInfo>, ghost depth: nat)
    requires GraphOk(edges, nodes) && cast.ty in edges
    requires clientdata == 0 && cast.converter.None? && cast.ty.clientdata == 0 ==>
               EndsIn(edges, Unset(DataOf(edges.Keys)), cast.ty, depth)
    modifies edges.Keys`clientdata
    ensures GraphOk(edges, nodes)
    ensures DataOf(edges.Keys) == Visited(edges, old(DataOf(edges.Keys)), cast, old(cast.ty), clientdata)
    decreases if clientdata != 0 then Unset(DataOf(edges.Keys)) else {}, if clientdata != 0 then 0 else 3 * depth + 1
  {
    if cast.converter.None? {
      var tc := cast.ty;
      if tc.clientdata == 0 {
        assert tc in Unset(DataOf(edges.Keys));
        assert Unset(DataOf(edges.Keys)) + {tc} == Unset(DataOf(edges.Keys));
        TypeClientData(tc, clientdata, edges, nodes, depth);
      }
    }
  }

  /** What a call that writes null needs to go on to record `k`, whose source is `source`. */
  lemma NullStep(edges: Graph, data: Data, start: TypeInfo, now: Data, source: TypeInfo, depth: nat)
    requires start in edges && start in data && now == data[start := 0]
    requires EndsIn(edges, Unset(data) + {start}, start, depth)
    requires source in edges[start] && source in now && now[source] == 0
    ensures depth > 0 && EndsIn(edges, Unset(now), source, depth - 1)
  {
    assert Unset(now) == Unset(data) + {start};
  }

  /** The unset sources of the first `k` records are marked. */
  ghost predicate SourcesMarked(data: Data, chain: seq<CastInfo>, sources: seq<TypeInfo>, k: nat, marked: set<TypeInfo>)
    requires k <= |chain| == |sources|
  {
    forall j :: 0 <= j < k && chain[j].converter.None? && sources[j] in Unset(data) ==> sources[j] in marked
  }

  lemma VisitedMarks(edges: Graph, data: Data, start: TypeInfo, value: nat, marked: set<TypeInfo>, now: Data,
          cast: CastInfo, source: TypeInfo)
    returns (marked': set<TypeInfo>)
    requires Marking(edges, data, start, value, marked, now) && value != 0
    requires cast.converter.None? ==> source in edges[start]
    ensures marked <= marked' && Marking(edges, data, start, value, marked', Visited(edges, now, cast, source, value))
    ensures cast.converter.None? && source in Unset(data) ==> source in marked'
  {
    if cast.converter.None? && source in now && now[source] == 0 {
      MarkingStep(edges, data, start, value, marked, now, source);
      marked' := marked + Reachable(edges, Unset(now), source);
    } else {
      marked' := marked;
    }
  }

  /** The loop has done the first `k` records, and `marked` has the value. */
  ghost predicate Spreading(edges: Graph, data: Data, ti: TypeInfo, value: nat, chain: seq<CastInfo>,
          sources: seq<TypeInfo>, k: nat, marked: set<TypeInfo>, now: Data)
    requires k <= |chain| == |sources| && ti in data
  {
    && Marking(edges, data, ti, value, marked, now)
    && if value != 0 then SourcesMarked(data, chain, sources, k, marked) else now == data[ti := 0]
  }

  /** Record `k` of the list of `ti`. */
  method VisitNth(cast: CastInfo, clientdata: nat, ghost ti: TypeInfo, ghost k: nat, ghost data: Data,
          ghost marked: set<TypeInfo>, ghost edges: Graph, ghost nodes: set<CastInfo>, ghost depth: nat)
    returns (ghost marked': set<TypeInfo>)
    requires GraphOk(edges, nodes) && ti in edges && ti in data && k < |ti.chain| == |ti.sources| && cast == ti.chain[k]
    requires Spreading(edges, data, ti, clientdata, ti.chain, ti.sources, k, marked, DataOf(edges.Keys))
    requires clientdata == 0 ==> EndsIn(edges, Unset(data) + {ti}, ti, depth + 1)
    modifies edges.Keys`clientdata
    ensures GraphOk(edges, nodes)
    ensures Spreading(edges, data, ti, clientdata, ti.chain, ti.sources, k + 1, marked', DataOf(edges.Keys))
    decreases if clientdata != 0 then Unset(DataOf(edges.Keys)) else {}, if clientdata != 0 then 1 else 3 * depth + 2
  {
    assert NodeOk(edges, ti) && Linked(ti, k);
    ghost var now, source := DataOf(edges.Keys), ti.sources[k];
    if clientdata == 0 {
      if cast.converter.None? && now[source] == 0 {
        NullStep(edges, data, ti, now, source, depth + 1);
      }
      NullVisited(edges, now, cast, source);
    }
    Visit(cast, clientdata, edges, nodes, depth);
    marked' := marked;
    if clientdata != 0 {
      marked' := VisitedMarks(edges, data, ti, clientdata, marked, now, cast, source);
    }
  }

  /**
   * `SWIG_TypeClientData`. With client data that is not null it ends on every graph; with null, which
   * leaves what it visits unset, it ends where no cycle lies ahead.
   */
  method TypeClientData(ti: TypeInfo, clientdata: nat, ghost edges: Graph, ghost nodes: set<CastInfo>, ghost depth: nat)
    requires GraphOk(edges, nodes) && ti in edges
    requires clientdata == 0 ==> EndsIn(edges, Unset(DataOf(edges.Keys)) + {ti}, ti, depth)
    modifies edges.Keys`clientdata
    ensures GraphOk(edges, nodes)
    ensures DataOf(edges.Keys) == Spread(edges, old(DataOf(edges.Keys)), ti, clientdata)
    decreases if clientdata != 0 then Unset(DataOf(edges.Keys)) - {ti} else {}, if clientdata != 0 then 2 else 3 * depth
  {
    hide GraphOk, Spread, Spreading, Marking, ListValid, Linked, EndsIn;
    ghost var data := DataOf(edges.Keys);
    if clientdata == 0 {
      SomeDepth(edges, Unset(data) + {ti}, ti, depth);
    }
    ghost var chain, sources := ti.chain, ti.sources;
    ListOf(edges, nodes, ti);
    var cast := ti.cast;
    Store(ti, clientdata, edges, nodes);
    SpreadingBegins(edges, data, ti, clientdata, chain, sources);
    ghost var marked, k: nat := {ti}, 0;
    while cast != null
      invariant GraphOk(edges, nodes)
      invariant k <= |chain| == |sources| && cast == if k < |chain| then chain[k] else null
      invariant Spreading(edges, data, ti, clientdata, chain, sources, k, marked, DataOf(edges.Keys))
      decreases |chain| - k
    {
      SpreadingShrinks(edges, data, ti, clientdata, marked, DataOf(edges.Keys), chain, sources, k);
      marked := VisitNth(cast, clientdata, ti, k, data, marked, edges, nodes, if clientdata == 0 then depth - 1 else 0);
      NextOf(edges, nodes, ti, k);
      cast, k := cast.next, k + 1;
    }
    SpreadingDone(edges, data, ti, clientdata, chain, sources, marked, DataOf(edges.Keys));
  }

  lemma ListOf(edges: Graph, nodes: set<CastInfo>, t: TypeInfo)
    requires GraphOk(edges, nodes) && t in edges
    ensures |t.chain| == |t.sources| && t.cast == if t.chain == [] then null else t.chain[0]
    ensures edges[t] == PlainSources(t.chain, t.sources)
  {
    assert NodeOk(edges, t);
  }

  lemma NextOf(edges: Graph, nodes: set<CastInfo>, t: TypeInfo, k: nat)
    requires GraphOk(edges, nodes) && t in edges && k < |t.chain|
    ensures t.chain[k].next == if k + 1 < |t.chain| then t.chain[k + 1] else null
  {
    assert NodeOk(edges, t) && Linked(t, k);
  }

  lemma SpreadingBegins(edges: Graph, data: Data, ti: TypeInfo, value: nat, chain: seq<CastInfo>,
          sources: seq<TypeInfo>)
    requires edges.Keys == data.Keys && ti in data && |chain| == |sources|
    ensures Spreading(edges, data, ti, value, chain, sources, 0, {ti}, data[ti := value])
  {
    MarkingBegins(edges, data, ti, value);
  }

  lemma SpreadingShrinks(edges: Graph, data: Data, ti: TypeInfo, value: nat, marked: set<TypeInfo>, now: Data,
          chain: seq<CastInfo>, sources: seq<TypeInfo>, k: nat)
    requires k <= |chain| == |sources| && ti in data
    requires Spreading(edges, data, ti, value, chain, sources, k, marked, now)
    ensures value != 0 ==> Unset(now) <= Unset(data) - {ti}
  {
    if value != 0 {
      MarkingShrinks(edges, data, ti, value, marked, now);
    }
  }

  lemma SpreadingDone(edges: Graph, data: Data, ti: TypeInfo, value: nat, chain: seq<CastInfo>,
          sources: seq<TypeInfo>, marked: set<TypeInfo>, now: Data)
    requires |chain| == |sources| && ti in data
    requires Spreading(edges, data, ti, value, chain, sources, |chain|, marked, now)
    requires ti in edges && edges[ti] == PlainSources(chain, sources)
    ensures now == Spread(edges, data, ti, value)
  {
    if value == 0 {
      NullSpread(edges, data, ti);
    } else {
      MarkingDone(edges, data, ti, value, marked, now);
    }
  }

  /** What a call means: the start and the unset types it reaches get the value, all others keep theirs. */
  lemma SpreadMeaning(edges: Graph, data: Data, start: TypeInfo, value: nat, t: TypeInfo)
    requires start in data && t in data && value != 0 && edges.Keys == data.Keys
    ensures var now := Spread(edges, data, start, value);
            && now[start] == value
            && (t != start && data[t] != 0 ==> now[t] == data[t])
            && (t != start && data[t] == 0 ==> now[t] == if Reach(edges, Unset(data), start, t) then value else 0)
            && (t != start && now[t] != data[t] ==> forall y :: y in edges[t] && y in data ==> now[y] != 0)
  {
    var now, u := Spread(edges, data, start, value), Unset(data);
    if t != start && Reach(edges, u, start, t) {
      var n: nat :| ReachIn(edges, u, start, t, n);
      StepsAreUnset(edges, u, start, t, n);
      forall y | y in edges[t] && y in data
        ensures now[y] != 0
      {
        if y in u {
          ReachExtend(edges, u, start, t, y, n);
        }
      }
    }
  }

  lemma {:induction false} StepsAreUnset(edges: Graph, unset: set<TypeInfo>, a: TypeInfo, b: TypeInfo, n: nat)
    requires ReachIn(edges, unset, a, b, n)
    ensures a == b || b in unset
  {
    if n > 0 {
      var c :| c in unset && c in edges[a] && ReachIn(edges, unset, c, b, n - 1);
      StepsAreUnset(edges, unset, c, b, n - 1);
    }
  }

  // ---------- propagation over a module ----------

  ghost predicate RootOf(edges: Graph, slots: seq<TypeInfo>, data: Data, x: TypeInfo, t: TypeInfo)
    requires x in slots ==> x in data
  {
    x in slots && data[x] != 0 && Reach(edges, Unset(data), x, t)
  }

  /** Slot `i` is the first one in table order that is set and reaches `t`. */
  ghost predicate FirstRoot(edges: Graph, slots: seq<TypeInfo>, data: Data, i: nat, t: TypeInfo)
    requires i < |slots| && forall x :: x in slots ==> x in data
  {
    RootOf(edges, slots, data, slots[i], t) && forall j :: 0 <= j < i ==> !RootOf(edges, slots, data, slots[j], t)
  }

  /** Between two rounds: set types are kept, new ones stem from a marked slot and are closed. */
  ghost predicate Propagating(edges: Graph, slots: seq<TypeInfo>, data: Data, now: Data) {
    && now.Keys == data.Keys == edges.Keys && (forall x :: x in slots ==> x in data)
    && (forall t :: t in data && data[t] != 0 ==> now[t] == data[t])
    && (forall t :: t in data && data[t] == 0 && now[t] != 0 ==>
          exists i :: 0 <= i < |slots| && FirstRoot(edges, slots, data, i, t) && now[t] == data[slots[i]])
    && (forall x, y :: x in data && data[x] == 0 && now[x] != 0 && y in edges[x] && y in data ==> now[y] != 0)
  }

  ghost predicate AllSet(now: Data, ts: set<TypeInfo>) {
    forall y :: y in ts && y in now ==> now[y] != 0
  }

  /** The successors of the first `i` slots that were marked are set. */
  ghost predicate SlotsDone(edges: Graph, slots: seq<TypeInfo>, data: Data, i: nat, now: Data)
    requires i <= |slots| && forall x :: x in slots ==> x in data && x in edges
  {
    forall j :: 0 <= j < i && data[slots[j]] != 0 ==> AllSet(now, edges[slots[j]])
  }

  /** What the first `i` slots reach is set once their successors are. */
  lemma RootsDone(edges: Graph, slots: seq<TypeInfo>, data: Data, i: nat, now: Data, x: TypeInfo, t: TypeInfo)
    requires Propagating(edges, slots, data, now) && i <= |slots| && SlotsDone(edges, slots, data, i, now)
    requires x in slots[..i] && t in data && RootOf(edges, slots, data, x, t)
    ensures now[t] != 0
  {
    var u := Unset(data);
    var m := {x} + set y | y in data && now[y] != 0 && data[y] == 0;
    var n: nat :| ReachIn(edges, u, x, t, n);
    ClosedHoldsReachable(edges, u, m, x, t, n);
  }

  /** A type that is set from slot `i`, when the slots before are done, is reached from none of those. */
  lemma FirstFrom(edges: Graph, slots: seq<TypeInfo>, data: Data, i: nat, now: Data, t: TypeInfo)
    requires Propagating(edges, slots, data, now) && i < |slots| && SlotsDone(edges, slots, data, i, now)
    requires t in data && now[t] == 0 && RootOf(edges, slots, data, slots[i], t)
    ensures FirstRoot(edges, slots, data, i, t)
  {
    forall j | 0 <= j < i
      ensures !RootOf(edges, slots, data, slots[j], t)
    {
      assert slots[..i][j] == slots[j];
      if RootOf(edges, slots, data, slots[j], t) {
        RootsDone(edges, slots, data, i, now, slots[j], t);
      }
    }
  }

  lemma PropagatingStep(edges: Graph, slots: seq<TypeInfo>, data: Data, now: Data, i: nat, c: TypeInfo)
    requires Propagating(edges, slots, data, now) && i < |slots| && SlotsDone(edges, slots, data, i, now)
    requires now[slots[i]] != 0 && c in edges[slots[i]] && c in now && now[c] == 0
    ensures Propagating(edges, slots, data, Spread(edges, now, c, now[slots[i]]))
  {
    var x := slots[i];
    var now', u, u0 := Spread(edges, now, c, now[x]), Unset(now), Unset(data);
    forall t | t in data && now'[t] != now[t]
      ensures data[t] == 0 && FirstRoot(edges, slots, data, i, t) && now'[t] == data[x]
      ensures forall y :: y in edges[t] && y in data ==> now'[y] != 0
    {
      SpreadMeaning(edges, now, c, now[x], c);
      SpreadMeaning(edges, now, c, now[x], t);
      assert ReachIn(edges, u, c, c, 0);
      var n: nat :| ReachIn(edges, u, c, t, n);
      ReachMonotone(edges, u, u0, c, t, n);
      assert ReachIn(edges, u0, x, t, n + 1);
      assert RootOf(edges, slots, data, x, t);
      FirstFrom(edges, slots, data, i, now, t);
      forall y | y in edges[t] && y in data
        ensures now'[y] != 0
      {
        if y in u {
          ReachExtend(edges, u, c, t, y, n);
        }
      }
    }
  }

  /** What `SWIG_PropagateClientData` leaves: exactly the types that marked slots reach are set as well. */
  ghost predicate Propagated(edges: Graph, slots: seq<TypeInfo>, data: Data, now: Data) {
    && Propagating(edges, slots, data, now)
    && forall x, t :: x in slots && t in data && RootOf(edges, slots, data, x, t) ==> now[t] != 0
  }

  lemma PropagatingDone(edges: Graph, slots: seq<TypeInfo>, data: Data, now: Data)
    requires Propagating(edges, slots, data, now)
    requires SlotsDone(edges, slots, data, |slots|, now)
    ensures Propagated(edges, slots, data, now)
  {
    assert slots[..|slots|] == slots;
    forall x, t | x in slots && t in data && RootOf(edges, slots, data, x, t)
      ensures now[t] != 0
    {
      RootsDone(edges, slots, data, |slots|, now, x, t);
    }
  }

  /**
   * What propagation means: set types keep their data, an unset type gets the data of the first slot, in
   * table order, that was set and reaches it, and one that no such slot reaches stays unset.
   */
  lemma PropagatedMeaning(edges: Graph, slots: seq<TypeInfo>, data: Data, now: Data, i: nat, t: TypeInfo)
    requires Propagated(edges, slots, data, now) && t in data
    ensures data[t] != 0 ==> now[t] == data[t]
    ensures data[t] == 0 && i < |slots| && FirstRoot(edges, slots, data, i, t) ==> now[t] == data[slots[i]]
    ensures data[t] == 0 && (forall x :: x in slots ==> !RootOf(edges, slots, data, x, t)) ==> now[t] == 0
  {
    if data[t] == 0 && i < |slots| && FirstRoot(edges, slots, data, i, t) {
      assert RootOf(edges, slots, data, slots[i], t) && now[t] != 0;
      var j :| 0 <= j < |slots| && FirstRoot(edges, slots, data, j, t) && now[t] == data[slots[j]];
      assert RootOf(edges, slots, data, slots[j], t);
    }
  }

  /** The module's marked types are closed under casts without converters. */
  lemma PropagatedIsClosed(edges: Graph, slots: seq<TypeInfo>, data: Data, now: Data, x: TypeInfo, y: TypeInfo)
    requires Propagated(edges, slots, data, now) && x in slots && now[x] != 0 && y in edges[x] && y in data
    ensures now[y] != 0
  {
    var u := Unset(data);
    if data[x] != 0 && data[y] == 0 {
      assert ReachIn(edges, u, y, y, 0);
      assert ReachIn(edges, u, x, y, 1);
    }
  }

  // ---------- closed marks ----------

  /** Every type that casts without a converter to a set type is set. */
  ghost predicate Closed(edges: Graph, data: Data) {
    ClosedOutside(edges, data, {})
  }

  /** The same, but for the types in `open`. */
  ghost predicate ClosedOutside(edges: Graph, data: Data, open: set<TypeInfo>) {
    forall x, y :: x in data && x !in open && data[x] != 0 && x in edges && y in edges[x] && y in data ==> data[y] != 0
  }

  /** Some other type that is set has a cast without a converter from `t`. */
  ghost predicate HasSetUser(edges: Graph, data: Data, t: TypeInfo) {
    exists x :: x in data && x != t && data[x] != 0 && x in edges && t in edges[x]
  }

  /** Unsetting one type keeps closed marks closed exactly when no other type that is set needs it. */
  lemma UnsetKeepsClosedIff(edges: Graph, data: Data, t: TypeInfo)
    requires Closed(edges, data) && t in data
    ensures Closed(edges, data[t := 0]) <==> !HasSetUser(edges, data, t)
  {
    var now := data[t := 0];
    if x :| x in data && x != t && data[x] != 0 && x in edges && t in edges[x] {
      assert now[x] != 0 && now[t] == 0;
    }
  }

  lemma SpreadKeepsClosed(edges: Graph, data: Data, start: TypeInfo, value: nat)
    requires Closed(edges, data) && edges.Keys == data.Keys && start in data && value != 0
    ensures Closed(edges, Spread(edges, data, start, value))
  {
    var now, u := Spread(edges, data, start, value), Unset(data);
    forall x, y | x in now && now[x] != 0 && y in edges[x] && y in now
      ensures now[y] != 0
    {
      SpreadMeaning(edges, data, start, value, x);
      SpreadMeaning(edges, data, start, value, y);
      if x == start && y in u {
        assert ReachIn(edges, u, y, y, 0);
        assert ReachIn(edges, u, start, y, 1);
      }
    }
  }

  /** Propagation closes the marks of its slots; the other marks were closed. */
  lemma PropagatedCloses(edges: Graph, slots: seq<TypeInfo>, data: Data, now: Data)
    requires Propagated(edges, slots, data, now) && ClosedOutside(edges, data, set t | t in slots)
    ensures Closed(edges, now)
  {
    forall x, y | x in now && now[x] != 0 && y in edges[x] && y in now
      ensures now[y] != 0
    {
      if x in slots {
        PropagatedIsClosed(edges, slots, data, now, x, y);
      }
    }
  }

  /** What a load leaves open is at the slots of the module: the rest keeps its casts and its marks. */
  lemma LoadedOutside(edges: Graph, data: Data, edges': Graph, data': Data, open: set<TypeInfo>)
    requires Closed(edges, data) && edges.Keys == data.Keys == edges'.Keys == data'.Keys
    requires forall x :: x in edges && x !in open ==> edges'[x] == edges[x] && data'[x] == data[x]
    requires forall x :: x in data && data[x] != 0 ==> data'[x] != 0
    ensures ClosedOutside(edges', data', open)
  {
  }

  /** Every type set before keeps its value. */
  ghost predicate Keeps(before: Data, now: Data) {
    before.Keys == now.Keys && forall y :: y in before && before[y] != 0 ==> now[y] == before[y]
  }

  lemma KeepsAllSet(before: Data, now: Data, ts: set<TypeInfo>)
    requires Keeps(before, now) && AllSet(before, ts)
    ensures AllSet(now, ts)
  {
  }

  /** The sources of the first `k` records without converters. */
  ghost function PlainBefore(chain: seq<CastInfo>, sources: seq<TypeInfo>, k: nat): set<TypeInfo>
    requires k <= |chain| == |sources|
  {
    set j | 0 <= j < k && chain[j].converter.None? :: sources[j]
  }

  lemma SlotsStayDone(edges: Graph, slots: seq<TypeInfo>, data: Data, i: nat, before: Data, now: Data)
    requires i <= |slots| && (forall x :: x in slots ==> x in data && x in edges)
    requires SlotsDone(edges, slots, data, i, before) && Keeps(before, now)
    ensures SlotsDone(edges, slots, data, i, now)
  {
    forall j | 0 <= j < i && data[slots[j]] != 0
      ensures AllSet(now, edges[slots[j]])
    {
      KeepsAllSet(before, now, edges[slots[j]]);
    }
  }

  /** The body of the inner loop of `SWIG_PropagateClientData`, on record `k` of the list of `ty`. */
  method PropagateVisit(ty: TypeInfo, equiv: CastInfo, ghost k: nat, ghost i: nat, ghost slots: seq<TypeInfo>,
          ghost data: Data, ghost edges: Graph, ghost nodes: set<CastInfo>)
    requires GraphOk(edges, nodes) && Propagating(edges, slots, data, DataOf(edges.Keys))
    requires i < |slots| && ty == slots[i] && SlotsDone(edges, slots, data, i, DataOf(edges.Keys))
    requires ty.clientdata != 0
    requires k < |ty.chain| == |ty.sources| && equiv == ty.chain[k]
    modifies edges.Keys`clientdata
    ensures GraphOk(edges, nodes) && Propagating(edges, slots, data, DataOf(edges.Keys))
    ensures Keeps(old(DataOf(edges.Keys)), DataOf(edges.Keys))
    ensures equiv.converter.None? && ty.sources[k] in edges ==> DataOf(edges.Keys)[ty.sources[k]] != 0
  {
    assert NodeOk(edges, ty) && Linked(ty, k);
    ghost var now := DataOf(edges.Keys);
    Visit(equiv, ty.clientdata, edges, nodes, 0);
    VisitPropagates(edges, slots, data, now, i, equiv, ty.sources[k]);
  }

  lemma PlainBeforeStep(now: Data, now': Data, chain: seq<CastInfo>, sources: seq<TypeInfo>, k: nat)
    requires k < |chain| == |sources| && AllSet(now, PlainBefore(chain, sources, k)) && Keeps(now, now')
    requires chain[k].converter.None? && sources[k] in now' ==> now'[sources[k]] != 0
    ensures AllSet(now', PlainBefore(chain, sources, k + 1))
  {
    KeepsAllSet(now, now', PlainBefore(chain, sources, k));
  }

  lemma AllPlain(edges: Graph, nodes: set<CastInfo>, t: TypeInfo)
    requires GraphOk(edges, nodes) && t in edges
    ensures |t.chain| == |t.sources| && edges[t] == PlainBefore(t.chain, t.sources, |t.chain|)
    ensures PlainBefore(t.chain, t.sources, 0) == {}
  {
    assert NodeOk(edges, t);
  }

  /** The inner loop of `SWIG_PropagateClientData`. */
  method PropagateFrom(ty: TypeInfo, ghost i: nat, ghost slots: seq<TypeInfo>, ghost data: Data,
          ghost edges: Graph, ghost nodes: set<CastInfo>)
    requires GraphOk(edges, nodes) && Propagating(edges, slots, data, DataOf(edges.Keys))
    requires forall x :: x in slots ==> x in data && x in edges
    requires i < |slots| && ty == slots[i] && SlotsDone(edges, slots, data, i, DataOf(edges.Keys))
    requires ty.clientdata != 0
    modifies edges.Keys`clientdata
    ensures GraphOk(edges, nodes) && Propagating(edges, slots, data, DataOf(edges.Keys))
    ensures AllSet(DataOf(edges.Keys), edges[ty])
    ensures Keeps(old(DataOf(edges.Keys)), DataOf(edges.Keys))
  {
    hide GraphOk, Propagating, PlainBefore;
    ghost var before := DataOf(edges.Keys);
    ghost var chain, sources := ty.chain, ty.sources;
    AllPlain(edges, nodes, ty);
    ListOf(edges, nodes, ty);
    var equiv := ty.cast;
    ghost var k: nat := 0;
    while equiv != null
      invariant GraphOk(edges, nodes) && Propagating(edges, slots, data, DataOf(edges.Keys))
      invariant k <= |chain| == |sources| && equiv == if k < |chain| then chain[k] else null
      invariant Keeps(before, DataOf(edges.Keys)) && SlotsDone(edges, slots, data, i, DataOf(edges.Keys))
      invariant AllSet(DataOf(edges.Keys), PlainBefore(chain, sources, k))
      decreases |chain| - k
    {
      ghost var now := DataOf(edges.Keys);
      assert now[ty] != 0;
      PropagateVisit(ty, equiv, k, i, slots, data, edges, nodes);
      SlotsStayDone(edges, slots, data, i, now, DataOf(edges.Keys));
      PlainBeforeStep(now, DataOf(edges.Keys), chain, sources, k);
      NextOf(edges, nodes, ty, k);
      equiv, k := equiv.next, k + 1;
    }
  }

  lemma VisitPropagates(edges: Graph, slots: seq<TypeInfo>, data: Data, now: Data, i: nat, cast: CastInfo,
          source: TypeInfo)
    requires Propagating(edges, slots, data, now) && i < |slots| && SlotsDone(edges, slots, data, i, now)
    requires now[slots[i]] != 0 && (cast.converter.None? ==> source in edges[slots[i]])
    ensures var now' := Visited(edges, now, cast, source, now[slots[i]]);
            && Propagating(edges, slots, data, now')
            && Keeps(now, now')
            && (cast.converter.None? && source in now ==> now'[source] != 0)
  {
    var x := slots[i];
    if cast.converter.None? && source in now && now[source] == 0 {
      PropagatingStep(edges, slots, data, now, i, source);
      SpreadMeaning(edges, now, source, now[x], source);
      forall y | y in now && now[y] != 0
        ensures Spread(edges, now, source, now[x])[y] == now[y]
      {
        SpreadMeaning(edges, now, source, now[x], y);
      }
    }
  }

  /** One slot of the outer loop. */
  method PropagateSlot(ty: TypeInfo, ghost i: nat, ghost slots: seq<TypeInfo>, ghost data: Data,
          ghost edges: Graph, ghost nodes: set<CastInfo>)
    requires GraphOk(edges, nodes) && Propagating(edges, slots, data, DataOf(edges.Keys))
    requires i < |slots| && ty == slots[i] && SlotsDone(edges, slots, data, i, DataOf(edges.Keys))
    modifies edges.Keys`clientdata
    ensures GraphOk(edges, nodes) && Propagating(edges, slots, data, DataOf(edges.Keys))
    ensures data[ty] != 0 ==> AllSet(DataOf(edges.Keys), edges[ty])
    ensures Keeps(old(DataOf(edges.Keys)), DataOf(edges.Keys))
  {
    if ty.clientdata != 0 {
      PropagateFrom(ty, i, slots, data, edges, nodes);
    }
  }

  /** The outer loop of `SWIG_PropagateClientData`. */
  method PropagateSlots(m: ModuleInfo, ghost slots: seq<TypeInfo>, ghost edges: Graph, ghost nodes: set<CastInfo>)
    requires GraphOk(edges, nodes) && TableIs(m, slots) && forall x :: x in slots ==> x in edges
    modifies edges.Keys`clientdata
    ensures GraphOk(edges, nodes) && Propagated(edges, slots, old(DataOf(edges.Keys)), DataOf(edges.Keys))
  {
    hide GraphOk, Propagating, SlotsDone;
    ghost var data := DataOf(edges.Keys);
    PropagatingBegins(edges, slots, data);
    for i := 0 to |m.typeInitial|
      invariant GraphOk(edges, nodes) && TableIs(m, slots)
      invariant Propagating(edges, slots, data, DataOf(edges.Keys))
      invariant SlotsDone(edges, slots, data, i, DataOf(edges.Keys))
    {
      ghost var now := DataOf(edges.Keys);
      PropagateSlot(m.types[i], i, slots, data, edges, nodes);
      SlotsStayDone(edges, slots, data, i, now, DataOf(edges.Keys));
      SlotDone(edges, slots, data, i, DataOf(edges.Keys));
    }
    PropagatingDone(edges, slots, data, DataOf(edges.Keys));
  }

  lemma PropagatingBegins(edges: Graph, slots: seq<TypeInfo>, data: Data)
    requires data.Keys == edges.Keys && forall x :: x in slots ==> x in data
    ensures Propagating(edges, slots, data, data) && SlotsDone(edges, slots, data, 0, data)
  {
  }

  lemma SlotDone(edges: Graph, slots: seq<TypeInfo>, data: Data, i: nat, now: Data)
    requires i < |slots| && (forall x :: x in slots ==> x in data && x in edges)
    requires SlotsDone(edges, slots, data, i, now) && (data[slots[i]] != 0 ==> AllSet(now, edges[slots[i]]))
    ensures SlotsDone(edges, slots, data, i + 1, now)
  {
  }

  /** `SWIG_PropagateClientData`; a second run does nothing. */
  method PropagateClientData(m: ModuleInfo, ghost slots: seq<TypeInfo>, ghost edges: Graph, ghost nodes: set<CastInfo>)
    requires GraphOk(edges, nodes) && TableIs(m, slots) && forall x :: x in slots ==> x in edges
    modifies m`propagated, edges.Keys`clientdata
    ensures GraphOk(edges, nodes) && m.propagated
    ensures if old(m.propagated) then DataOf(edges.Keys) == old(DataOf(edges.Keys))
            else Propagated(edges, slots, old(DataOf(edges.Keys)), DataOf(edges.Keys))
  {
    if m.propagated {
      return;
    }
    m.propagated := true;
    PropagateSlots(m, slots, edges, nodes);
  }
}
