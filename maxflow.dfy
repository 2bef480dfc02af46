/** The augmentation loop of the program's entry point: build the residual
    graph, then as long as the breadth-first search finds a path, push its
    bottleneck along it, read the flows back into the network and add the
    bottleneck to the flow value. */
module MaxFlowLoop {
  import opened Network
  import opened ResidualGraph
  import opened PathSearch
  import opened Augmentation
  import opened FlowProjection

  /** Kirchhoff's law in residual form: the residual capacity out of every
      vertex other than the source `s` and the sink `t` is what it was in
      `res0`, since whatever flow enters such a vertex also leaves it. */
  ghost predicate Kirchhoff(res: Adjacency, res0: Adjacency, s: int, t: int)
  {
    |res| == |res0| && forall x :: 0 <= x < |res| ==> KeptAt(res, res0, s, t, x)
  }

  /** The residual capacity out of `x` is what it was, unless `x` is the source or the sink. */
  ghost predicate KeptAt(res: Adjacency, res0: Adjacency, s: int, t: int, x: int)
    requires 0 <= x < |res| && |res| == |res0|
  {
    x != s && x != t ==> SumCapa(res[x].arcs) == SumCapa(res0[x].arcs)
  }

  /** What holds between two rounds, for the initial network `net0` and the
      residual graph `res0` first built from it, with source `s` and sink
      `t`: the residual lists `res` have the arcs of `res0`, which holds the
      reverse of each of its arcs, in the same order and with only their
      capacities changed; `res` and the network `cur` are well formed, `res`
      carries one arc per ordered pair and no negative capacity, the two residual
      capacities of every network arc add up to its capacity, Kirchhoff's law
      holds at every vertex but `s` and `t`, and the network `cur` holds the
      flows read back from `res`. */
  ghost predicate Between(res: Adjacency, cur: Adjacency, net0: Adjacency, res0: Adjacency, s: int, t: int)
  {
    |res| == |net0| && WellFormed(net0) && WellFormed(res) && WellFormed(cur) &&
    SameShape(res0, res) && Symmetric(res0) && UniqueDests(res) && NonNegative(res) &&
    Conserves(NetworkArcs(net0), res) && Kirchhoff(res, res0, s, t) && cur == Project(res, net0)
  }

  /** Every network arc u -> v has its residual twin u -> v. */
  lemma TwinsPresent(res: Adjacency, net0: Adjacency)
    requires WellFormed(net0) && |res| == |net0| && Conserves(NetworkArcs(net0), res)
    ensures forall u, j :: 1 <= u < |net0| && 0 <= j < |net0[u].arcs| ==> HasArc(res[u], net0[u].arcs[j].dest)
  {
    forall u, j | 1 <= u < |net0| && 0 <= j < |net0[u].arcs|
      ensures HasArc(res[u], net0[u].arcs[j].dest)
    {
      ArcsBeforeComplete(net0, |net0|, u, net0[u].arcs[j]);
    }
  }

  /** Right after buildResidualGraph, the invariant holds for a simple network
      whose flows are within capacity, and the network is its own projection. */
  lemma StartBetween(net0: Adjacency, s: int, t: int)
    requires WellFormed(net0) && Simple(net0) && FlowsWithinCapacity(net0)
    ensures Between(Residual(net0), net0, net0, Residual(net0), s, t)
  {
    ResidualShape(net0);
    ResidualSymmetric(net0);
    ResidualConserves(net0);
    ResidualNonNegative(net0);
    ProjectResidual(net0);
  }

  /** One round keeps the invariant: augmenting along an augmenting path `p`
      by a bottleneck `k` that is at least 1 and at most every capacity along
      the path, giving `a`, then reading the flows back, giving `c`, takes
      exactly `k` off the residual capacity out of the source and keeps
      Kirchhoff's law: an inner vertex of the path gains on its arc back
      what it loses on its arc out. */
  lemma RoundKeeps(res: Adjacency, cur: Adjacency, net0: Adjacency, res0: Adjacency, p: seq<int>, k: int, s: int, t: int, a: Adjacency, c: Adjacency)
    requires Between(res, cur, net0, res0, s, t)
    requires IsAugmentingPath(res, s, t, p) && s != t
    requires 1 <= k && forall i, j :: PathArc(res, p, i, j) ==> k <= res[p[i]].arcs[j].capa
    requires Within(p, |res|) && |p| >= 2 && a == Augmented(res, p, k, |p| - 1)
    requires |c| == |a| && c == Project(a, cur)
    ensures Between(a, c, net0, res0, s, t)
    ensures SumCapa(a[s].arcs) == SumCapa(res[s].arcs) - k
  {
    SymmetricKeeps(res0, res);
    forall x | 0 <= x < |a|
      ensures KeptAt(a, res0, s, t, x)
    {
      assert KeptAt(res, res0, s, t, x);
      if x != s && x != t {
        InnerKept(res, p, k, s, t, x);
      }
    }
    AugmentKeepsInvariant(NetworkArcs(net0), res, p, k, s, t);
    AugmentedWellFormed(res, p, k, |p| - 1);
    AugmentedShape(res, p, k, |p| - 1);
    SameShapeTrans(res0, res, a);
    SourceDrop(res, p, k, s, t);
    TwinsPresent(a, net0);
    ProjectOverrides(a, res, net0);
    ProjectShape(a, net0);
  }

  /** With no negative residual capacity, the residual capacity out of any one
      vertex is at most the total residual capacity. */
  lemma {:induction false} ListAtMostTotal(adj: Adjacency, x: int, m: nat)
    requires NonNegative(adj) && 0 <= x < m <= |adj|
    ensures SumCapa(adj[x].arcs) <= SumOver(adj, m, ListCapa)
  {
    if x < m - 1 {
      ListAtMostTotal(adj, x, m - 1);
      SumCapaNonNegative(adj[m - 1].arcs);
    } else {
      SumOverNonNegative(adj, m - 1);
    }
  }

  lemma {:induction false} SumOverNonNegative(adj: Adjacency, m: nat)
    requires NonNegative(adj) && m <= |adj|
    ensures SumOver(adj, m, ListCapa) >= 0
  {
    if m > 0 {
      SumOverNonNegative(adj, m - 1);
      SumCapaNonNegative(adj[m - 1].arcs);
    }
  }

  /** The flow pushed so far is bounded by the sum of the capacities of the
      network: it is what left the residual capacity out of the source. */
  lemma FlowBound(net0: Adjacency, s: int, pushed: int, res: Adjacency)
    requires WellFormed(net0) && FlowsWithinCapacity(net0) && 0 <= s < |net0|
    requires |res| == |net0| && NonNegative(res)
    requires pushed + SumCapa(res[s].arcs) == SumCapa(Residual(net0)[s].arcs)
    ensures pushed <= TotalCapacity(net0)
  {
    ResidualShape(net0);
    ResidualNonNegative(net0);
    ResidualCapacity(net0);
    ListAtMostTotal(Residual(net0), s, |net0|);
    SumCapaNonNegative(res[s].arcs);
  }

  /** The input reader accepts a source equal to the sink. Then the only
      augmenting path is the one-vertex path, which has no step: the
      bottleneck scan keeps INT_MAX, the residual update changes nothing, and
      the next search finds the same path again, so the loop of the entry
      point never stops while each round adds INT_MAX to the flow value
      (minCapacity returns INT_MAX when no arc joins consecutive vertices). */
  lemma SourceIsSinkRepeats(adj: Adjacency, s: int, p: seq<int>, k: int)
    requires IsAugmentingPath(adj, s, s, p)
    ensures p == [s] && forall i, j :: !PathArc(adj, p, i, j)
    ensures Within(p, |adj|) && Augmented(adj, p, k, |p| - 1) == adj
  {
    if |p| > 1 {
      assert false;
    }
    assert p == [p[0]];
  }

  /** The body of the augmentation loop: bottleneck, residual update, flows
      read back into the network. */
  method Round(rg: Graph, network: Graph, path: Path, ghost net0: Adjacency, ghost res0: Adjacency) returns (k: int)
    requires rg.Valid() && network.Valid() && rg.succ != network.succ
    requires rg.vertexCount == network.vertexCount && rg.source != rg.sink
    requires Between(rg.succ[..], network.succ[..], net0, res0, rg.source, rg.sink)
    requires PathIn(path, rg.vertexCount) && IsAugmentingPath(rg.succ[..], rg.source, rg.sink, path.vertices)
    modifies rg.succ, network.succ
    ensures rg.Valid() && network.Valid()
    ensures Between(rg.succ[..], network.succ[..], net0, res0, rg.source, rg.sink)
    ensures 1 <= k <= INT_MAX
    ensures forall i, j :: PathArc(old(rg.succ[..]), path.vertices, i, j) ==> k <= old(rg.succ[..])[path.vertices[i]].arcs[j].capa
    ensures k == INT_MAX ||
      exists i, j :: PathArc(old(rg.succ[..]), path.vertices, i, j) && k == old(rg.succ[..])[path.vertices[i]].arcs[j].capa
    ensures rg.succ[..] == Augmented(old(rg.succ[..]), path.vertices, k, |path.vertices| - 1)
    ensures SumCapa(rg.succ[rg.source].arcs) == old(SumCapa(rg.succ[rg.source].arcs)) - k
  {
    ghost var res, cur := rg.succ[..], network.succ[..];
    ghost var p := path.vertices;
    k := MinCapacity(rg, path);
    BottleneckPositive(res, p, rg.source, rg.sink, k);
    UpdateResidualGraph(rg, path, k);
    UpdateNetworkFlow(rg, network);
    RoundKeeps(res, cur, net0, res0, p, k, rg.source, rg.sink, rg.succ[..], network.succ[..]);
  }

  /** The loop of the program's entry point over a residual graph `rg` and
      the network it was built from: as long as the breadth-first search
      finds a path, one round, with its bottleneck added to the flow value.
      It stops exactly when the sink is unreachable in the residual graph;
      the flow value is what the rounds took off the residual capacity out of
      the source, and each round added at least 1. */
  method AugmentLoop(rg: Graph, network: Graph, ghost net0: Adjacency, ghost res0: Adjacency) returns (maxFlow: int, ghost rounds: nat)
    requires rg.Valid() && network.Valid() && rg.succ != network.succ
    requires rg.vertexCount == network.vertexCount && rg.source == network.source && rg.sink == network.sink
    requires rg.source != rg.sink && Between(rg.succ[..], network.succ[..], net0, res0, rg.source, rg.sink)
    modifies rg.succ, network.succ
    ensures rg.Valid() && network.Valid()
    ensures Between(rg.succ[..], network.succ[..], net0, res0, rg.source, rg.sink)
    ensures forall p :: !IsWalk(rg.succ[..], rg.source, rg.sink, p)
    ensures maxFlow == SumCapa(old(rg.succ[..])[rg.source].arcs) - SumCapa(rg.succ[..][rg.source].arcs)
    ensures rounds <= maxFlow
  {
    var src := rg.source;
    ghost var start := SumCapa(rg.succ[src].arcs);
    maxFlow := 0;
    rounds := 0;
    var r;
    ghost var initPar;
    r, initPar := ShortestPath(rg);
    while r.Some?
      invariant rg.Valid() && network.Valid()
      invariant Between(rg.succ[..], network.succ[..], net0, res0, src, rg.sink)
      invariant maxFlow + SumCapa(rg.succ[src].arcs) == start && rounds <= maxFlow
      invariant r.Some? ==> PathIn(r.value, rg.vertexCount) && IsAugmentingPath(rg.succ[..], src, rg.sink, r.value.vertices)
      invariant r.None? ==> forall p :: !IsWalk(rg.succ[..], src, rg.sink, p)
      decreases SumCapa(rg.succ[src].arcs)
    {
      SumCapaNonNegative(rg.succ[src].arcs);
      var k := Round(rg, network, r.value, net0, res0);
      maxFlow := maxFlow + k;
      rounds := rounds + 1;
      r, initPar := ShortestPath(rg);
    }
  }

  /** What the loop leaves holds of the network: its arcs are as they were
      apart from their flows, every flow is within its capacity, and the flow
      value is at most the sum of the capacities. */
  lemma Conclude(net0: Adjacency, res0: Adjacency, res: Adjacency, cur: Adjacency, s: int, t: int, pushed: int)
    requires Between(res, cur, net0, res0, s, t) && FlowsWithinCapacity(net0) && 1 <= s < |net0|
    requires res0 == Residual(net0)
    requires pushed == SumCapa(res0[s].arcs) - SumCapa(res[s].arcs)
    ensures SameArcs(net0, cur) && FlowsWithinCapacity(cur) && pushed <= TotalCapacity(net0)
  {
    ProjectShape(res, net0);
    ProjectFlows(res, net0);
    FlowBound(net0, s, pushed, res);
  }

  /** The program's entry point from the network on: the residual graph
      built, then augmentation along breadth-first paths until the sink is
      unreachable. */
  method MaxFlow(network: Graph) returns (maxFlow: int, rg: Graph, ghost rounds: nat)
    requires network.Valid() && network.source != network.sink
    requires Simple(network.succ[..]) && FlowsWithinCapacity(network.succ[..])
    modifies network.succ
    ensures fresh(rg) && rg.Valid()
    ensures rg.source == network.source && rg.sink == network.sink && rg.succ.Length == network.succ.Length
    ensures forall p :: !IsWalk(rg.succ[..], rg.source, rg.sink, p)
    ensures network.Valid() && SameArcs(old(network.succ[..]), network.succ[..])
    ensures Between(rg.succ[..], network.succ[..], old(network.succ[..]), Residual(old(network.succ[..])), network.source, network.sink)
    ensures FlowsWithinCapacity(network.succ[..])
    ensures network.succ[..] == Project(rg.succ[..], old(network.succ[..]))
    ensures maxFlow == SumCapa(Residual(old(network.succ[..]))[network.source].arcs) - SumCapa(rg.succ[network.source].arcs)
    ensures rounds <= maxFlow <= TotalCapacity(old(network.succ[..]))
  {
    ghost var net0 := network.succ[..];
    rg := BuildResidualGraph(network);
    ghost var res0 := rg.succ[..];
    StartBetween(net0, network.source, network.sink);
    maxFlow, rounds := AugmentLoop(rg, network, net0, res0);
    Conclude(net0, res0, rg.succ[..], network.succ[..], rg.source, rg.sink, maxFlow);
  }

  /** The network of one arc 1 -> 2 of capacity 5, source 1 and sink 2. */
  function OneArc(): Adjacency
  {
    [SuccList([], 0), SuccList([Arc(2, 5, 0)], 1), SuccList([], 0)]
  }

  lemma OneArcArcs()
    ensures WellFormed(OneArc()) && NetworkArcs(OneArc()) == [(1, Arc(2, 5, 0))]
  {
    var net := OneArc();
    assert ArcsBefore(net, 2) == [(1, Arc(2, 5, 0))] by {
      assert ArcsBefore(net, 1) == [];
    }
    assert ArcsBefore(net, 3) == ArcsBefore(net, 2) + Tag(2, []);
  }

  /** Its residual graph: the forward arc 1 -> 2 with the whole capacity and
      the backward arc 2 -> 1 with none. */
  lemma OneArcResidual()
    ensures WellFormed(OneArc()) && Simple(OneArc()) && FlowsWithinCapacity(OneArc())
    ensures Residual(OneArc()) == [SuccList([], 0), SuccList([Arc(2, 5, 0)], 1), SuccList([Arc(1, 0, 0)], 1)]
  {
    OneArcArcs();
    var es := [(1, Arc(2, 5, 0))];
    assert EmitAll(EmptyLists(3), es) == Emit(EmptyLists(3), es[0]) by {
      assert es[..0] == [];
    }
    assert Forward(es[0]) == Arc(2, 5, 0) && Backward(es[0]) == Arc(1, 0, 0);
    assert EmptyLists(3) == [SuccList([], 0), SuccList([], 0), SuccList([], 0)];
    assert [Arc(2, 5, 0)] + [] == [Arc(2, 5, 0)] && [Arc(1, 0, 0)] + [] == [Arc(1, 0, 0)];
    var one := Prepend(EmptyLists(3), 1, Arc(2, 5, 0));
    assert one == [SuccList([], 0), SuccList([Arc(2, 5, 0)], 1), SuccList([], 0)];
    assert Prepend(one, 2, Arc(1, 0, 0)) == [SuccList([], 0), SuccList([Arc(2, 5, 0)], 1), SuccList([Arc(1, 0, 0)], 1)];
  }

  /** Whatever state the loop leaves on the one-arc network, the flow value is
      5 and the arc carries flow 5: the loop's contract pins the outcome. */
  lemma OneArcOutcome(res: Adjacency, cur: Adjacency, maxFlow: int)
    requires WellFormed(OneArc()) && Between(res, cur, OneArc(), Residual(OneArc()), 1, 2)
    requires forall p :: !IsWalk(res, 1, 2, p)
    requires maxFlow == SumCapa(Residual(OneArc())[1].arcs) - SumCapa(res[1].arcs)
    ensures maxFlow == 5 && cur[1].arcs == [Arc(2, 5, 5)]
  {
    OneArcSaturated(res);
    ProjectOneList(res, OneArc(), 1, Arc(2, 5, 0), Arc(2, 0, 0));
  }

  /** With no walk left from 1 to 2, the forward residual arc is saturated. */
  lemma OneArcSaturated(res: Adjacency)
    requires SameShape(Residual(OneArc()), res) && NonNegative(res)
    requires forall p :: !IsWalk(res, 1, 2, p)
    ensures res[1].arcs == [Arc(2, 0, 0)] && SumCapa(Residual(OneArc())[1].arcs) == 5
  {
    OneArcResidual();
    assert |res[1].arcs| == 1 && res[1].arcs[0].dest == 2 && res[1].arcs[0].flow == 0;
    assert !IsWalk(res, 1, 2, [1, 2]);
    assert res[1].arcs[0].capa == 0;
  }

  /** The projection of a one-arc list against a one-arc residual list to
      the same destination: flow is capacity minus residual capacity. */
  lemma ProjectOneList(res: Adjacency, net: Adjacency, u: int, e: Arc, b: Arc)
    requires |res| == |net| && 1 <= u < |net| && net[u].arcs == [e] && res[u].arcs == [b] && b.dest == e.dest
    ensures Project(res, net)[u].arcs == [e.(flow := e.capa - b.capa)]
  {
    assert FindArc(res[u].arcs, e.dest) == Some(0);
    assert ProjectArcs(res[u], [e])[0] == e.(flow := e.capa - b.capa);
  }

  /** The reader's empty network on vertices 1..2 with source 1 and sink 2,
      one arc line "a 1 2 5", then the loop: the flow value is 5 and the arc
      carries flow 5. */
  method OneArcFlow() returns (maxFlow: int, flow: int)
    ensures maxFlow == 5 && flow == 5
  {
    var g := new Graph(2, 1, 2);
    ghost var empty := g.succ[..];
    assert empty == EmptyLists(3);
    g.AddArc(1, 2, 5);
    assert [Arc(2, 5, 0)] + empty[1].arcs == [Arc(2, 5, 0)];
    assert g.succ[..] == empty[1 := SuccList([Arc(2, 5, 0)], 1)];
    assert g.succ[..] == OneArc();
    OneArcResidual();
    var rg;
    ghost var rounds;
    maxFlow, rg, rounds := MaxFlow(g);
    OneArcOutcome(rg.succ[..], g.succ[..], maxFlow);
    flow := g.succ[1].arcs[0].flow;
  }

  /** The network on vertices 1..3 with one arc 1 -> 2 of capacity 5, source
      1 and sink 3: no arc enters the sink. */
  function Stranded(): Adjacency
  {
    [SuccList([], 0), SuccList([Arc(2, 5, 0)], 1), SuccList([], 0), SuccList([], 0)]
  }

  lemma StrandedArcs()
    ensures WellFormed(Stranded()) && NetworkArcs(Stranded()) == [(1, Arc(2, 5, 0))]
  {
    var net := Stranded();
    assert ArcsBefore(net, 2) == [(1, Arc(2, 5, 0))] by {
      assert ArcsBefore(net, 1) == [];
    }
    assert ArcsBefore(net, 3) == ArcsBefore(net, 2) + Tag(2, []);
    assert ArcsBefore(net, 4) == ArcsBefore(net, 3) + Tag(3, []);
  }

  /** Its residual graph: the forward arc 1 -> 2 with the whole capacity and
      the backward arc 2 -> 1 with none. */
  lemma StrandedResidual()
    ensures WellFormed(Stranded()) && Simple(Stranded()) && FlowsWithinCapacity(Stranded())
    ensures Residual(Stranded()) == [SuccList([], 0), SuccList([Arc(2, 5, 0)], 1), SuccList([Arc(1, 0, 0)], 1), SuccList([], 0)]
  {
    StrandedArcs();
    var es := [(1, Arc(2, 5, 0))];
    assert EmitAll(EmptyLists(4), es) == Emit(EmptyLists(4), es[0]) by {
      assert es[..0] == [];
    }
    assert Forward(es[0]) == Arc(2, 5, 0) && Backward(es[0]) == Arc(1, 0, 0);
    assert EmptyLists(4) == [SuccList([], 0), SuccList([], 0), SuccList([], 0), SuccList([], 0)];
    assert [Arc(2, 5, 0)] + [] == [Arc(2, 5, 0)] && [Arc(1, 0, 0)] + [] == [Arc(1, 0, 0)];
    var one := Prepend(EmptyLists(4), 1, Arc(2, 5, 0));
    assert one == [SuccList([], 0), SuccList([Arc(2, 5, 0)], 1), SuccList([], 0), SuccList([], 0)];
    assert Prepend(one, 2, Arc(1, 0, 0)) == [SuccList([], 0), SuccList([Arc(2, 5, 0)], 1), SuccList([Arc(1, 0, 0)], 1), SuccList([], 0)];
  }

  /** Whatever state the loop leaves on that network, the flow value is 0 and
      the arc carries no flow: vertex 2 keeps its residual capacity 0 by
      Kirchhoff's law, so the arc 1 -> 2 keeps all of its own. */
  lemma StrandedOutcome(res: Adjacency, cur: Adjacency, maxFlow: int)
    requires WellFormed(Stranded()) && Between(res, cur, Stranded(), Residual(Stranded()), 1, 3)
    requires maxFlow == SumCapa(Residual(Stranded())[1].arcs) - SumCapa(res[1].arcs)
    ensures maxFlow == 0 && cur[1].arcs == [Arc(2, 5, 0)]
  {
    assert KeptAt(res, Residual(Stranded()), 1, 3, 2);
    StrandedIdle(res);
    ProjectOneList(res, Stranded(), 1, Arc(2, 5, 0), Arc(2, 5, 0));
  }

  /** With the residual capacity out of vertex 2 kept at 0, its backward arc
      carries 0, and the forward arc 1 -> 2 keeps the whole capacity. */
  lemma StrandedIdle(res: Adjacency)
    requires SameShape(Residual(Stranded()), res) && Conserves(NetworkArcs(Stranded()), res)
    requires SumCapa(res[2].arcs) == SumCapa(Residual(Stranded())[2].arcs)
    ensures res[1].arcs == [Arc(2, 5, 0)] && SumCapa(Residual(Stranded())[1].arcs) == 5
  {
    StrandedResidual();
    StrandedArcs();
    assert |res[2].arcs| == 1 && res[2].arcs[0].dest == 1 && res[2].arcs[0].flow == 0;
    assert res[2].arcs[0].capa == 0 by {
      assert SumCapa(res[2].arcs) == res[2].arcs[0].capa + SumCapa(res[2].arcs[1..]);
      assert res[2].arcs[1..] == [];
    }
    assert |res[1].arcs| == 1 && res[1].arcs[0].dest == 2 && res[1].arcs[0].flow == 0;
    assert FindArc(res[1].arcs, 2) == Some(0) && FindArc(res[2].arcs, 1) == Some(0);
    assert (1, Arc(2, 5, 0)) in NetworkArcs(Stranded());
    assert res[1].arcs[0].capa == 5;
  }

  /** The reader's empty network on vertices 1..3 with source 1 and sink 3,
      one arc line "a 1 2 5", then the loop: the search finds no path, so the
      flow value is 0 and the arc carries no flow. */
  method StrandedFlow() returns (maxFlow: int, flow: int)
    ensures maxFlow == 0 && flow == 0
  {
    var g := new Graph(3, 1, 3);
    ghost var empty := g.succ[..];
    assert empty == EmptyLists(4);
    g.AddArc(1, 2, 5);
    assert [Arc(2, 5, 0)] + empty[1].arcs == [Arc(2, 5, 0)];
    assert g.succ[..] == empty[1 := SuccList([Arc(2, 5, 0)], 1)];
    assert g.succ[..] == Stranded();
    StrandedResidual();
    var rg;
    ghost var rounds;
    maxFlow, rg, rounds := MaxFlow(g);
    StrandedOutcome(rg.succ[..], g.succ[..], maxFlow);
    flow := g.succ[1].arcs[0].flow;
  }
}
