/** updateNetworkFlow: the flows of the network read back from the residual
    graph, arc by arc. */
module FlowProjection {
  import opened Network
  import opened ResidualGraph

  /** The network arc `e` of some vertex with its flow read from `r`, the
      residual list of that vertex: its capacity minus the residual capacity
      of the first residual arc to the same destination, or `e` unchanged
      when no residual arc leads there. */
  function ProjectArc(r: SuccList, e: Arc): Arc
  {
    match FindArc(r.arcs, e.dest)
    case None => e
    case Some(j) => e.(flow := e.capa - r.arcs[j].capa)
  }

  /** Every arc of a list projected, head first. */
  function ProjectArcs(r: SuccList, arcs: seq<Arc>): (res: seq<Arc>)
    ensures |res| == |arcs|
    ensures forall j :: 0 <= j < |arcs| ==> res[j] == ProjectArc(r, arcs[j])
  {
    if arcs == [] then [] else [ProjectArc(r, arcs[0])] + ProjectArcs(r, arcs[1..])
  }

  function ProjectList(r: SuccList, l: SuccList): SuccList
  {
    SuccList(ProjectArcs(r, l.arcs), l.size)
  }

  /** The network after updateNetworkFlow against the residual lists `res`:
      the list of every real vertex 1..n-1 projected against the residual
      list of the same vertex; the unused vertex 0 is not visited. */
  function Project(res: Adjacency, net: Adjacency): (r: Adjacency)
    requires |res| == |net|
    ensures |r| == |net|
  {
    seq(|net|, u requires 0 <= u < |net| => if u == 0 then net[0] else ProjectList(res[u], net[u]))
  }

  /** Same vertices, counters, destinations and capacities: only flows may differ. */
  predicate SameArcs(a: Adjacency, b: Adjacency)
  {
    |a| == |b| &&
    (forall x :: 0 <= x < |a| ==> a[x].size == b[x].size && |a[x].arcs| == |b[x].arcs|) &&
    (forall x, j :: 0 <= x < |a| && 0 <= j < |a[x].arcs| && j < |b[x].arcs| ==>
      a[x].arcs[j].dest == b[x].arcs[j].dest && a[x].arcs[j].capa == b[x].arcs[j].capa)
  }

  // ---------------------------------------------------------------------------
  // Properties of the projection
  // ---------------------------------------------------------------------------

  /** Projection only writes flows: the network keeps its lists, counters,
      destinations and capacities, and so stays well formed. */
  lemma ProjectShape(res: Adjacency, net: Adjacency)
    requires |res| == |net|
    ensures SameArcs(net, Project(res, net))
    ensures WellFormed(net) ==> WellFormed(Project(res, net))
  {
    var p := Project(res, net);
    forall x, j | 0 <= x < |net| && 0 <= j < |net[x].arcs|
      ensures j < |p[x].arcs| && p[x].arcs[j].dest == net[x].arcs[j].dest && p[x].arcs[j].capa == net[x].arcs[j].capa
    {
    }
  }

  /** Projecting an arc twice against the same list projects it once; and
      when the list has an arc to its destination, a projection against that
      list overwrites whatever flow an earlier projection left. */
  lemma ProjectArcAgain(r: SuccList, r': SuccList, e: Arc)
    ensures ProjectArc(r, ProjectArc(r, e)) == ProjectArc(r, e)
    ensures HasArc(r, e.dest) ==> ProjectArc(r, ProjectArc(r', e)) == ProjectArc(r, e)
  {
    var x := ProjectArc(r', e);
    assert x.dest == e.dest && x.capa == e.capa;
  }

  /** Projecting again against the same lists changes nothing: a second call
      of updateNetworkFlow with an unchanged residual graph is harmless. */
  lemma ProjectIdempotent(res: Adjacency, net: Adjacency)
    requires |res| == |net|
    ensures Project(res, Project(res, net)) == Project(res, net)
  {
    var p := Project(res, net);
    forall u | 1 <= u < |net|
      ensures ProjectList(res[u], p[u]) == p[u]
    {
      var a := ProjectArcs(res[u], p[u].arcs);
      forall j | 0 <= j < |a|
        ensures a[j] == p[u].arcs[j]
      {
        ProjectArcAgain(res[u], res[u], net[u].arcs[j]);
      }
      assert a == p[u].arcs;
    }
  }

  /** When every network arc u -> v has a residual arc u -> v, each round's
      projection overwrites every flow: projecting against `res` after
      projecting against any `res'` is projecting against `res` alone. */
  lemma ProjectOverrides(res: Adjacency, res': Adjacency, net: Adjacency)
    requires |res| == |net| && |res'| == |net|
    requires forall u, j :: 1 <= u < |net| && 0 <= j < |net[u].arcs| ==> HasArc(res[u], net[u].arcs[j].dest)
    ensures Project(res, Project(res', net)) == Project(res, net)
  {
    var p, q := Project(res', net), Project(res, net);
    forall u | 1 <= u < |net|
      ensures ProjectList(res[u], p[u]) == q[u]
    {
      var a, b := ProjectArcs(res[u], p[u].arcs), q[u].arcs;
      forall j | 0 <= j < |a|
        ensures a[j] == b[j]
      {
        ProjectArcAgain(res[u], res'[u], net[u].arcs[j]);
      }
      assert a == b;
    }
  }

  /** When the forward and backward residual capacities of every network arc
      are non-negative and add up to its capacity, the flow read back for the
      arc u -> v is the backward residual capacity of v -> u, which lies
      between 0 and the capacity. */
  lemma ProjectFlows(res: Adjacency, net: Adjacency)
    requires WellFormed(net) && |res| == |net|
    requires Conserves(NetworkArcs(net), res) && NonNegative(res)
    ensures FlowsWithinCapacity(Project(res, net))
    ensures forall u, j :: 1 <= u < |net| && 0 <= j < |net[u].arcs| ==>
      HasArc(res[net[u].arcs[j].dest], u) &&
      Project(res, net)[u].arcs[j].flow == Cap(res[net[u].arcs[j].dest], u)
  {
    var p := Project(res, net);
    forall u, j | 1 <= u < |net| && 0 <= j < |net[u].arcs|
      ensures HasArc(res[net[u].arcs[j].dest], u)
      ensures p[u].arcs[j].flow == Cap(res[net[u].arcs[j].dest], u)
      ensures 0 <= p[u].arcs[j].flow <= p[u].arcs[j].capa
    {
      var e := net[u].arcs[j];
      ArcsBeforeComplete(net, |net|, u, e);
      assert 0 <= e.dest < |res|;
      var jf, jb := FindArc(res[u].arcs, e.dest).value, FindArc(res[e.dest].arcs, u).value;
      assert res[u].arcs[jf].capa >= 0 && res[e.dest].arcs[jb].capa >= 0;
    }
  }

  /** Read back from the residual graph built from it, a simple network is
      unchanged: each forward residual capacity is capacity minus flow. */
  lemma ProjectResidual(net: Adjacency)
    requires WellFormed(net) && Simple(net)
    ensures |Residual(net)| == |net| && Project(Residual(net), net) == net
  {
    var r := Residual(net);
    ResidualShape(net);
    ResidualConserves(net);
    var p := Project(r, net);
    forall u | 0 <= u < |net|
      ensures p[u] == net[u]
    {
      if u > 0 {
        forall j | 0 <= j < |net[u].arcs|
          ensures p[u].arcs[j] == net[u].arcs[j]
        {
          ArcsBeforeComplete(net, |net|, u, net[u].arcs[j]);
        }
      }
    }
  }

  // ---------------------------------------------------------------------------
  // updateNetworkFlow in place
  // ---------------------------------------------------------------------------

  /** The inner loops of updateNetworkFlow for one vertex: each arc of `l`,
      head first, takes as flow its capacity minus the residual capacity of
      the first arc of `r` with the same destination. */
  method ProjectVertex(r: SuccList, l: SuccList) returns (res: SuccList)
    ensures res == ProjectList(r, l)
  {
    var arcs := l.arcs;
    var j := 0;
    while j < |arcs|
      invariant 0 <= j <= |arcs| == |l.arcs|
      invariant forall i :: 0 <= i < |arcs| ==> arcs[i] == if i < j then ProjectArc(r, l.arcs[i]) else l.arcs[i]
    {
      var e := arcs[j];
      var initCapa := e.capa;
      var i := FirstArc(r.arcs, e.dest);
      if i < |r.arcs| {
        arcs := arcs[j := e.(flow := initCapa - r.arcs[i].capa)];
      }
      j := j + 1;
    }
    res := SuccList(arcs, l.size);
  }

  /** updateNetworkFlow: rewrites the flow of every arc of the network from
      the residual graph, which it only reads. */
  method UpdateNetworkFlow(rg: Graph, g: Graph)
    requires g.Valid() && rg.succ != g.succ && rg.succ.Length == g.succ.Length
    modifies g.succ
    ensures g.succ[..] == Project(rg.succ[..], old(g.succ[..]))
  {
    var n := g.vertexCount;
    ghost var net := g.succ[..];
    var u := 1;
    while u < n
      invariant 1 <= u <= n
      invariant forall x :: 0 <= x < n ==> g.succ[x] == if 1 <= x < u then ProjectList(rg.succ[x], net[x]) else net[x]
    {
      g.succ[u] := ProjectVertex(rg.succ[u], g.succ[u]);
      u := u + 1;
    }
  }
}
