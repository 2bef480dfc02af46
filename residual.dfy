/** Construction of the residual graph from the network (buildResidualGraph).
    Every network arc u -> v with capacity c and flow f yields a forward arc
    u -> v of capacity c - f and a backward arc v -> u of capacity f, each
    inserted at the head of its list; no link between the two is kept. */
module ResidualGraph {
  import opened Network

  /** A network arc together with the vertex whose list holds it. */
  type Tagged = (int, Arc)

  function Tag(u: int, arcs: seq<Arc>): seq<Tagged>
  {
    seq(|arcs|, i requires 0 <= i < |arcs| => (u, arcs[i]))
  }

  /** The arcs of vertices 1..m-1 in the order the construction visits them:
      vertex by vertex, each list from its head. */
  function ArcsBefore(net: Adjacency, m: int): seq<Tagged>
    requires m <= |net|
    decreases m
  {
    if m <= 1 then [] else ArcsBefore(net, m - 1) + Tag(m - 1, net[m - 1].arcs)
  }

  /** Every visited arc is an arc of a real vertex below `m`. */
  lemma {:induction false} ArcsBeforeSound(net: Adjacency, m: int)
    requires m <= |net|
    ensures forall i :: 0 <= i < |ArcsBefore(net, m)| ==>
      1 <= ArcsBefore(net, m)[i].0 < m && ArcsBefore(net, m)[i].1 in net[ArcsBefore(net, m)[i].0].arcs
    decreases m
  {
    if m > 1 {
      ArcsBeforeSound(net, m - 1);
      var pre := ArcsBefore(net, m - 1);
      var es := ArcsBefore(net, m);
      forall i | 0 <= i < |es|
        ensures 1 <= es[i].0 < m && es[i].1 in net[es[i].0].arcs
      {
        if i < |pre| {
          assert es[i] == pre[i];
        } else {
          assert es[i] == (m - 1, net[m - 1].arcs[i - |pre|]);
        }
      }
    }
  }

  /** All arcs of the real vertices 1..n-1 of the network, in visiting order. */
  function NetworkArcs(net: Adjacency): seq<Tagged>
  {
    ArcsBefore(net, |net|)
  }

  /** Every arc of a real vertex is visited. */
  lemma {:induction false} ArcsBeforeComplete(net: Adjacency, m: int, u: int, e: Arc)
    requires m <= |net| && 1 <= u < m && e in net[u].arcs
    ensures (u, e) in ArcsBefore(net, m)
    decreases m
  {
    if u == m - 1 {
      var j :| 0 <= j < |net[u].arcs| && net[u].arcs[j] == e;
      var before, tagged := ArcsBefore(net, m - 1), Tag(u, net[u].arcs);
      assert tagged[j] == (u, e);
      assert ArcsBefore(net, m) == before + tagged;
      assert ArcsBefore(net, m)[|before| + j] == (u, e);
    } else {
      ArcsBeforeComplete(net, m - 1, u, e);
      var before := ArcsBefore(net, m - 1);
      assert ArcsBefore(net, m) == before + Tag(m - 1, net[m - 1].arcs);
      var i :| 0 <= i < |before| && before[i] == (u, e);
      assert ArcsBefore(net, m)[i] == (u, e);
    }
  }

  /** Both ends of every tagged arc are real vertices of a graph with `n` vertices. */
  predicate RealVertices(es: seq<Tagged>, n: int)
  {
    forall i :: 0 <= i < |es| ==> 1 <= es[i].0 < n && 1 <= es[i].1.dest < n
  }

  lemma RealVerticesOfMembers(net: Adjacency, es: seq<Tagged>)
    requires WellFormed(net)
    requires forall i :: 0 <= i < |es| ==> 1 <= es[i].0 < |net| && es[i].1 in net[es[i].0].arcs
    ensures RealVertices(es, |net|)
  {
    forall i | 0 <= i < |es|
      ensures 1 <= es[i].1.dest < |net|
    {
      var j :| 0 <= j < |net[es[i].0].arcs| && net[es[i].0].arcs[j] == es[i].1;
    }
  }

  /** No network arc is a self loop, and no two network arcs join the same
      ordered pair or opposite ordered pairs; then every ordered pair of
      vertices carries at most one residual arc. */
  predicate SimpleArcs(es: seq<Tagged>)
  {
    (forall i, j :: 0 <= i < |es| && 0 <= j < |es| ==> es[i].0 != es[j].1.dest || es[i].1.dest != es[j].0) &&
    (forall i, j :: 0 <= i < j < |es| ==> es[i].0 != es[j].0 || es[i].1.dest != es[j].1.dest)
  }

  predicate Simple(net: Adjacency)
  {
    SimpleArcs(NetworkArcs(net))
  }

  /** Sum of the capacities of a list of arcs. */
  function SumCapa(arcs: seq<Arc>): int
  {
    if arcs == [] then 0 else arcs[0].capa + SumCapa(arcs[1..])
  }

  function ListLength(l: SuccList): int { |l.arcs| }

  function ListCapa(l: SuccList): int { SumCapa(l.arcs) }

  /** Sum of `w` over the lists of vertices 0..m-1. */
  function SumOver(adj: Adjacency, m: nat, w: SuccList -> int): int
    requires m <= |adj|
  {
    if m == 0 then 0 else SumOver(adj, m - 1, w) + w(adj[m - 1])
  }

  function ArcCount(adj: Adjacency): int { SumOver(adj, |adj|, ListLength) }

  function TotalCapa(adj: Adjacency): int { SumOver(adj, |adj|, ListCapa) }

  /** Sum of the declared capacities of a sequence of network arcs. */
  function CapaSum(es: seq<Tagged>): int
  {
    if es == [] then 0 else CapaSum(es[..|es| - 1]) + es[|es| - 1].1.capa
  }

  /** The sum of the capacities of all network arcs. */
  function TotalCapacity(net: Adjacency): int
  {
    CapaSum(NetworkArcs(net))
  }

  lemma {:induction false} SumOverUpdate(adj: Adjacency, m: nat, x: int, l: SuccList, w: SuccList -> int)
    requires m <= |adj| && 0 <= x < |adj|
    ensures SumOver(adj[x := l], m, w) == SumOver(adj, m, w) + (if x < m then w(l) - w(adj[x]) else 0)
  {
    if m > 0 {
      SumOverUpdate(adj, m - 1, x, l, w);
    }
  }

  lemma {:induction false} ArcsBeforeCount(net: Adjacency, m: int)
    requires 1 <= m <= |net| && net[0].arcs == []
    ensures |ArcsBefore(net, m)| == SumOver(net, m, ListLength)
    decreases m
  {
    if m > 1 {
      ArcsBeforeCount(net, m - 1);
    }
  }

  // ---------------------------------------------------------------------------
  // Emission of the residual arcs
  // ---------------------------------------------------------------------------

  /** The forward residual arc of a network arc: remaining capacity c - f. */
  function Forward(t: Tagged): Arc { Arc(t.1.dest, t.1.capa - t.1.flow, 0) }

  /** The backward residual arc of a network arc: cancellable flow f. */
  function Backward(t: Tagged): Arc { Arc(t.0, t.1.flow, 0) }

  /** Head insertion of `a` into the list of `x`, counter incremented. */
  function Prepend(adj: Adjacency, x: int, a: Arc): Adjacency
    requires 0 <= x < |adj|
  {
    adj[x := SuccList([a] + adj[x].arcs, adj[x].size + 1)]
  }

  predicate InRange(es: seq<Tagged>, n: int)
  {
    forall i :: 0 <= i < |es| ==> 0 <= es[i].0 < n && 0 <= es[i].1.dest < n
  }

  /** One step of the construction: forward arc into the list of u, then backward arc into the list of v. */
  function Emit(adj: Adjacency, t: Tagged): Adjacency
    requires 0 <= t.0 < |adj| && 0 <= t.1.dest < |adj|
  {
    Prepend(Prepend(adj, t.0, Forward(t)), t.1.dest, Backward(t))
  }

  function EmitAll(adj: Adjacency, es: seq<Tagged>): (r: Adjacency)
    requires InRange(es, |adj|)
    ensures |r| == |adj|
    decreases |es|
  {
    if es == [] then adj else Emit(EmitAll(adj, es[..|es| - 1]), es[|es| - 1])
  }

  lemma EmitAllSnoc(adj: Adjacency, es: seq<Tagged>, t: Tagged)
    requires RealVertices(es, |adj|) && 1 <= t.0 < |adj| && 1 <= t.1.dest < |adj|
    ensures RealVertices(es + [t], |adj|)
    ensures EmitAll(adj, es + [t]) == Emit(EmitAll(adj, es), t)
  {
    assert (es + [t])[..|es|] == es;
  }

  function EmptyLists(n: nat): Adjacency
  {
    seq(n, _ => SuccList([], 0))
  }

  lemma ArcsBeforeReal(net: Adjacency, m: int)
    requires WellFormed(net) && m <= |net|
    ensures RealVertices(ArcsBefore(net, m), |net|)
  {
    ArcsBeforeSound(net, m);
    RealVerticesOfMembers(net, ArcsBefore(net, m));
  }

  lemma NetworkArcsReal(net: Adjacency)
    requires WellFormed(net)
    ensures RealVertices(NetworkArcs(net), |net|)
  {
    ArcsBeforeReal(net, |net|);
  }

  /** The residual graph built from `net`. */
  function Residual(net: Adjacency): (r: Adjacency)
    requires WellFormed(net)
  {
    NetworkArcsReal(net);
    EmitAll(EmptyLists(|net|), NetworkArcs(net))
  }

  lemma {:induction false} EmitAllWellFormed(adj: Adjacency, es: seq<Tagged>)
    requires WellFormed(adj) && RealVertices(es, |adj|)
    ensures WellFormed(EmitAll(adj, es))
    ensures ArcCount(EmitAll(adj, es)) == ArcCount(adj) + 2 * |es|
    decreases |es|
  {
    if es != [] {
      var pre, t := es[..|es| - 1], es[|es| - 1];
      EmitAllWellFormed(adj, pre);
      var r := EmitAll(adj, pre);
      var r1 := Prepend(r, t.0, Forward(t));
      SumOverUpdate(r, |r|, t.0, r1[t.0], ListLength);
      SumOverUpdate(r1, |r1|, t.1.dest, SuccList([Backward(t)] + r1[t.1.dest].arcs, r1[t.1.dest].size + 1), ListLength);
    }
  }

  /** Every arc that was in a list stays in it. */
  lemma {:induction false} EmitAllKeeps(adj: Adjacency, es: seq<Tagged>, x: int, b: Arc)
    requires InRange(es, |adj|) && 0 <= x < |adj| && b in adj[x].arcs
    ensures b in EmitAll(adj, es)[x].arcs
    decreases |es|
  {
    if es != [] {
      EmitAllKeeps(adj, es[..|es| - 1], x, b);
    }
  }

  /** Every visited network arc has its forward and backward residual arcs in place. */
  lemma {:induction false} EmitAllContains(adj: Adjacency, es: seq<Tagged>, i: int)
    requires InRange(es, |adj|) && 0 <= i < |es|
    ensures Forward(es[i]) in EmitAll(adj, es)[es[i].0].arcs
    ensures Backward(es[i]) in EmitAll(adj, es)[es[i].1.dest].arcs
    decreases |es|
  {
    var pre, t := es[..|es| - 1], es[|es| - 1];
    if i < |es| - 1 {
      EmitAllContains(adj, pre, i);
      var r := EmitAll(adj, pre);
      assert pre[i] == es[i];
      EmitAllKeeps(r, [t], es[i].0, Forward(es[i]));
      EmitAllKeeps(r, [t], es[i].1.dest, Backward(es[i]));
      assert EmitAll(r, [t]) == Emit(EmitAll(r, []), t);
    }
  }

  /** The arc `b` in the list of `x` is the forward or backward image of `t`. */
  predicate ImageOf(t: Tagged, x: int, b: Arc)
  {
    (x == t.0 && b == Forward(t)) || (x == t.1.dest && b == Backward(t))
  }

  /** Starting from empty lists, every residual arc is the image of a visited network arc. */
  lemma {:induction false} EmitAllOrigin(n: nat, es: seq<Tagged>, x: int, b: Arc)
    requires InRange(es, n) && 0 <= x < n && b in EmitAll(EmptyLists(n), es)[x].arcs
    ensures exists i :: 0 <= i < |es| && ImageOf(es[i], x, b)
    decreases |es|
  {
    var pre, t := es[..|es| - 1], es[|es| - 1];
    if !ImageOf(t, x, b) {
      EmitAllOrigin(n, pre, x, b);
      var i :| 0 <= i < |pre| && ImageOf(pre[i], x, b);
      assert es[i] == pre[i];
    }
  }

  lemma PrependDistinct(arcs: seq<Arc>, a: Arc)
    requires DistinctDests(arcs)
    requires forall b :: b in arcs ==> b.dest != a.dest
    ensures DistinctDests([a] + arcs)
  {
    var s := [a] + arcs;
    forall i, j | 0 <= i < j < |s|
      ensures s[i].dest != s[j].dest
    {
      if i == 0 {
        assert s[j] in arcs;
      } else {
        assert s[i] == arcs[i - 1] && s[j] == arcs[j - 1];
      }
    }
  }

  /** For simple networks each list of the residual graph has distinct destinations. */
  lemma {:induction false} EmitAllUnique(n: nat, es: seq<Tagged>)
    requires RealVertices(es, n) && SimpleArcs(es)
    ensures UniqueDests(EmitAll(EmptyLists(n), es))
    decreases |es|
  {
    if es != [] {
      var pre, t := es[..|es| - 1], es[|es| - 1];
      var last := |es| - 1;
      assert SimpleArcs(pre) by {
        forall i | 0 <= i < |pre| ensures pre[i] == es[i] { }
      }
      EmitAllUnique(n, pre);
      var r := EmitAll(EmptyLists(n), pre);
      var u, v := t.0, t.1.dest;
      assert t == es[last];
      assert u != v;
      forall b | b in r[u].arcs
        ensures b.dest != v
      {
        EmitAllOrigin(n, pre, u, b);
        var i :| 0 <= i < |pre| && ImageOf(pre[i], u, b);
        var s := es[i];
        assert pre[i] == s;
        assert s.0 != t.0 || s.1.dest != t.1.dest;
        assert s.0 != t.1.dest || s.1.dest != t.0;
      }
      forall b | b in r[v].arcs
        ensures b.dest != u
      {
        EmitAllOrigin(n, pre, v, b);
        var i :| 0 <= i < |pre| && ImageOf(pre[i], v, b);
        var s := es[i];
        assert pre[i] == s;
        assert s.0 != t.0 || s.1.dest != t.1.dest;
        assert s.0 != t.1.dest || s.1.dest != t.0;
      }
      PrependDistinct(r[u].arcs, Forward(t));
      PrependDistinct(r[v].arcs, Backward(t));
    }
  }

  lemma {:induction false} EmitAllNonNegative(adj: Adjacency, es: seq<Tagged>)
    requires InRange(es, |adj|) && NonNegative(adj)
    requires forall i :: 0 <= i < |es| ==> 0 <= es[i].1.flow <= es[i].1.capa
    ensures NonNegative(EmitAll(adj, es))
    decreases |es|
  {
    if es != [] {
      EmitAllNonNegative(adj, es[..|es| - 1]);
    }
  }

  lemma {:induction false} EmitAllCapacity(adj: Adjacency, es: seq<Tagged>)
    requires InRange(es, |adj|)
    ensures TotalCapa(EmitAll(adj, es)) == TotalCapa(adj) + CapaSum(es)
    decreases |es|
  {
    if es != [] {
      var pre, t := es[..|es| - 1], es[|es| - 1];
      EmitAllCapacity(adj, pre);
      var r := EmitAll(adj, pre);
      var r1 := Prepend(r, t.0, Forward(t));
      var l1 := r1[t.0];
      assert l1.arcs[1..] == r[t.0].arcs;
      SumOverUpdate(r, |r|, t.0, l1, ListCapa);
      var l2 := SuccList([Backward(t)] + r1[t.1.dest].arcs, r1[t.1.dest].size + 1);
      assert l2.arcs[1..] == r1[t.1.dest].arcs;
      SumOverUpdate(r1, |r1|, t.1.dest, l2, ListCapa);
    }
  }

  lemma {:induction false} EmptyListsFacts(n: nat)
    ensures NonNegative(EmptyLists(n)) && UniqueDests(EmptyLists(n))
    ensures n >= 1 ==> WellFormed(EmptyLists(n))
    ensures forall m :: 0 <= m <= n ==> SumOver(EmptyLists(n), m, ListLength) == 0
    ensures forall m :: 0 <= m <= n ==> SumOver(EmptyLists(n), m, ListCapa) == 0
  {
    forall m | 0 <= m <= n
      ensures SumOver(EmptyLists(n), m, ListLength) == 0 && SumOver(EmptyLists(n), m, ListCapa) == 0
    {
      EmptySums(n, m);
    }
  }

  lemma {:induction false} EmptySums(n: nat, m: nat)
    requires m <= n
    ensures SumOver(EmptyLists(n), m, ListLength) == 0 && SumOver(EmptyLists(n), m, ListCapa) == 0
  {
    if m > 0 {
      EmptySums(n, m - 1);
    }
  }

  // ---------------------------------------------------------------------------
  // Properties of the residual graph
  // ---------------------------------------------------------------------------

  /** For every network arc u -> v of capacity c, the first residual arcs
      u -> v and v -> u exist and their capacities add up to c. */
  predicate Conserves(es: seq<Tagged>, adj: Adjacency)
  {
    forall t :: t in es ==>
      0 <= t.0 < |adj| && 0 <= t.1.dest < |adj| &&
      HasArc(adj[t.0], t.1.dest) && HasArc(adj[t.1.dest], t.0) &&
      Cap(adj[t.0], t.1.dest) + Cap(adj[t.1.dest], t.0) == t.1.capa
  }

  /** Every arc x -> y has a reverse arc y -> x in the list of `y`. */
  predicate Symmetric(adj: Adjacency)
  {
    forall x :: 0 <= x < |adj| ==> Reversed(adj, x)
  }

  /** Every arc out of `x` has its reverse. */
  predicate Reversed(adj: Adjacency, x: int)
    requires 0 <= x < |adj|
  {
    forall y :: 0 <= y < |adj| && HasArc(adj[x], y) ==> HasArc(adj[y], x)
  }

  /** A member of a list is found by the first-match lookup for its destination. */
  lemma MemberFound(l: SuccList, b: Arc)
    requires b in l.arcs
    ensures HasArc(l, b.dest)
  {
    var j :| 0 <= j < |l.arcs| && l.arcs[j] == b;
  }

  /** The residual graph holds the reverse of each of its arcs: the forward
      and backward images of a network arc are each other's reverse. */
  lemma ResidualSymmetric(net: Adjacency)
    requires WellFormed(net)
    ensures Symmetric(Residual(net))
  {
    var r := Residual(net);
    ResidualShape(net);
    forall x | 0 <= x < |r|
      ensures Reversed(r, x)
    {
      forall y | 0 <= y < |r| && HasArc(r[x], y)
        ensures HasArc(r[y], x)
      {
        ReverseInResidual(net, x, y);
      }
    }
  }

  lemma ReverseInResidual(net: Adjacency, x: int, y: int)
    requires WellFormed(net) && 0 <= x < |net| && 0 <= y < |net| && HasArc(Residual(net)[x], y)
    ensures HasArc(Residual(net)[y], x)
  {
    var r := Residual(net);
    ResidualShape(net);
    var b := r[x].arcs[FindArc(r[x].arcs, y).value];
    ResidualOrigin(net, x, b);
    var u, e :| 1 <= u < |net| && e in net[u].arcs &&
      ((x == u && b == Arc(e.dest, e.capa - e.flow, 0)) || (x == e.dest && b == Arc(u, e.flow, 0)));
    ResidualHasTwins(net, u, e);
    if x == u && b == Arc(e.dest, e.capa - e.flow, 0) {
      MemberFound(r[e.dest], Arc(u, e.flow, 0));
    } else {
      MemberFound(r[u], Arc(e.dest, e.capa - e.flow, 0));
    }
  }


  /** The residual graph is well formed and holds exactly twice as many arcs as the network. */
  lemma ResidualShape(net: Adjacency)
    requires WellFormed(net)
    ensures |Residual(net)| == |net| && WellFormed(Residual(net))
    ensures ArcCount(Residual(net)) == 2 * ArcCount(net)
  {
    NetworkArcsReal(net);
    EmptyListsFacts(|net|);
    EmitAllWellFormed(EmptyLists(|net|), NetworkArcs(net));
    ArcsBeforeCount(net, |net|);
  }

  /** Each network arc u -> v with capacity c and flow f has a forward residual
      arc u -> v of capacity c - f and a backward residual arc v -> u of capacity f. */
  lemma ResidualHasTwins(net: Adjacency, u: int, e: Arc)
    requires WellFormed(net) && 1 <= u < |net| && e in net[u].arcs
    ensures Arc(e.dest, e.capa - e.flow, 0) in Residual(net)[u].arcs
    ensures Arc(u, e.flow, 0) in Residual(net)[e.dest].arcs
  {
    NetworkArcsReal(net);
    ArcsBeforeComplete(net, |net|, u, e);
    var es := NetworkArcs(net);
    var i :| 0 <= i < |es| && es[i] == (u, e);
    EmitAllContains(EmptyLists(|net|), es, i);
  }

  /** Every residual arc is the forward or backward image of some network arc. */
  lemma ResidualOrigin(net: Adjacency, x: int, b: Arc)
    requires WellFormed(net) && 0 <= x < |net| && b in Residual(net)[x].arcs
    ensures exists u, e :: (1 <= u < |net| && e in net[u].arcs &&
      ((x == u && b == Arc(e.dest, e.capa - e.flow, 0)) || (x == e.dest && b == Arc(u, e.flow, 0))))
  {
    NetworkArcsReal(net);
    var es := NetworkArcs(net);
    EmitAllOrigin(|net|, es, x, b);
    var i :| 0 <= i < |es| && ImageOf(es[i], x, b);
    ArcsBeforeSound(net, |net|);
    assert 1 <= es[i].0 < |net| && es[i].1 in net[es[i].0].arcs;
  }

  /** For a simple network, each ordered pair has at most one residual arc, and
      for every network arc the forward and backward capacities add up to its capacity. */
  lemma ResidualConserves(net: Adjacency)
    requires WellFormed(net) && Simple(net)
    ensures UniqueDests(Residual(net))
    ensures Conserves(NetworkArcs(net), Residual(net))
    ensures forall t :: t in NetworkArcs(net) ==>
      Cap(Residual(net)[t.0], t.1.dest) == t.1.capa - t.1.flow && Cap(Residual(net)[t.1.dest], t.0) == t.1.flow
  {
    var es := NetworkArcs(net);
    NetworkArcsReal(net);
    EmitAllUnique(|net|, es);
    var r := Residual(net);
    forall t | t in es
      ensures 0 <= t.0 < |r| && 0 <= t.1.dest < |r|
      ensures HasArc(r[t.0], t.1.dest) && HasArc(r[t.1.dest], t.0)
      ensures Cap(r[t.0], t.1.dest) == t.1.capa - t.1.flow && Cap(r[t.1.dest], t.0) == t.1.flow
    {
      var i :| 0 <= i < |es| && es[i] == t;
      EmitAllContains(EmptyLists(|net|), es, i);
      CapOfMember(r[t.0], Forward(t));
      CapOfMember(r[t.1.dest], Backward(t));
    }
  }

  /** With every flow within its capacity, no residual capacity is negative. */
  lemma ResidualNonNegative(net: Adjacency)
    requires WellFormed(net) && FlowsWithinCapacity(net)
    ensures NonNegative(Residual(net))
  {
    var es := NetworkArcs(net);
    NetworkArcsReal(net);
    ArcsBeforeSound(net, |net|);
    EmptyListsFacts(|net|);
    forall i | 0 <= i < |es|
      ensures 0 <= es[i].1.flow <= es[i].1.capa
    {
      var j :| 0 <= j < |net[es[i].0].arcs| && net[es[i].0].arcs[j] == es[i].1;
    }
    EmitAllNonNegative(EmptyLists(|net|), es);
  }

  /** The residual capacities add up to the sum of the network's capacities. */
  lemma ResidualCapacity(net: Adjacency)
    requires WellFormed(net)
    ensures TotalCapa(Residual(net)) == TotalCapacity(net)
  {
    NetworkArcsReal(net);
    EmptyListsFacts(|net|);
    EmitAllCapacity(EmptyLists(|net|), NetworkArcs(net));
  }

  lemma {:induction false} EmitAllAppend(adj: Adjacency, a: seq<Tagged>, b: seq<Tagged>)
    requires InRange(a, |adj|) && InRange(b, |adj|)
    ensures InRange(a + b, |adj|)
    ensures EmitAll(adj, a + b) == EmitAll(EmitAll(adj, a), b)
    decreases |b|
  {
    if b == [] {
      assert a + b == a;
    } else {
      var pre := b[..|b| - 1];
      EmitAllAppend(adj, a, pre);
      assert (a + b)[..|a + b| - 1] == a + pre && (a + b)[|a + b| - 1] == b[|b| - 1];
    }
  }

  /** Going from vertex u to vertex u + 1 in the construction: the arcs of
      u come after those of the vertices before it. */
  lemma EmitNext(net: Adjacency, u: int)
    requires WellFormed(net) && 1 <= u < |net|
    ensures RealVertices(ArcsBefore(net, u), |net|) && RealVertices(Tag(u, net[u].arcs), |net|)
    ensures RealVertices(ArcsBefore(net, u + 1), |net|)
    ensures EmitAll(EmptyLists(|net|), ArcsBefore(net, u + 1))
         == EmitAll(EmitAll(EmptyLists(|net|), ArcsBefore(net, u)), Tag(u, net[u].arcs))
  {
    ArcsBeforeReal(net, u);
    ArcsBeforeReal(net, u + 1);
    EmitAllAppend(EmptyLists(|net|), ArcsBefore(net, u), Tag(u, net[u].arcs));
  }

  /** The arcs of `u` up to `j` stay between real vertices when all of them do. */
  lemma TagPrefix(u: int, arcs: seq<Arc>, j: int, n: int)
    requires RealVertices(Tag(u, arcs), n) && 0 <= j <= |arcs|
    ensures RealVertices(Tag(u, arcs[..j]), n)
    ensures j < |arcs| ==> 1 <= u < n && 1 <= arcs[j].dest < n
  {
    var all, pre := Tag(u, arcs), Tag(u, arcs[..j]);
    forall i | 0 <= i < |pre|
      ensures 1 <= pre[i].0 < n && 1 <= pre[i].1.dest < n
    {
      assert pre[i] == all[i];
    }
    if j < |arcs| {
      assert all[j] == (u, arcs[j]);
    }
  }

  /** The inner loop of buildResidualGraph: emits the residual arcs of the
      arcs of vertex `u`, head first. */
  method EmitVertex(rg: Graph, u: int, arcs: seq<Arc>)
    requires 1 <= u < rg.succ.Length && RealVertices(Tag(u, arcs), rg.succ.Length)
    modifies rg.succ
    ensures rg.succ[..] == EmitAll(old(rg.succ[..]), Tag(u, arcs))
  {
    ghost var start := rg.succ[..];
    var j := 0;
    TagPrefix(u, arcs, 0, |start|);
    while j < |arcs|
      invariant 0 <= j <= |arcs| && rg.succ.Length == |start|
      invariant RealVertices(Tag(u, arcs[..j]), |start|)
      invariant rg.succ[..] == EmitAll(start, Tag(u, arcs[..j]))
    {
      EmitArc(rg, u, arcs, j, start);
      j := j + 1;
    }
    assert arcs[..j] == arcs;
  }

  /** One turn of the inner loop of buildResidualGraph: the forward arc of
      arc `j` of `u` at the head of the list of `u`, then its backward arc at
      the head of the list of its destination. */
  method EmitArc(rg: Graph, u: int, arcs: seq<Arc>, j: int, ghost start: seq<SuccList>)
    requires 0 <= j < |arcs| && rg.succ.Length == |start|
    requires RealVertices(Tag(u, arcs), |start|) && RealVertices(Tag(u, arcs[..j]), |start|)
    requires rg.succ[..] == EmitAll(start, Tag(u, arcs[..j]))
    modifies rg.succ
    ensures RealVertices(Tag(u, arcs[..j + 1]), |start|)
    ensures rg.succ[..] == EmitAll(start, Tag(u, arcs[..j + 1]))
  {
    TagPrefix(u, arcs, j, |start|);
    TagPrefix(u, arcs, j + 1, |start|);
    var e := arcs[j];
    var v := e.dest;
    ghost var done := Tag(u, arcs[..j]);
    assert Tag(u, arcs[..j + 1]) == done + [(u, e)];
    EmitAllSnoc(start, done, (u, e));
    ghost var before := rg.succ[..];
    rg.InsertHead(u, Arc(v, e.capa - e.flow, 0));
    assert rg.succ[..] == Prepend(before, u, Forward((u, e)));
    ghost var mid := rg.succ[..];
    rg.InsertHead(v, Arc(u, e.flow, 0));
    assert rg.succ[..] == Prepend(mid, v, Backward((u, e)));
  }

  /** The outer loop of buildResidualGraph: emits the residual arcs of every
      real vertex in turn into the empty lists of `rg`. */
  method EmitVertices(lists: array<SuccList>, rg: Graph)
    requires WellFormed(lists[..]) && rg.succ != lists && rg.succ.Length == lists.Length
    requires rg.succ[..] == EmptyLists(lists.Length)
    modifies rg.succ
    ensures rg.succ[..] == Residual(lists[..])
  {
    var n := lists.Length;
    ghost var net := lists[..];
    var u := 1;
    while u < n
      invariant 1 <= u <= n
      invariant RealVertices(ArcsBefore(net, u), n)
      invariant rg.succ[..] == EmitAll(EmptyLists(n), ArcsBefore(net, u))
    {
      EmitOne(rg, net, u, lists[u].arcs);
      u := u + 1;
    }
    assert u == |net| && lists[..] == net;
  }

  /** Step u of the outer loop of buildResidualGraph. */
  method EmitOne(rg: Graph, ghost net: Adjacency, u: int, arcs: seq<Arc>)
    requires WellFormed(net) && 1 <= u < |net| == rg.succ.Length && arcs == net[u].arcs
    requires RealVertices(ArcsBefore(net, u), |net|)
    requires rg.succ[..] == EmitAll(EmptyLists(|net|), ArcsBefore(net, u))
    modifies rg.succ
    ensures RealVertices(ArcsBefore(net, u + 1), |net|)
    ensures rg.succ[..] == EmitAll(EmptyLists(|net|), ArcsBefore(net, u + 1))
  {
    EmitNext(net, u);
    EmitVertex(rg, u, arcs);
  }

  /** buildResidualGraph: a fresh graph with the same vertex count, source and
      sink, whose lists are those of `Residual`; the network is only read. */
  method BuildResidualGraph(g: Graph) returns (rg: Graph)
    requires g.Valid()
    ensures fresh(rg) && fresh(rg.succ) && rg.Valid()
    ensures rg.vertexCount == g.vertexCount && rg.source == g.source && rg.sink == g.sink
    ensures rg.succ[..] == Residual(g.succ[..])
  {
    rg := new Graph(g.vertexCount - 1, g.source, g.sink);
    assert rg.succ[..] == EmptyLists(g.vertexCount);
    EmitVertices(g.succ, rg);
    ResidualShape(g.succ[..]);
  }
}
