/** Augmentation along a path of the residual graph (minCapacity and
    updateResidualGraph): the bottleneck of the path, and the update that
    takes it off the arc of each step and adds it to the reverse arc. */
module Augmentation {
  import opened Network
  import opened ResidualGraph

  /** The number of steps of a path: the loops of minCapacity and
      updateResidualGraph run while i < taille - 1. */
  function Steps(path: Path): nat
  {
    if path.size >= 1 then path.size - 1 else 0
  }

  /** Arc `j` of the list of `p[i]` leads to `p[i + 1]`: it is one of the arcs
      the bottleneck scan weighs for step i of the path. */
  ghost predicate PathArc(adj: Adjacency, p: seq<int>, i: int, j: int)
  {
    0 <= i < |p| - 1 && 0 <= p[i] < |adj| && 0 <= j < |adj[p[i]].arcs| && adj[p[i]].arcs[j].dest == p[i + 1]
  }

  /** minCapacity: the smallest capacity among the arcs joining consecutive
      vertices of the path, or INT_MAX when the path has no step. Every arc
      from p[i] to p[i + 1] is weighed, not only the first. */
  method MinCapacity(rg: Graph, path: Path) returns (minC: int)
    requires rg.Valid() && PathIn(path, rg.vertexCount)
    ensures minC <= INT_MAX
    ensures forall i, j :: PathArc(rg.succ[..], path.vertices, i, j) ==> minC <= rg.succ[path.vertices[i]].arcs[j].capa
    ensures minC == INT_MAX ||
      exists i, j :: PathArc(rg.succ[..], path.vertices, i, j) && minC == rg.succ[path.vertices[i]].arcs[j].capa
  {
    ghost var adj := rg.succ[..];
    var p := path.vertices;
    minC := INT_MAX;
    ghost var wi, wj := 0, 0;
    var i := 0;
    while i < path.size - 1
      invariant 0 <= i && (i == 0 || i <= path.size - 1)
      invariant minC <= INT_MAX
      invariant forall i', j' :: PathArc(adj, p, i', j') && i' < i ==> minC <= adj[p[i']].arcs[j'].capa
      invariant minC == INT_MAX || (PathArc(adj, p, wi, wj) && minC == adj[p[wi]].arcs[wj].capa)
    {
      var u, v := p[i], p[i + 1];
      var arcs := rg.succ[u].arcs;
      var j := 0;
      while j < |arcs|
        invariant 0 <= j <= |arcs|
        invariant minC <= INT_MAX
        invariant forall i', j' :: PathArc(adj, p, i', j') && i' < i ==> minC <= adj[p[i']].arcs[j'].capa
        invariant forall j' :: 0 <= j' < j && arcs[j'].dest == v ==> minC <= arcs[j'].capa
        invariant minC == INT_MAX || (PathArc(adj, p, wi, wj) && minC == adj[p[wi]].arcs[wj].capa)
      {
        if arcs[j].dest == v && arcs[j].capa < minC {
          minC := arcs[j].capa;
          wi, wj := i, j;
        }
        j := j + 1;
      }
      i := i + 1;
    }
  }

  /** Along an augmenting path of a graph with one arc per ordered pair, the
      bottleneck is at least 1: the BFS reached every step over an arc of
      positive capacity, and that arc is the only one of its pair. */
  lemma BottleneckPositive(adj: Adjacency, p: seq<int>, s: int, t: int, m: int)
    requires UniqueDests(adj) && IsWalk(adj, s, t, p)
    requires forall i, j :: PathArc(adj, p, i, j) ==> m <= adj[p[i]].arcs[j].capa
    requires m == INT_MAX || exists i, j :: PathArc(adj, p, i, j) && m == adj[p[i]].arcs[j].capa
    ensures m >= 1
  {
    if m != INT_MAX {
      var i, j :| PathArc(adj, p, i, j) && m == adj[p[i]].arcs[j].capa;
      assert PosArc(adj[p[i]], p[i + 1]);
      var j' :| 0 <= j' < |adj[p[i]].arcs| && adj[p[i]].arcs[j'].dest == p[i + 1] && adj[p[i]].arcs[j'].capa > 0;
      assert DistinctDests(adj[p[i]].arcs);
      assert j == j';
    }
  }

  // ---------------------------------------------------------------------------
  // The residual update as a function
  // ---------------------------------------------------------------------------

  /** The list with the capacity of its first arc to `y` moved by `d`;
      unchanged when no arc leads to `y`. */
  function AdjustList(l: SuccList, y: int, d: int): SuccList
  {
    match FindArc(l.arcs, y)
    case None => l
    case Some(j) => SuccList(l.arcs[j := l.arcs[j].(capa := l.arcs[j].capa + d)], l.size)
  }

  /** The graph with the first arc x -> y moved by `d`. */
  function Adjust(adj: Adjacency, x: int, y: int, d: int): (r: Adjacency)
    requires 0 <= x < |adj|
    ensures |r| == |adj|
  {
    adj[x := AdjustList(adj[x], y, d)]
  }

  /** The residual graph after the first `i` steps of updateResidualGraph
      along `p` with amount `k`: each step takes `k` off the first arc
      p[i] -> p[i + 1], then adds `k` to the first arc p[i + 1] -> p[i]. */
  function Augmented(adj: Adjacency, p: seq<int>, k: int, i: int): (r: Adjacency)
    requires Within(p, |adj|) && 0 <= i && (i == 0 || i < |p|)
    ensures |r| == |adj|
  {
    if i == 0 then adj else AugmentStep(Augmented(adj, p, k, i - 1), p[i - 1], p[i], k)
  }

  /** One step u -> v of the update. */
  function AugmentStep(adj: Adjacency, u: int, v: int, k: int): (r: Adjacency)
    requires 0 <= u < |adj| && 0 <= v < |adj|
    ensures |r| == |adj|
  {
    Adjust(Adjust(adj, u, v, -k), v, u, k)
  }

  /** Two graphs with the same lists, counters, destinations and flows; only
      capacities may differ. */
  predicate SameShape(a: Adjacency, b: Adjacency)
  {
    |a| == |b| &&
    (forall x :: 0 <= x < |a| ==> a[x].size == b[x].size && |a[x].arcs| == |b[x].arcs|) &&
    (forall x, j :: 0 <= x < |a| && 0 <= j < |a[x].arcs| && j < |b[x].arcs| ==>
      a[x].arcs[j].dest == b[x].arcs[j].dest && a[x].arcs[j].flow == b[x].arcs[j].flow)
  }

  /** Capacities may change; nothing else does, so the graph stays well formed. */
  lemma ShapeKeeps(a: Adjacency, b: Adjacency)
    requires SameShape(a, b)
    ensures WellFormed(a) ==> WellFormed(b)
    ensures UniqueDests(a) ==> UniqueDests(b)
    ensures forall x, y :: 0 <= x < |a| ==> FindArc(a[x].arcs, y) == FindArc(b[x].arcs, y)
  {
    forall x, y | 0 <= x < |a|
      ensures FindArc(a[x].arcs, y) == FindArc(b[x].arcs, y)
    {
      FindSameDests(a[x].arcs, b[x].arcs, y);
    }
  }

  /** The first-match lookup only looks at destinations. */
  lemma {:induction false} FindSameDests(a: seq<Arc>, b: seq<Arc>, y: int)
    requires |a| == |b| && forall j :: 0 <= j < |a| ==> a[j].dest == b[j].dest
    ensures FindArc(a, y) == FindArc(b, y)
  {
    if a != [] && a[0].dest != y {
      FindSameDests(a[1..], b[1..], y);
    }
  }

  lemma {:induction false} SameShapeTrans(a: Adjacency, b: Adjacency, c: Adjacency)
    requires SameShape(a, b) && SameShape(b, c)
    ensures SameShape(a, c)
  {
  }

  /** One adjustment moves exactly the capacity of the arc x -> y, when there is one. */
  lemma AdjustEffect(adj: Adjacency, x: int, y: int, d: int)
    requires UniqueDests(adj) && 0 <= x < |adj|
    ensures SameShape(adj, Adjust(adj, x, y, d))
    ensures forall z, j :: 0 <= z < |adj| && 0 <= j < |adj[z].arcs| ==>
      Adjust(adj, x, y, d)[z].arcs[j].capa == adj[z].arcs[j].capa + (if z == x && adj[z].arcs[j].dest == y then d else 0)
  {
    var r := FindArc(adj[x].arcs, y);
    if r.Some? {
      forall j | 0 <= j < |adj[x].arcs| && adj[x].arcs[j].dest == y
        ensures j == r.value
      {
        FindDistinct(adj[x].arcs, j);
      }
    }
  }

  /** Adjustments keep the shape whatever the lists hold. */
  lemma AdjustShape(adj: Adjacency, x: int, y: int, d: int)
    requires 0 <= x < |adj|
    ensures SameShape(adj, Adjust(adj, x, y, d))
  {
  }

  lemma {:induction false} AugmentedShape(adj: Adjacency, p: seq<int>, k: int, i: int)
    requires Within(p, |adj|) && 0 <= i && (i == 0 || i < |p|)
    ensures SameShape(adj, Augmented(adj, p, k, i))
  {
    if i > 0 {
      var a := Augmented(adj, p, k, i - 1);
      var b := Adjust(a, p[i - 1], p[i], -k);
      assert Augmented(adj, p, k, i) == Adjust(b, p[i], p[i - 1], k);
      AugmentedShape(adj, p, k, i - 1);
      AdjustShape(a, p[i - 1], p[i], -k);
      AdjustShape(b, p[i], p[i - 1], k);
      SameShapeTrans(adj, a, b);
      SameShapeTrans(adj, b, Augmented(adj, p, k, i));
    }
  }

  lemma AugmentedWellFormed(adj: Adjacency, p: seq<int>, k: int, i: int)
    requires WellFormed(adj) && Within(p, |adj|) && 0 <= i && (i == 0 || i < |p|)
    ensures WellFormed(Augmented(adj, p, k, i))
  {
    AugmentedShape(adj, p, k, i);
    ShapeKeeps(adj, Augmented(adj, p, k, i));
  }

  /** Net change the first `i` steps of the update make to the capacity of
      the arc x -> y: `-k` for each step x -> y, `+k` for each step y -> x. */
  function Shift(p: seq<int>, k: int, i: int, x: int, y: int): int
    requires 0 <= i && (i == 0 || i < |p|)
  {
    if i == 0 then 0
    else Shift(p, k, i - 1, x, y) + (if p[i - 1] == x && p[i] == y then -k else 0)
                                  + (if p[i - 1] == y && p[i] == x then k else 0)
  }

  /** What goes off an arc goes onto its reverse. */
  lemma {:induction false} ShiftAntisymmetric(p: seq<int>, k: int, i: int, x: int, y: int)
    requires 0 <= i && (i == 0 || i < |p|)
    ensures Shift(p, k, i, x, y) == -Shift(p, k, i, y, x)
  {
    if i > 0 {
      ShiftAntisymmetric(p, k, i - 1, x, y);
    }
  }

  /** One step u -> v moves the arc u -> v by -k and the arc v -> u by +k. */
  lemma AugmentStepEffect(adj: Adjacency, u: int, v: int, k: int)
    requires UniqueDests(adj) && 0 <= u < |adj| && 0 <= v < |adj|
    ensures SameShape(adj, AugmentStep(adj, u, v, k)) && UniqueDests(AugmentStep(adj, u, v, k))
    ensures forall z, j :: 0 <= z < |adj| && 0 <= j < |adj[z].arcs| ==>
      AugmentStep(adj, u, v, k)[z].arcs[j].capa == adj[z].arcs[j].capa
        + (if z == u && adj[z].arcs[j].dest == v then -k else 0)
        + (if z == v && adj[z].arcs[j].dest == u then k else 0)
  {
    var b := Adjust(adj, u, v, -k);
    var c := Adjust(b, v, u, k);
    assert c == AugmentStep(adj, u, v, k);
    AdjustEffect(adj, u, v, -k);
    ShapeKeeps(adj, b);
    AdjustEffect(b, v, u, k);
    ShapeKeeps(b, c);
    CombineMoves(adj, b, c, u, v, k);
  }

  /** A move of -k on the arc u -> v followed by a move of +k on the arc v -> u. */
  lemma CombineMoves(adj: Adjacency, b: Adjacency, c: Adjacency, u: int, v: int, k: int)
    requires SameShape(adj, b) && SameShape(b, c)
    requires forall z, j :: 0 <= z < |adj| && 0 <= j < |adj[z].arcs| ==>
      b[z].arcs[j].capa == adj[z].arcs[j].capa + (if z == u && adj[z].arcs[j].dest == v then -k else 0)
    requires forall z, j :: 0 <= z < |b| && 0 <= j < |b[z].arcs| ==>
      c[z].arcs[j].capa == b[z].arcs[j].capa + (if z == v && b[z].arcs[j].dest == u then k else 0)
    ensures SameShape(adj, c)
    ensures forall z, j :: 0 <= z < |adj| && 0 <= j < |adj[z].arcs| ==>
      c[z].arcs[j].capa == adj[z].arcs[j].capa
        + (if z == u && adj[z].arcs[j].dest == v then -k else 0)
        + (if z == v && adj[z].arcs[j].dest == u then k else 0)
  {
    SameShapeTrans(adj, b, c);
    forall z, j | 0 <= z < |adj| && 0 <= j < |adj[z].arcs|
      ensures c[z].arcs[j].capa == adj[z].arcs[j].capa
        + (if z == u && adj[z].arcs[j].dest == v then -k else 0)
        + (if z == v && adj[z].arcs[j].dest == u then k else 0)
    {
      assert b[z].arcs[j].dest == adj[z].arcs[j].dest;
    }
  }

  /** With one arc per ordered pair, the first `i` steps change every arc's
      capacity by its shift and nothing else. */
  lemma {:induction false} AugmentedEffect(adj: Adjacency, p: seq<int>, k: int, i: int)
    requires UniqueDests(adj) && Within(p, |adj|) && 0 <= i && (i == 0 || i < |p|)
    ensures SameShape(adj, Augmented(adj, p, k, i)) && UniqueDests(Augmented(adj, p, k, i))
    ensures forall z, j :: 0 <= z < |adj| && 0 <= j < |adj[z].arcs| ==>
      Augmented(adj, p, k, i)[z].arcs[j].capa == adj[z].arcs[j].capa + Shift(p, k, i, z, adj[z].arcs[j].dest)
  {
    if i > 0 {
      var a := Augmented(adj, p, k, i - 1);
      var c := Augmented(adj, p, k, i);
      AugmentedEffect(adj, p, k, i - 1);
      AugmentStepEffect(a, p[i - 1], p[i], k);
      SameShapeTrans(adj, a, c);
      ShiftStep(adj, a, c, p, k, i);
    }
  }

  /** The shifts of the first `i - 1` steps followed by the move of step i - 1
      make the shifts of the first `i` steps. */
  lemma ShiftStep(adj: Adjacency, a: Adjacency, c: Adjacency, p: seq<int>, k: int, i: int)
    requires 0 < i < |p| && SameShape(adj, a) && SameShape(a, c)
    requires forall z, j :: 0 <= z < |adj| && 0 <= j < |adj[z].arcs| ==>
      a[z].arcs[j].capa == adj[z].arcs[j].capa + Shift(p, k, i - 1, z, adj[z].arcs[j].dest)
    requires forall z, j :: 0 <= z < |a| && 0 <= j < |a[z].arcs| ==>
      c[z].arcs[j].capa == a[z].arcs[j].capa
        + (if z == p[i - 1] && a[z].arcs[j].dest == p[i] then -k else 0)
        + (if z == p[i] && a[z].arcs[j].dest == p[i - 1] then k else 0)
    ensures forall z, j :: 0 <= z < |adj| && 0 <= j < |adj[z].arcs| ==>
      c[z].arcs[j].capa == adj[z].arcs[j].capa + Shift(p, k, i, z, adj[z].arcs[j].dest)
  {
    forall z, j | 0 <= z < |adj| && 0 <= j < |adj[z].arcs|
      ensures c[z].arcs[j].capa == adj[z].arcs[j].capa + Shift(p, k, i, z, adj[z].arcs[j].dest)
    {
      assert a[z].arcs[j].dest == adj[z].arcs[j].dest;
    }
  }

  /** Step j of the path goes from x to y, for some j before i. */
  ghost predicate HasStep(p: seq<int>, i: int, x: int, y: int)
  {
    exists j :: 0 <= j < i && j + 1 < |p| && p[j] == x && p[j + 1] == y
  }

  /** On a path that repeats no vertex, each ordered pair is a step at most
      once, so the shift is -k, 0 or k according to the steps taken. */
  lemma {:induction false} ShiftOnDistinct(p: seq<int>, k: int, i: int, x: int, y: int)
    requires Distinct(p) && 0 <= i && (i == 0 || i < |p|)
    ensures Shift(p, k, i, x, y) == (if HasStep(p, i, x, y) then -k else 0) + (if HasStep(p, i, y, x) then k else 0)
  {
    if i > 0 {
      ShiftOnDistinct(p, k, i - 1, x, y);
      if p[i - 1] == x && p[i] == y {
        assert !HasStep(p, i - 1, x, y);
        assert HasStep(p, i, x, y);
      } else {
        assert HasStep(p, i, x, y) == HasStep(p, i - 1, x, y) by {
          if HasStep(p, i, x, y) {
            var j :| 0 <= j < i && j + 1 < |p| && p[j] == x && p[j + 1] == y;
            assert j < i - 1;
          }
        }
      }
      if p[i - 1] == y && p[i] == x {
        assert !HasStep(p, i - 1, y, x);
        assert HasStep(p, i, y, x);
      } else {
        assert HasStep(p, i, y, x) == HasStep(p, i - 1, y, x) by {
          if HasStep(p, i, y, x) {
            var j :| 0 <= j < i && j + 1 < |p| && p[j] == y && p[j + 1] == x;
            assert j < i - 1;
          }
        }
      }
    }
  }

  /** A path that repeats no vertex never takes both x -> y and y -> x. */
  lemma NoOppositeSteps(p: seq<int>, i: int, x: int, y: int)
    requires Distinct(p)
    ensures !(HasStep(p, i, x, y) && HasStep(p, i, y, x))
  {
    if HasStep(p, i, x, y) {
      var j1 :| 0 <= j1 < i && j1 + 1 < |p| && p[j1] == x && p[j1 + 1] == y;
      forall j2 | 0 <= j2 < i && j2 + 1 < |p| && p[j2] == y
        ensures p[j2 + 1] != x
      {
        assert p[j2] == p[j1 + 1];
      }
    }
  }

  // ---------------------------------------------------------------------------
  // What one augmentation preserves and changes
  // ---------------------------------------------------------------------------

  /** The augmentation of an augmenting path by at most its bottleneck keeps
      the residual graph's invariants: one arc per ordered pair, no negative
      capacity, and for every network arc the forward and backward capacities
      still add up to its capacity. */
  lemma AugmentKeepsInvariant(es: seq<Tagged>, adj: Adjacency, p: seq<int>, k: int, s: int, t: int)
    requires UniqueDests(adj) && Conserves(es, adj) && NonNegative(adj)
    requires IsAugmentingPath(adj, s, t, p)
    requires 0 <= k && forall i, j :: PathArc(adj, p, i, j) ==> k <= adj[p[i]].arcs[j].capa
    ensures SameShape(adj, Augmented(adj, p, k, |p| - 1))
    ensures UniqueDests(Augmented(adj, p, k, |p| - 1))
    ensures Conserves(es, Augmented(adj, p, k, |p| - 1))
    ensures NonNegative(Augmented(adj, p, k, |p| - 1))
  {
    var n := |p| - 1;
    var a := Augmented(adj, p, k, n);
    AugmentedEffect(adj, p, k, n);
    ShapeKeeps(adj, a);
    forall e | e in es
      ensures 0 <= e.0 < |a| && 0 <= e.1.dest < |a|
      ensures HasArc(a[e.0], e.1.dest) && HasArc(a[e.1.dest], e.0)
      ensures Cap(a[e.0], e.1.dest) + Cap(a[e.1.dest], e.0) == e.1.capa
    {
      var u, v := e.0, e.1.dest;
      ShiftAntisymmetric(p, k, n, u, v);
      var ju, jv := FindArc(adj[u].arcs, v).value, FindArc(adj[v].arcs, u).value;
      assert Cap(a[u], v) == Cap(adj[u], v) + Shift(p, k, n, u, v) by {
        assert a[u].arcs[ju].capa == adj[u].arcs[ju].capa + Shift(p, k, n, u, adj[u].arcs[ju].dest);
      }
      assert Cap(a[v], u) == Cap(adj[v], u) + Shift(p, k, n, v, u) by {
        assert a[v].arcs[jv].capa == adj[v].arcs[jv].capa + Shift(p, k, n, v, adj[v].arcs[jv].dest);
      }
    }
    forall x, j | 0 <= x < |a| && 0 <= j < |a[x].arcs|
      ensures a[x].arcs[j].capa >= 0
    {
      var y := adj[x].arcs[j].dest;
      ShiftOnDistinct(p, k, n, x, y);
      NoOppositeSteps(p, n, x, y);
      if HasStep(p, n, x, y) {
        var i :| 0 <= i < n && i + 1 < |p| && p[i] == x && p[i + 1] == y;
        assert PathArc(adj, p, i, j);
      }
    }
  }

  /** Sum of the capacities when exactly the arcs to `y` lose `k`. */
  lemma {:induction false} SumCapaTakeOne(a: seq<Arc>, b: seq<Arc>, y: int, k: int)
    requires |a| == |b| && DistinctDests(a)
    requires forall j :: 0 <= j < |a| ==> b[j].capa == a[j].capa - (if a[j].dest == y then k else 0)
    ensures SumCapa(b) == SumCapa(a) - (if exists j :: 0 <= j < |a| && a[j].dest == y then k else 0)
  {
    if a != [] {
      SumCapaTakeOne(a[1..], b[1..], y, k);
      if a[0].dest == y {
        assert !exists j :: 0 <= j < |a[1..]| && a[1..][j].dest == y by {
          forall j | 0 <= j < |a[1..]|
            ensures a[1..][j].dest != y
          {
            assert a[1..][j] == a[j + 1];
          }
        }
      } else {
        assert (exists j :: 0 <= j < |a| && a[j].dest == y) == (exists j :: 0 <= j < |a[1..]| && a[1..][j].dest == y) by {
          if exists j :: 0 <= j < |a| && a[j].dest == y {
            var j :| 0 <= j < |a| && a[j].dest == y;
            assert a[1..][j - 1] == a[j];
          }
        }
      }
    }
  }

  /** Each augmentation takes exactly `k` off the residual capacity leaving
      the source: the path starts there, and never comes back to it. */
  lemma SourceDrop(adj: Adjacency, p: seq<int>, k: int, s: int, t: int)
    requires UniqueDests(adj) && IsAugmentingPath(adj, s, t, p) && |p| >= 2
    ensures SumCapa(Augmented(adj, p, k, |p| - 1)[s].arcs) == SumCapa(adj[s].arcs) - k
  {
    var n := |p| - 1;
    var a := Augmented(adj, p, k, n);
    AugmentedEffect(adj, p, k, n);
    forall j | 0 <= j < |adj[s].arcs|
      ensures a[s].arcs[j].capa == adj[s].arcs[j].capa - (if adj[s].arcs[j].dest == p[1] then k else 0)
    {
      var y := adj[s].arcs[j].dest;
      ShiftOnDistinct(p, k, n, s, y);
      assert HasStep(p, n, s, y) <==> y == p[1] by {
        if HasStep(p, n, s, y) {
          var i :| 0 <= i < n && i + 1 < |p| && p[i] == s && p[i + 1] == y;
          assert p[i] == p[0];
        }
        if y == p[1] {
          assert p[0] == s && p[1] == y;
        }
      }
      forall i | 0 <= i < n && i + 1 < |p| && p[i] == y
        ensures p[i + 1] != s
      {
        assert p[0] == s;
      }
    }
    assert PosArc(adj[s], p[1]);
    SumCapaTakeOne(adj[s].arcs, a[s].arcs, p[1], k);
  }

  /** On a path that repeats no vertex, the steps out of and into its vertex
      `i` are the step to p[i + 1] and the step from p[i - 1]. */
  lemma StepsAt(p: seq<int>, i: int, y: int)
    requires Distinct(p) && 0 <= i < |p|
    ensures HasStep(p, |p| - 1, p[i], y) <==> i < |p| - 1 && y == p[i + 1]
    ensures HasStep(p, |p| - 1, y, p[i]) <==> 0 < i && y == p[i - 1]
  {
    var n := |p| - 1;
    if HasStep(p, n, p[i], y) {
      var j :| 0 <= j < n && j + 1 < |p| && p[j] == p[i] && p[j + 1] == y;
      assert j == i;
    }
    if i < n && y == p[i + 1] {
      assert p[i] == p[i] && p[i + 1] == y;
    }
    if HasStep(p, n, y, p[i]) {
      var j :| 0 <= j < n && j + 1 < |p| && p[j] == y && p[j + 1] == p[i];
      assert j + 1 == i;
    }
    if 0 < i && y == p[i - 1] {
      assert p[i - 1] == y && p[(i - 1) + 1] == p[i];
    }
  }

  /** Capacities may change, arcs and their reverses stay. */
  lemma SymmetricKeeps(a: Adjacency, b: Adjacency)
    requires SameShape(a, b) && Symmetric(a)
    ensures Symmetric(b)
  {
    ShapeKeeps(a, b);
    forall x | 0 <= x < |b|
      ensures Reversed(b, x)
    {
      assert Reversed(a, x);
    }
  }

  /** Kirchhoff's law in residual form: an augmentation keeps the residual
      capacity out of every vertex other than the two ends of the path. A
      vertex off the path is not touched; an inner vertex loses `k` on its arc
      to the next vertex and gains `k` on its arc back to the one before. */
  lemma InnerKept(adj: Adjacency, p: seq<int>, k: int, s: int, t: int, x: int)
    requires UniqueDests(adj) && Symmetric(adj) && IsAugmentingPath(adj, s, t, p) && |p| >= 2
    requires 0 <= x < |adj| && x != s && x != t
    ensures SumCapa(Augmented(adj, p, k, |p| - 1)[x].arcs) == SumCapa(adj[x].arcs)
  {
    if i :| 0 <= i < |p| && p[i] == x {
      assert 0 < i < |p| - 1 && PosArc(adj[p[i - 1]], x);
      ReverseOfPositive(adj, p[i - 1], x);
      InnerVertexKept(adj, p, k, i);
    } else {
      OffPathKept(adj, p, k, x);
    }
  }

  /** Vertex `i` of the path, neither its first nor its last, with an arc
      back to p[i - 1]: its arc out along the path loses `k`, its arc back
      gains `k`. */
  lemma InnerVertexKept(adj: Adjacency, p: seq<int>, k: int, i: int)
    requires 0 < i < |p| - 1 && UniqueDests(adj) && IsAugmentingPath(adj, p[0], p[|p| - 1], p)
    requires HasArc(adj[p[i]], p[i - 1])
    ensures SumCapa(Augmented(adj, p, k, |p| - 1)[p[i]].arcs) == SumCapa(adj[p[i]].arcs)
  {
    var x := p[i];
    InnerCapas(adj, p, k, i);
    assert PosArc(adj[x], p[i + 1]);
    TwoMoves(adj[x], Augmented(adj, p, k, |p| - 1)[x].arcs, p[i - 1], p[i + 1], k);
  }

  /** An arc y -> x of a symmetric graph has its reverse x -> y. */
  lemma ReverseOfPositive(adj: Adjacency, y: int, x: int)
    requires Symmetric(adj) && 0 <= y < |adj| && 0 <= x < |adj| && PosArc(adj[y], x)
    ensures HasArc(adj[x], y)
  {
    var j :| 0 <= j < |adj[y].arcs| && adj[y].arcs[j].dest == x && adj[y].arcs[j].capa > 0;
    assert HasArc(adj[y], x) && Reversed(adj, y);
  }

  /** The capacities out of an inner vertex after the augmentation. */
  lemma InnerCapas(adj: Adjacency, p: seq<int>, k: int, i: int)
    requires 0 < i < |p| - 1 && UniqueDests(adj) && Within(p, |adj|) && Distinct(p)
    ensures var a, arcs := Augmented(adj, p, k, |p| - 1), adj[p[i]].arcs;
      |a[p[i]].arcs| == |arcs| &&
      forall j :: 0 <= j < |arcs| ==>
        a[p[i]].arcs[j].capa == arcs[j].capa - (if arcs[j].dest == p[i + 1] then k else 0) + (if arcs[j].dest == p[i - 1] then k else 0)
  {
    var a, arcs := Augmented(adj, p, k, |p| - 1), adj[p[i]].arcs;
    AugmentedEffect(adj, p, k, |p| - 1);
    forall j | 0 <= j < |arcs|
      ensures a[p[i]].arcs[j].capa == arcs[j].capa - (if arcs[j].dest == p[i + 1] then k else 0) + (if arcs[j].dest == p[i - 1] then k else 0)
    {
      ShiftAtInner(p, k, i, arcs[j].dest);
    }
  }

  /** The net shift of the arc from an inner vertex to `y`. */
  lemma ShiftAtInner(p: seq<int>, k: int, i: int, y: int)
    requires Distinct(p) && 0 < i < |p| - 1
    ensures Shift(p, k, |p| - 1, p[i], y) == -(if y == p[i + 1] then k else 0) + (if y == p[i - 1] then k else 0)
  {
    ShiftOnDistinct(p, k, |p| - 1, p[i], y);
    StepsAt(p, i, y);
  }

  /** A list with one arc to `y1` losing `k` and one arc to `y0` gaining `k`
      keeps its sum of capacities. */
  lemma TwoMoves(l: SuccList, b: seq<Arc>, y0: int, y1: int, k: int)
    requires |b| == |l.arcs| && DistinctDests(l.arcs) && y0 != y1 && PosArc(l, y1) && HasArc(l, y0)
    requires forall j :: 0 <= j < |l.arcs| ==>
      b[j].capa == l.arcs[j].capa - (if l.arcs[j].dest == y1 then k else 0) + (if l.arcs[j].dest == y0 then k else 0)
    ensures SumCapa(b) == SumCapa(l.arcs)
  {
    var arcs := l.arcs;
    var c := seq(|arcs|, j requires 0 <= j < |arcs| => arcs[j].(capa := arcs[j].capa - (if arcs[j].dest == y1 then k else 0)));
    SumCapaTakeOne(arcs, c, y1, k);
    var jb := FindArc(arcs, y0).value;
    assert c[jb].dest == y0;
    SumCapaTakeOne(c, b, y0, -k);
  }

  /** A vertex the path does not visit keeps every capacity. */
  lemma OffPathKept(adj: Adjacency, p: seq<int>, k: int, x: int)
    requires UniqueDests(adj) && Within(p, |adj|) && Distinct(p) && |p| >= 1 && 0 <= x < |adj|
    requires forall i :: 0 <= i < |p| ==> p[i] != x
    ensures SumCapa(Augmented(adj, p, k, |p| - 1)[x].arcs) == SumCapa(adj[x].arcs)
  {
    var n := |p| - 1;
    var a := Augmented(adj, p, k, n);
    var arcs := adj[x].arcs;
    AugmentedEffect(adj, p, k, n);
    forall j | 0 <= j < |arcs|
      ensures a[x].arcs[j].capa == arcs[j].capa - (if arcs[j].dest == x then 0 else 0)
    {
      ShiftOnDistinct(p, k, n, x, arcs[j].dest);
    }
    SumCapaTakeOne(arcs, a[x].arcs, x, 0);
  }

  /** With no negative capacity, the capacity out of a vertex is not negative. */
  lemma {:induction false} SumCapaNonNegative(arcs: seq<Arc>)
    requires forall j :: 0 <= j < |arcs| ==> arcs[j].capa >= 0
    ensures SumCapa(arcs) >= 0
  {
    if arcs != [] {
      SumCapaNonNegative(arcs[1..]);
    }
  }

  // ---------------------------------------------------------------------------
  // The residual update in place
  // ---------------------------------------------------------------------------

  /** One of the two scans of each step of updateResidualGraph: walk the list
      of `x` to the first arc that leads to `y`, move its capacity by `d`, stop. */
  method AdjustFirst(succ: array<SuccList>, x: int, y: int, d: int)
    requires 0 <= x < succ.Length
    modifies succ
    ensures succ[..] == Adjust(old(succ[..]), x, y, d)
  {
    var arcs := succ[x].arcs;
    var j := FirstArc(arcs, y);
    if j < |arcs| {
      succ[x] := SuccList(arcs[j := arcs[j].(capa := arcs[j].capa + d)], succ[x].size);
    }
  }

  /** Step i of the loop of updateResidualGraph: the move along p[i] -> p[i + 1]. */
  method AugmentOneStep(succ: array<SuccList>, ghost init: Adjacency, p: seq<int>, k: int, i: int)
    requires Within(p, |init|) && 0 <= i < |p| - 1
    requires succ[..] == Augmented(init, p, k, i)
    modifies succ
    ensures succ[..] == Augmented(init, p, k, i + 1)
  {
    ghost var a := succ[..];
    assert Augmented(init, p, k, i + 1) == AugmentStep(a, p[i], p[i + 1], k);
    AdjustFirst(succ, p[i], p[i + 1], -k);
    ghost var b := succ[..];
    assert b == Adjust(a, p[i], p[i + 1], -k);
    AdjustFirst(succ, p[i + 1], p[i], k);
    assert succ[..] == Adjust(b, p[i + 1], p[i], k);
  }

  /** updateResidualGraph: for each step u -> v of the path, `k` off the first
      arc u -> v and onto the first arc v -> u. */
  method UpdateResidualGraph(rg: Graph, path: Path, k: int)
    requires rg.Valid() && PathIn(path, rg.vertexCount)
    modifies rg.succ
    ensures rg.succ[..] == Augmented(old(rg.succ[..]), path.vertices, k, Steps(path))
  {
    AugmentAlong(rg.succ, path, k);
  }

  /** The loop of updateResidualGraph over the successor lists of the graph. */
  method AugmentAlong(succ: array<SuccList>, path: Path, k: int)
    requires PathIn(path, succ.Length)
    modifies succ
    ensures succ[..] == Augmented(old(succ[..]), path.vertices, k, Steps(path))
  {
    var p := path.vertices;
    ghost var init := succ[..];
    var i := 0;
    while i < path.size - 1
      invariant 0 <= i <= Steps(path)
      invariant succ[..] == Augmented(init, p, k, i)
    {
      AugmentOneStep(succ, init, p, k, i);
      i := i + 1;
    }
    assert i == Steps(path);
  }
}
