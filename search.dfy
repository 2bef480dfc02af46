/** Breadth-first search for an augmenting path in the residual graph
    (shortestPath): vertices are marked when first reached over an arc of
    positive capacity, each marked vertex records its parent, the search
    stops when the sink leaves the queue, and the path is read back from the
    sink along the parents. */
module PathSearch {
  import opened Network
  import opened FifoQueue

  /** Number of marked entries. */
  function CountTrue(s: seq<bool>): nat
  {
    if s == [] then 0 else CountTrue(s[..|s| - 1]) + (if s[|s| - 1] then 1 else 0)
  }

  lemma {:induction false} CountTrueAtMost(s: seq<bool>)
    ensures CountTrue(s) <= |s|
  {
    if s != [] {
      CountTrueAtMost(s[..|s| - 1]);
    }
  }

  /** Marking an unmarked vertex adds one to the count, which was below the
      number of vertices: pushes stay within the queue's capacity. */
  lemma {:induction false} CountTrueMark(s: seq<bool>, v: int)
    requires 0 <= v < |s| && !s[v]
    ensures CountTrue(s) < |s|
    ensures CountTrue(s[v := true]) == CountTrue(s) + 1
  {
    var pre := s[..|s| - 1];
    if v == |s| - 1 {
      assert s[v := true][..|s| - 1] == pre;
      CountTrueAtMost(pre);
    } else {
      assert s[v := true][..|s| - 1] == pre[v := true];
      CountTrueMark(pre, v);
    }
  }

  /** The parent record of one vertex: a marked vertex other than the source
      has a marked parent one step closer to the source, joined to it by an
      arc of positive capacity. */
  ghost predicate ParentOk(adj: Adjacency, s: int, vis: seq<bool>, par: seq<int>, dist: seq<nat>, v: int)
    requires |vis| == |adj| && |par| == |adj| && |dist| == |adj| && 0 <= v < |adj|
  {
    vis[v] && v != s ==>
      0 <= par[v] < |adj| && vis[par[v]] && dist[v] == dist[par[v]] + 1 && PosArc(adj[par[v]], v)
  }

  /** The parent records form a tree rooted at the source, at distance 0. */
  ghost predicate ParentTree(adj: Adjacency, s: int, vis: seq<bool>, par: seq<int>, dist: seq<nat>)
  {
    |vis| == |adj| && |par| == |adj| && |dist| == |adj| &&
    0 <= s < |adj| && vis[s] && par[s] == -1 && dist[s] == 0 &&
    forall v :: 0 <= v < |adj| ==> ParentOk(adj, s, vis, par, dist, v)
  }

  /** Every arc of positive capacity leaving a marked vertex leads to a marked vertex. */
  ghost predicate Closed(adj: Adjacency, vis: seq<bool>)
  {
    |vis| == |adj| &&
    forall u, j :: 0 <= u < |adj| && vis[u] && 0 <= j < |adj[u].arcs| && adj[u].arcs[j].capa > 0 ==>
      0 <= adj[u].arcs[j].dest < |vis| && vis[adj[u].arcs[j].dest]
  }

  /** Every arc of positive capacity among the first `j` of `arcs` leads to
      a marked vertex at distance at most `d`. */
  ghost predicate Scanned(arcs: seq<Arc>, vis: seq<bool>, dist: seq<nat>, d: int, j: int)
  {
    |dist| == |vis| &&
    forall jj :: 0 <= jj < j && jj < |arcs| && arcs[jj].capa > 0 ==>
      0 <= arcs[jj].dest < |vis| && vis[arcs[jj].dest] && dist[arcs[jj].dest] <= d
  }

  /** Every arc of positive capacity leaving `u` leads to a marked vertex at
      most one step further from the source. */
  ghost predicate Expanded(adj: Adjacency, vis: seq<bool>, dist: seq<nat>, u: int)
    requires 0 <= u < |adj| && u < |dist|
  {
    Scanned(adj[u].arcs, vis, dist, dist[u] + 1, |adj[u].arcs|)
  }

  /** Marking a new vertex keeps every scanned arc scanned. */
  lemma ScannedMark(arcs: seq<Arc>, vis: seq<bool>, dist: seq<nat>, d: int, j: int, v: int, e: nat)
    requires Scanned(arcs, vis, dist, d, j) && 0 <= v < |vis| && !vis[v]
    ensures Scanned(arcs, vis[v := true], dist[v := e], d, j)
  {
  }

  lemma ScannedNext(arcs: seq<Arc>, vis: seq<bool>, dist: seq<nat>, d: int, j: int)
    requires Scanned(arcs, vis, dist, d, j) && 0 <= j < |arcs|
    requires arcs[j].capa > 0 ==> 0 <= arcs[j].dest < |vis| && vis[arcs[j].dest] && dist[arcs[j].dest] <= d
    ensures Scanned(arcs, vis, dist, d, j + 1)
  {
  }

  /** Index in the queue history of the vertex being expanded once `popped`
      vertices have left the queue (the source before the first pop). */
  function Front(popped: int): int
  {
    if popped <= 0 then 0 else popped - 1
  }

  /** A marked vertex `v` was pushed as `order[pos[v]]`. */
  ghost predicate Recorded(vis: seq<bool>, order: seq<int>, pos: seq<int>, v: int)
    requires 0 <= v < |vis| && |pos| == |vis|
  {
    vis[v] ==> 0 <= pos[v] < |order| && order[pos[v]] == v
  }

  /** The state of the search: `order` lists the marked vertices in the order
      they were pushed (the queue's whole history, the source first) and
      `pos` tells where each marked vertex stands in it; the first `popped`
      of them have left the queue and none of those is the sink, the first
      `expanded` of them have had all their arcs scanned, and the parent
      records form a tree rooted at the source. Distances never decrease
      along the history and none exceeds that of the vertex being expanded
      by more than one: the queue holds at most two layers. */
  ghost predicate SearchState(adj: Adjacency, src: int, snk: int, vis: seq<bool>, par: seq<int>, dist: seq<nat>,
                              order: seq<int>, pos: seq<int>, popped: int, expanded: int)
  {
    ParentTree(adj, src, vis, par, dist) && |pos| == |adj| &&
    |order| >= 1 && order[0] == src && 0 <= expanded <= popped <= |order| &&
    (forall i :: 0 <= i < |order| ==> 0 <= order[i] < |adj| && vis[order[i]]) &&
    (forall v :: 0 <= v < |adj| ==> Recorded(vis, order, pos, v)) &&
    |order| == CountTrue(vis) &&
    (forall i, j :: 0 <= i <= j < |order| ==> dist[order[i]] <= dist[order[j]]) &&
    (forall i :: 0 <= i < |order| ==> dist[order[i]] <= dist[order[Front(popped)]] + 1) &&
    (forall i :: 0 <= i < popped ==> order[i] != snk) &&
    (forall i :: 0 <= i < expanded ==> Expanded(adj, vis, dist, order[i]))
  }

  /** Marking `v` from `u` and pushing it keeps the search state, and there was room in the queue. */
  lemma MarkStep(adj: Adjacency, src: int, snk: int, vis: seq<bool>, par: seq<int>, dist: seq<nat>,
                 order: seq<int>, pos: seq<int>, popped: int, expanded: int, u: int, v: int)
    requires SearchState(adj, src, snk, vis, par, dist, order, pos, popped, expanded)
    requires popped >= 1 && u == order[popped - 1]
    requires 0 <= u < |adj| && vis[u] && 0 <= v < |adj| && !vis[v] && PosArc(adj[u], v)
    ensures |order| < |adj|
    ensures SearchState(adj, src, snk, vis[v := true], par[v := u], dist[v := dist[u] + 1],
                        order + [v], pos[v := |order|], popped, expanded)
  {
    CountTrueMark(vis, v);
    var vis', par', dist', order', pos' := vis[v := true], par[v := u], dist[v := dist[u] + 1], order + [v], pos[v := |order|];
    assert v != src;
    forall i | 0 <= i < |order|
      ensures order'[i] == order[i] && dist'[order[i]] == dist[order[i]]
    {
      assert vis[order[i]];
    }
    forall w | 0 <= w < |adj|
      ensures ParentOk(adj, src, vis', par', dist', w)
    {
      if w != v {
        assert ParentOk(adj, src, vis, par, dist, w);
      }
    }
    forall i | 0 <= i < expanded
      ensures Expanded(adj, vis', dist', order'[i])
    {
      var w := order[i];
      ScannedMark(adj[w].arcs, vis, dist, dist[w] + 1, |adj[w].arcs|, v, dist[u] + 1);
    }
    forall w | 0 <= w < |adj|
      ensures Recorded(vis', order', pos', w)
    {
      if w != v {
        assert Recorded(vis, order, pos, w);
      }
    }
  }

  lemma {:induction false} MarkedAlong(adj: Adjacency, vis: seq<bool>, s: int, t: int, p: seq<int>, i: int)
    requires WellFormed(adj) && Closed(adj, vis) && IsWalk(adj, s, t, p) && vis[s]
    requires 0 <= i < |p|
    ensures vis[p[i]]
  {
    if i > 0 {
      MarkedAlong(adj, vis, s, t, p, i - 1);
      assert PosArc(adj[p[i - 1]], p[i]);
      var j :| 0 <= j < |adj[p[i - 1]].arcs| && adj[p[i - 1]].arcs[j].dest == p[i] && adj[p[i - 1]].arcs[j].capa > 0;
    }
  }

  /** A closed marking that holds the source but not the sink leaves no walk
      from the source to the sink. */
  lemma NoWalkOutOfClosed(adj: Adjacency, vis: seq<bool>, s: int, t: int)
    requires WellFormed(adj) && Closed(adj, vis) && 0 <= s < |adj| && vis[s]
    requires 0 <= t < |adj| && !vis[t]
    ensures forall p :: !IsWalk(adj, s, t, p)
  {
    forall p | IsWalk(adj, s, t, p)
      ensures false
    {
      MarkedAlong(adj, vis, s, t, p, |p| - 1);
    }
  }

  /** When the sink is about to leave the queue as its entry `h`, every vertex
      `i` steps along a walk from the source, for `i` up to the distance of
      the sink, is marked at distance at most `i`: the vertices before the
      sink in the queue are all closer and have all been expanded. */
  lemma {:induction false} WalkWithinLayers(adj: Adjacency, src: int, snk: int, vis: seq<bool>, par: seq<int>, dist: seq<nat>,
                                            order: seq<int>, pos: seq<int>, h: int, p: seq<int>, i: int)
    requires SearchState(adj, src, snk, vis, par, dist, order, pos, h, h)
    requires 0 <= h < |order| && order[h] == snk
    requires IsWalk(adj, src, snk, p) && 0 <= i < |p| && i <= dist[snk]
    ensures vis[p[i]] && dist[p[i]] <= i
  {
    if i > 0 {
      WalkWithinLayers(adj, src, snk, vis, par, dist, order, pos, h, p, i - 1);
      var w := p[i - 1];
      assert Recorded(vis, order, pos, w);
      assert Expanded(adj, vis, dist, order[pos[w]]);
      assert PosArc(adj[w], p[i]);
      var j :| 0 <= j < |adj[w].arcs| && adj[w].arcs[j].dest == p[i] && adj[w].arcs[j].capa > 0;
    }
  }

  /** No walk from the source reaches the sink in fewer steps than its
      distance in the parent tree, once the sink leaves the queue. */
  lemma SinkAtShortest(adj: Adjacency, src: int, snk: int, vis: seq<bool>, par: seq<int>, dist: seq<nat>,
                       order: seq<int>, pos: seq<int>, h: int)
    requires SearchState(adj, src, snk, vis, par, dist, order, pos, h, h)
    requires 0 <= h < |order| && order[h] == snk
    ensures forall p :: IsWalk(adj, src, snk, p) ==> dist[snk] + 1 <= |p|
  {
    forall p | IsWalk(adj, src, snk, p)
      ensures dist[snk] + 1 <= |p|
    {
      if |p| - 1 < dist[snk] {
        WalkWithinLayers(adj, src, snk, vis, par, dist, order, pos, h, p, |p| - 1);
      }
    }
  }

  /** The exploration loop of shortestPath: FIFO order from the source, the
      sink ends it as soon as it is dequeued. `found` tells whether it was.
      The outcome is the one `Bfs` computes from the set-up, where `initPar`
      is the parent array as allocated: -1 at the source and whatever the
      allocation left elsewhere. */
  method Explore(succ: array<SuccList>, src: int, snk: int, ghost adj: Adjacency)
    returns (found: bool, vis: array<bool>, par: array<int>, ghost dist: seq<nat>, ghost initPar: seq<int>)
    requires succ[..] == adj && WellFormed(adj) && 0 <= src < |adj| && 0 <= snk < |adj|
    ensures fresh(vis) && fresh(par) && vis.Length == |adj| && par.Length == |adj|
    ensures |initPar| == |adj| && initPar[src] == -1
    ensures Bfs(adj, snk, SourceOnly(|adj|, src), initPar, [src], 0) == Explored(found, vis[..], par[..])
    ensures ParentTree(adj, src, vis[..], par[..], dist)
    ensures found ==> vis[snk] && forall p :: IsWalk(adj, src, snk, p) ==> dist[snk] + 1 <= |p|
    ensures !found ==> Closed(adj, vis[..]) && !vis[snk]
  {
    var n := succ.Length;
    var q;
    ghost var order, pos;
    vis, par, q, dist, order, pos := StartSearch(n, src, snk, adj);
    initPar := par[..];
    ghost var goal := Bfs(adj, snk, vis[..], par[..], order, 0);
    found := false;
    var empty := q.Empty();
    while !empty
      invariant fresh(q) && fresh(q.data)
      invariant q.Valid() && q.capacity == n && q.data != par
      invariant empty <==> q.head == q.tail
      invariant q.data[..q.tail] == order
      invariant SearchState(adj, src, snk, vis[..], par[..], dist, order, pos, q.head, q.head)
      invariant Bfs(adj, snk, vis[..], par[..], order, q.head) == goal
      invariant !found
      decreases n - q.head
    {
      ghost var marked, parent := vis[..], par[..];
      var u := q.Pop();
      assert vis[..] == marked && par[..] == parent;
      assert u == order[q.head - 1] && 0 <= u < n;
      CountTrueAtMost(marked);
      BfsPop(adj, snk, marked, parent, order, q.head - 1);
      if u == snk {
        SinkAtShortest(adj, src, snk, vis[..], par[..], dist, order, pos, q.head - 1);
        found := true;
        break;
      }
      dist, order, pos := ScanArcs(adj, src, snk, succ[u].arcs, u, vis, par, q, dist, order, pos);
      empty := q.Empty();
    }
    if !found {
      Exhausted(adj, src, snk, vis[..], par[..], dist, order, pos);
    }
  }

  /** The set-up of shortestPath: nothing marked but the source, which is
      the root of the parent tree and the only vertex in the queue. */
  method StartSearch(n: int, src: int, snk: int, ghost adj: Adjacency)
    returns (vis: array<bool>, par: array<int>, q: Queue, ghost dist: seq<nat>, ghost order: seq<int>, ghost pos: seq<int>)
    requires |adj| == n && 0 <= src < n
    ensures fresh(vis) && fresh(par) && fresh(q) && fresh(q.data)
    ensures vis.Length == n && par.Length == n
    ensures q.Valid() && q.capacity == n && q.data != par && q.head == 0 && q.data[..q.tail] == order
    ensures order == [src] && vis[..] == SourceOnly(n, src) && par[src] == -1
    ensures SearchState(adj, src, snk, vis[..], par[..], dist, order, pos, 0, 0)
  {
    vis := new bool[n](_ => false);
    par := new int[n];
    q := new Queue(n);
    q.Push(src);
    order := [src];
    pos := seq(n, _ => 0);
    vis[src] := true;
    par[src] := -1;
    dist := seq(n, _ => 0);
    InitState(adj, src, snk, vis[..], par[..], dist, order, pos);
  }

  /** The state right after the source is pushed and marked. */
  lemma InitState(adj: Adjacency, src: int, snk: int, vis: seq<bool>, par: seq<int>, dist: seq<nat>,
                  order: seq<int>, pos: seq<int>)
    requires 0 <= src < |adj| && |vis| == |adj| && vis[src] && forall v :: 0 <= v < |vis| && v != src ==> !vis[v]
    requires |par| == |adj| && par[src] == -1 && |dist| == |adj| && dist[src] == 0
    requires order == [src] && |pos| == |adj| && pos[src] == 0
    ensures SearchState(adj, src, snk, vis, par, dist, order, pos, 0, 0)
  {
    CountTrueOne(vis, src);
    forall v | 0 <= v < |adj|
      ensures ParentOk(adj, src, vis, par, dist, v) && Recorded(vis, order, pos, v)
    {
    }
  }

  /** Popping a vertex other than the sink keeps the search state. */
  lemma PopStep(adj: Adjacency, src: int, snk: int, vis: seq<bool>, par: seq<int>, dist: seq<nat>,
                order: seq<int>, pos: seq<int>, popped: int)
    requires 1 <= popped <= |order| && SearchState(adj, src, snk, vis, par, dist, order, pos, popped - 1, popped - 1)
    requires order[popped - 1] != snk
    ensures SearchState(adj, src, snk, vis, par, dist, order, pos, popped, popped - 1)
  {
  }

  /** When the queue runs empty every marked vertex has been expanded: the
      marking is closed, and the sink, never popped, is unmarked. */
  lemma Exhausted(adj: Adjacency, src: int, snk: int, vis: seq<bool>, par: seq<int>, dist: seq<nat>,
                  order: seq<int>, pos: seq<int>)
    requires SearchState(adj, src, snk, vis, par, dist, order, pos, |order|, |order|)
    requires 0 <= snk < |adj|
    ensures Closed(adj, vis) && !vis[snk]
  {
    forall u, j | 0 <= u < |adj| && vis[u] && 0 <= j < |adj[u].arcs| && adj[u].arcs[j].capa > 0
      ensures 0 <= adj[u].arcs[j].dest < |vis| && vis[adj[u].arcs[j].dest]
    {
      assert Recorded(vis, order, pos, u);
      assert Expanded(adj, vis, dist, order[pos[u]]);
    }
    assert Recorded(vis, order, pos, snk);
  }

  /** Every destination of `arcs` indexes a graph of `n` vertices. */
  predicate DestsIn(arcs: seq<Arc>, n: int)
  {
    forall i :: 0 <= i < |arcs| ==> 0 <= arcs[i].dest < n
  }

  /** The marks, the parent records and the vertices pushed, in order. */
  datatype Scan = Scan(marked: seq<bool>, parent: seq<int>, pushed: seq<int>)

  /** What the inner loop of shortestPath does when it scans `arcs`, the list
      of `u`, from the head: the destination of an arc of positive capacity
      that is not yet marked is marked, gets `u` as parent and is pushed. */
  function ScanList(arcs: seq<Arc>, u: int, vis: seq<bool>, par: seq<int>): (r: Scan)
    requires DestsIn(arcs, |vis|) && |par| == |vis|
    ensures |r.marked| == |vis| && |r.parent| == |vis|
    ensures forall i :: 0 <= i < |r.pushed| ==> 0 <= r.pushed[i] < |vis|
    decreases |arcs|
  {
    if arcs == [] then Scan(vis, par, [])
    else
      var v := arcs[0].dest;
      if !vis[v] && arcs[0].capa > 0 then
        var r := ScanList(arcs[1..], u, vis[v := true], par[v := u]);
        Scan(r.marked, r.parent, [v] + r.pushed)
      else
        ScanList(arcs[1..], u, vis, par)
  }

  /** What the exploration loop ends with: whether the sink left the queue,
      the marks and the parent records. */
  datatype Explored = Explored(found: bool, marked: seq<bool>, parent: seq<int>)

  /** The exploration loop of shortestPath from the state where `order` is
      the queue's whole history and its first `head` entries have left the
      queue: an empty queue ends the search without the sink; otherwise the
      next vertex is popped, the sink ends the search, and any other vertex
      has its list scanned from the head as `ScanList` says. Each vertex
      enters the queue at most once, so at most |adj| vertices are ever
      popped; the bound on `head` only makes that visible to the
      termination check. */
  function Bfs(adj: Adjacency, snk: int, vis: seq<bool>, par: seq<int>, order: seq<int>, head: nat): Explored
    requires WellFormed(adj) && |vis| == |adj| && |par| == |adj|
    requires forall i :: 0 <= i < |order| ==> 0 <= order[i] < |adj|
    decreases |adj| - head
  {
    if head >= |order| || head >= |adj| then Explored(false, vis, par)
    else if order[head] == snk then Explored(true, vis, par)
    else
      var u := order[head];
      assert DestsIn(adj[u].arcs, |vis|);
      var sc := ScanList(adj[u].arcs, u, vis, par);
      Bfs(adj, snk, sc.marked, sc.parent, order + sc.pushed, head + 1)
  }

  /** The marks right after the set-up: the source alone. */
  function SourceOnly(n: nat, src: int): (r: seq<bool>)
    ensures |r| == n && forall v :: 0 <= v < n ==> (r[v] <==> v == src)
  {
    seq(n, v => v == src)
  }

  /** One pop of the exploration loop, as `Bfs` takes it. */
  lemma BfsPop(adj: Adjacency, snk: int, vis: seq<bool>, par: seq<int>, order: seq<int>, head: nat)
    requires WellFormed(adj) && |vis| == |adj| && |par| == |adj|
    requires forall i :: 0 <= i < |order| ==> 0 <= order[i] < |adj|
    requires head < |order| <= |adj|
    ensures order[head] == snk ==> Bfs(adj, snk, vis, par, order, head) == Explored(true, vis, par)
    ensures order[head] != snk ==>
      var u := order[head];
      DestsIn(adj[u].arcs, |vis|) &&
      var sc := ScanList(adj[u].arcs, u, vis, par);
      Bfs(adj, snk, vis, par, order, head) == Bfs(adj, snk, sc.marked, sc.parent, order + sc.pushed, head + 1)
  {
    assert DestsIn(adj[order[head]].arcs, |vis|);
  }

  /** `p` is what the read-back of shortestPath produces from the parent
      records `par`: it ends at `snk`, each vertex after the first has the one
      before it as parent, and the first has parent -1. */
  ghost predicate ReadBack(par: seq<int>, snk: int, p: seq<int>)
  {
    |p| >= 1 && p[|p| - 1] == snk && (forall i :: 0 <= i < |p| ==> 0 <= p[i] < |par|) &&
    par[p[0]] == -1 && forall i :: 0 < i < |p| ==> par[p[i]] == p[i - 1]
  }

  /** The parent records fix the read-back: one path at most ends at `snk`. */
  lemma {:induction false} ReadBackUnique(par: seq<int>, snk: int, p: seq<int>, p': seq<int>)
    requires ReadBack(par, snk, p) && ReadBack(par, snk, p')
    ensures p == p'
    decreases |p|
  {
    if |p| > 1 {
      assert par[snk] == p[|p| - 2] >= 0;
    }
    if |p'| > 1 {
      assert par[snk] == p'[|p'| - 2] >= 0;
    }
    if |p| > 1 && |p'| > 1 {
      var q, q' := p[..|p| - 1], p'[..|p'| - 1];
      assert ReadBack(par, par[snk], q) && ReadBack(par, par[snk], q');
      ReadBackUnique(par, par[snk], q, q');
      assert p == q + [snk] && p' == q' + [snk];
    }
  }

  /** An arc of positive capacity to `x` is the head of the list or one of the rest. */
  lemma PosArcSplit(arcs: seq<Arc>, x: int)
    requires arcs != []
    ensures PosArc(SuccList(arcs, |arcs|), x) <==>
      (arcs[0].dest == x && arcs[0].capa > 0) || PosArc(SuccList(arcs[1..], |arcs| - 1), x)
  {
    var rest := SuccList(arcs[1..], |arcs| - 1);
    if PosArc(rest, x) {
      var j :| 0 <= j < |rest.arcs| && rest.arcs[j].dest == x && rest.arcs[j].capa > 0;
      assert arcs[j + 1] == rest.arcs[j];
    }
    if PosArc(SuccList(arcs, |arcs|), x) && !(arcs[0].dest == x && arcs[0].capa > 0) {
      var j :| 0 <= j < |arcs| && arcs[j].dest == x && arcs[j].capa > 0;
      assert rest.arcs[j - 1] == arcs[j];
    }
  }

  /** The scan pushes each unmarked destination of an arc of positive
      capacity, once, and nothing else. */
  lemma {:induction false} ScanListPushed(arcs: seq<Arc>, u: int, vis: seq<bool>, par: seq<int>)
    requires DestsIn(arcs, |vis|) && |par| == |vis|
    ensures var r := ScanList(arcs, u, vis, par);
      Distinct(r.pushed) &&
      forall x :: x in r.pushed <==> 0 <= x < |vis| && !vis[x] && PosArc(SuccList(arcs, |arcs|), x)
    decreases |arcs|
  {
    if arcs != [] {
      var v := arcs[0].dest;
      forall x {
        PosArcSplit(arcs, x);
      }
      if !vis[v] && arcs[0].capa > 0 {
        ScanListPushed(arcs[1..], u, vis[v := true], par[v := u]);
        var s := ScanList(arcs[1..], u, vis[v := true], par[v := u]).pushed;
        assert v !in s;
        assert forall i :: 0 < i < |[v] + s| ==> ([v] + s)[i] == s[i - 1];
      } else {
        ScanListPushed(arcs[1..], u, vis, par);
      }
    }
  }

  /** The scan marks exactly the vertices it pushes and gives exactly them
      `u` as parent. */
  lemma {:induction false} ScanListMarks(arcs: seq<Arc>, u: int, vis: seq<bool>, par: seq<int>)
    requires DestsIn(arcs, |vis|) && |par| == |vis|
    ensures var r := ScanList(arcs, u, vis, par);
      |r.marked| == |vis| && |r.parent| == |vis| &&
      (forall x :: 0 <= x < |vis| ==> (r.marked[x] <==> vis[x] || x in r.pushed)) &&
      (forall x :: 0 <= x < |vis| ==> r.parent[x] == if x in r.pushed then u else par[x])
    decreases |arcs|
  {
    if arcs != [] {
      var v := arcs[0].dest;
      if !vis[v] && arcs[0].capa > 0 {
        ScanListMarks(arcs[1..], u, vis[v := true], par[v := u]);
      } else {
        ScanListMarks(arcs[1..], u, vis, par);
      }
    }
  }

  /** The scan from arc `j` on finishes what the whole scan `goal`, begun
      when the queue history was `start`, does. */
  ghost predicate ScanRest(arcs: seq<Arc>, j: int, u: int, vis: seq<bool>, par: seq<int>, order: seq<int>, goal: Scan, start: seq<int>)
  {
    0 <= j <= |arcs| && DestsIn(arcs, |vis|) && |par| == |vis| &&
    var r := ScanList(arcs[j..], u, vis, par);
    r.marked == goal.marked && r.parent == goal.parent && order + r.pushed == start + goal.pushed
  }

  /** Scanning arc `j` moves the rest of the scan on by one arc. */
  lemma ScanRestNext(arcs: seq<Arc>, j: int, u: int, vis: seq<bool>, par: seq<int>, order: seq<int>, goal: Scan, start: seq<int>)
    requires ScanRest(arcs, j, u, vis, par, order, goal, start) && j < |arcs|
    ensures var v := arcs[j].dest;
      if !vis[v] && arcs[j].capa > 0
      then ScanRest(arcs, j + 1, u, vis[v := true], par[v := u], order + [v], goal, start)
      else ScanRest(arcs, j + 1, u, vis, par, order, goal, start)
  {
    assert arcs[j..][1..] == arcs[j + 1..];
    var v := arcs[j].dest;
    if !vis[v] && arcs[j].capa > 0 {
      var r := ScanList(arcs[j + 1..], u, vis[v := true], par[v := u]);
      assert order + [v] + r.pushed == order + ([v] + r.pushed);
    }
  }

  /** The state of the inner loop of shortestPath after `j` arcs of `u`, the
      entry `head - 1` of the queue history: the search state, the arcs
      scanned so far, and the rest of the scan still to do. */
  ghost predicate ScanInv(adj: Adjacency, src: int, snk: int, arcs: seq<Arc>, u: int, j: int,
                          vis: seq<bool>, par: seq<int>, dist: seq<nat>, order: seq<int>, pos: seq<int>,
                          head: int, goal: Scan, start: seq<int>)
  {
    WellFormed(adj) && 0 <= u < |adj| && arcs == adj[u].arcs && 0 <= j <= |arcs| &&
    1 <= head <= |order| && order[head - 1] == u &&
    SearchState(adj, src, snk, vis, par, dist, order, pos, head, head - 1) &&
    Scanned(arcs, vis, dist, dist[u] + 1, j) && ScanRest(arcs, j, u, vis, par, order, goal, start)
  }

  /** The inner loop of shortestPath: every unmarked successor of `u` over an
      arc of positive capacity is marked, given `u` as parent and pushed, in
      list order, as `ScanList` says. Afterwards `u` counts as expanded. */
  method ScanArcs(ghost adj: Adjacency, src: int, snk: int, arcs: seq<Arc>, u: int,
                  vis: array<bool>, par: array<int>, q: Queue,
                  ghost dist0: seq<nat>, ghost order0: seq<int>, ghost pos0: seq<int>)
    returns (ghost dist: seq<nat>, ghost order: seq<int>, ghost pos: seq<int>)
    requires WellFormed(adj) && 0 <= u < |adj| && arcs == adj[u].arcs
    requires q.Valid() && q.capacity == |adj| && q.data != par && q.head >= 1
    requires q.data[..q.tail] == order0 && order0[q.head - 1] == u && u != snk
    requires SearchState(adj, src, snk, vis[..], par[..], dist0, order0, pos0, q.head - 1, q.head - 1)
    modifies vis, par, q, q.data
    ensures q.Valid() && q.capacity == |adj| && q.data == old(q.data) && q.head == old(q.head)
    ensures q.data[..q.tail] == order
    ensures SearchState(adj, src, snk, vis[..], par[..], dist, order, pos, q.head, q.head)
    ensures DestsIn(arcs, vis.Length) && par.Length == vis.Length
    ensures vis[..] == ScanList(arcs, u, old(vis[..]), old(par[..])).marked
    ensures par[..] == ScanList(arcs, u, old(vis[..]), old(par[..])).parent
    ensures order == order0 + ScanList(arcs, u, old(vis[..]), old(par[..])).pushed
  {
    PopStep(adj, src, snk, vis[..], par[..], dist0, order0, pos0, q.head);
    dist, order, pos := dist0, order0, pos0;
    ghost var goal := ScanList(arcs, u, vis[..], par[..]);
    assert arcs[0..] == arcs;
    var j := 0;
    while j < |arcs|
      invariant q.Valid() && q.capacity == |adj| && q.data == old(q.data) && q.head == old(q.head)
      invariant q.data[..q.tail] == order
      invariant ScanInv(adj, src, snk, arcs, u, j, vis[..], par[..], dist, order, pos, q.head, goal, order0)
    {
      dist, order, pos := ScanOne(adj, src, snk, arcs, u, j, vis, par, q, dist, order, pos, goal, order0);
      j := j + 1;
    }
    assert arcs[j..] == [];
    ExpandOne(adj, src, snk, vis[..], par[..], dist, order, pos, q.head);
  }

  /** One turn of the inner loop of shortestPath: the arc `j` of `u`. */
  method ScanOne(ghost adj: Adjacency, src: int, snk: int, arcs: seq<Arc>, u: int, j: int,
                 vis: array<bool>, par: array<int>, q: Queue,
                 ghost dist0: seq<nat>, ghost order0: seq<int>, ghost pos0: seq<int>, ghost goal: Scan, ghost start: seq<int>)
    returns (ghost dist: seq<nat>, ghost order: seq<int>, ghost pos: seq<int>)
    requires j < |arcs| && q.Valid() && q.capacity == |adj| && q.data != par && q.data[..q.tail] == order0
    requires ScanInv(adj, src, snk, arcs, u, j, vis[..], par[..], dist0, order0, pos0, q.head, goal, start)
    modifies vis, par, q, q.data
    ensures q.Valid() && q.capacity == |adj| && q.data == old(q.data) && q.head == old(q.head)
    ensures q.data[..q.tail] == order
    ensures ScanInv(adj, src, snk, arcs, u, j + 1, vis[..], par[..], dist, order, pos, q.head, goal, start)
    ensures var v := arcs[j].dest;
      if !old(vis[v]) && arcs[j].capa > 0
      then vis[..] == old(vis[..])[v := true] && par[..] == old(par[..])[v := u] && order == order0 + [v]
      else vis[..] == old(vis[..]) && par[..] == old(par[..]) && order == order0
  {
    dist, order, pos := dist0, order0, pos0;
    var v := arcs[j].dest;
    ghost var vs, ps := vis[..], par[..];
    ScanRestNext(arcs, j, u, vs, ps, order0, goal, start);
    if !vis[v] && arcs[j].capa > 0 {
      assert PosArc(adj[u], v) by {
        assert adj[u].arcs[j].dest == v;
      }
      dist, order, pos := Visit(adj, src, snk, u, v, vis, par, q, dist, order, pos);
      ScannedMark(arcs, vs, dist0, dist0[u] + 1, j, v, dist0[u] + 1);
    }
    else if arcs[j].capa > 0 {
      assert Recorded(vs, order0, pos0, v);
      assert dist0[order0[pos0[v]]] <= dist0[order0[Front(q.head)]] + 1;
    }
    ScannedNext(arcs, vis[..], dist, dist0[u] + 1, j);
  }

  /** The body of the inner loop of shortestPath for an unmarked successor
      `v` of `u`: `v` is marked, gets `u` as parent and is pushed. */
  method Visit(ghost adj: Adjacency, src: int, snk: int, u: int, v: int,
               vis: array<bool>, par: array<int>, q: Queue,
               ghost dist0: seq<nat>, ghost order0: seq<int>, ghost pos0: seq<int>)
    returns (ghost dist: seq<nat>, ghost order: seq<int>, ghost pos: seq<int>)
    requires q.Valid() && q.capacity == |adj| && q.data != par
    requires q.data[..q.tail] == order0
    requires SearchState(adj, src, snk, vis[..], par[..], dist0, order0, pos0, q.head, q.head - 1)
    requires 0 <= u < |adj| && 0 <= v < |adj| && !vis[v] && PosArc(adj[u], v) && vis[u]
    requires q.head >= 1 && order0[q.head - 1] == u
    modifies vis, par, q, q.data
    ensures vis[..] == old(vis[..])[v := true] && par[..] == old(par[..])[v := u]
    ensures q.Valid() && q.capacity == |adj| && q.data == old(q.data) && q.head == old(q.head)
    ensures q.data[..q.tail] == order && order == order0 + [v] && dist == dist0[v := dist0[u] + 1]
    ensures SearchState(adj, src, snk, vis[..], par[..], dist, order, pos, q.head, q.head - 1)
  {
    ghost var vs, ps := vis[..], par[..];
    MarkStep(adj, src, snk, vs, ps, dist0, order0, pos0, q.head, q.head - 1, u, v);
    vis[v] := true;
    par[v] := u;
    dist := dist0[v := dist0[u] + 1];
    q.Push(v);
    pos := pos0[v := |order0|];
    order := order0 + [v];
    assert vis[..] == vs[v := true];
    assert par[..] == ps[v := u];
  }

  /** Once all arcs of the last popped vertex are scanned, it counts as expanded. */
  lemma ExpandOne(adj: Adjacency, src: int, snk: int, vis: seq<bool>, par: seq<int>, dist: seq<nat>,
                  order: seq<int>, pos: seq<int>, popped: int)
    requires popped >= 1 && SearchState(adj, src, snk, vis, par, dist, order, pos, popped, popped - 1)
    requires Expanded(adj, vis, dist, order[popped - 1])
    ensures SearchState(adj, src, snk, vis, par, dist, order, pos, popped, popped)
  {
  }

  /** A marking with no marked entry counts 0. */
  lemma {:induction false} CountTrueNone(s: seq<bool>)
    requires forall i :: 0 <= i < |s| ==> !s[i]
    ensures CountTrue(s) == 0
  {
    if s != [] {
      CountTrueNone(s[..|s| - 1]);
    }
  }

  /** A marking with exactly one marked entry counts 1. */
  lemma {:induction false} CountTrueOne(s: seq<bool>, v: int)
    requires 0 <= v < |s| && s[v] && forall i :: 0 <= i < |s| && i != v ==> !s[i]
    ensures CountTrue(s) == 1
  {
    if v == |s| - 1 {
      CountTrueNone(s[..|s| - 1]);
    } else {
      CountTrueOne(s[..|s| - 1], v);
    }
  }

  /** shortestPath: a path from the source to the sink over arcs of positive
      capacity that repeats no vertex, with its count, or None exactly when
      no such walk exists at all. The residual graph is only read. Which
      shortest path it is, is fixed too: the one read back from the parent
      records that `Bfs` leaves, from an allocated parent array `initPar`. */
  method ShortestPath(rg: Graph) returns (r: Option<Path>, ghost initPar: seq<int>)
    requires rg.Valid()
    ensures |initPar| == rg.succ.Length && initPar[rg.source] == -1
    ensures var b := Bfs(rg.succ[..], rg.sink, SourceOnly(rg.succ.Length, rg.source), initPar, [rg.source], 0);
      (r.Some? <==> b.found) && (r.Some? ==> ReadBack(b.parent, rg.sink, r.value.vertices))
    ensures r.Some? ==> PathIn(r.value, rg.vertexCount)
    ensures r.Some? ==> IsAugmentingPath(rg.succ[..], rg.source, rg.sink, r.value.vertices)
    ensures r.None? <==> forall p :: !IsWalk(rg.succ[..], rg.source, rg.sink, p)
    ensures r.Some? ==> forall p :: IsWalk(rg.succ[..], rg.source, rg.sink, p) ==> |r.value.vertices| <= |p|
  {
    ghost var adj := rg.succ[..];
    var src, snk := rg.source, rg.sink;
    var found, vis, par;
    ghost var dist;
    found, vis, par, dist, initPar := Explore(rg.succ, src, snk, adj);
    if !found {
      NoWalkOutOfClosed(adj, vis[..], src, snk);
      return None, initPar;
    }
    var path := TracePath(par, src, snk, adj, vis[..], dist);
    r := Some(path);
  }

  /** The read-back of shortestPath: count the vertices from the sink up the
      parent records to the source, then fill the path from its end. */
  method TracePath(par: array<int>, src: int, snk: int, ghost adj: Adjacency, ghost marked: seq<bool>, ghost dist: seq<nat>)
    returns (path: Path)
    requires ParentTree(adj, src, marked, par[..], dist) && 0 <= snk < |adj| && marked[snk]
    ensures PathIn(path, |adj|) && IsAugmentingPath(adj, src, snk, path.vertices)
    ensures |path.vertices| == dist[snk] + 1
    ensures ReadBack(par[..], snk, path.vertices)
  {
    var len := PathLength(par, src, snk, adj, marked, dist);
    var p := FillPath(par, src, snk, len, adj, marked, dist);
    DistinctByDistance(p, dist);
    path := Path(p, len);
  }

  /** The first loop of the read-back: one count per vertex from the sink up
      to the source, whose parent is -1. */
  method PathLength(par: array<int>, src: int, snk: int, ghost adj: Adjacency, ghost marked: seq<bool>, ghost dist: seq<nat>)
    returns (len: int)
    requires ParentTree(adj, src, marked, par[..], dist) && 0 <= snk < |adj| && marked[snk]
    ensures len == dist[snk] + 1
  {
    len := 0;
    var v := snk;
    while v != -1
      invariant v == -1 || (0 <= v < |adj| && marked[v])
      invariant v != -1 ==> len + dist[v] == dist[snk]
      invariant v == -1 ==> len == dist[snk] + 1
      decreases if v == -1 then 0 else dist[v] + 1
    {
      assert ParentOk(adj, src, marked, par[..], dist, v);
      len := len + 1;
      v := par[v];
    }
  }

  /** The second loop of the read-back: the path written from its last slot
      back to its first, following the parent records from the sink. Slot k
      holds the marked vertex at distance k. */
  method FillPath(par: array<int>, src: int, snk: int, len: int, ghost adj: Adjacency, ghost marked: seq<bool>, ghost dist: seq<nat>)
    returns (p: seq<int>)
    requires ParentTree(adj, src, marked, par[..], dist) && 0 <= snk < |adj| && marked[snk]
    requires len == dist[snk] + 1
    ensures |p| == len && IsWalk(adj, src, snk, p)
    ensures forall k :: 0 <= k < |p| ==> 0 <= p[k] < |dist| && dist[p[k]] == k
    ensures forall k :: 0 < k < |p| ==> par[p[k]] == p[k - 1]
  {
    ghost var parent := par[..];
    var n := par.Length;
    var vertices := new int[len];
    var idx := len - 1;
    var v := snk;
    while v != -1
      invariant par[..] == parent
      invariant Filled(adj, marked, parent, dist, snk, vertices[..], idx)
      invariant v == -1 ==> idx == -1 && vertices[0] == src
      invariant v != -1 ==> 0 <= v < n && marked[v] && idx == dist[v]
      invariant idx == len - 1 ==> v == snk
      invariant v != -1 && idx < len - 1 ==> parent[vertices[idx + 1]] == v
      decreases idx + 1
    {
      FillStep(adj, src, marked, parent, dist, snk, vertices[..], idx, v);
      vertices[idx] := v;
      v := par[v];
      idx := idx - 1;
    }
    p := vertices[..];
  }

  /** The slots after `idx` of a path being filled from its end: slot k
      holds a marked vertex at distance k, the last slot holds the sink, and
      each filled slot before the last is the parent of the next one and
      joined to it by an arc of positive capacity. */
  ghost predicate Filled(adj: Adjacency, marked: seq<bool>, parent: seq<int>, dist: seq<nat>, snk: int, vs: seq<int>, idx: int)
    requires |marked| == |adj| && |parent| == |adj| && |dist| == |adj|
  {
    -1 <= idx < |vs| &&
    (forall k :: idx < k < |vs| ==> 0 <= vs[k] < |adj| && marked[vs[k]] && dist[vs[k]] == k) &&
    (idx < |vs| - 1 ==> vs[|vs| - 1] == snk) &&
    (forall k :: idx < k < |vs| - 1 ==> PosArc(adj[vs[k]], vs[k + 1]) && parent[vs[k + 1]] == vs[k])
  }

  /** Writing the vertex `v` at distance `idx` into slot `idx` extends the
      filled part by one, and its parent is the next vertex to write, or -1
      once the source is written. */
  lemma FillStep(adj: Adjacency, src: int, marked: seq<bool>, parent: seq<int>, dist: seq<nat>, snk: int,
                 vs: seq<int>, idx: int, v: int)
    requires ParentTree(adj, src, marked, parent, dist)
    requires Filled(adj, marked, parent, dist, snk, vs, idx) && 0 <= idx
    requires 0 <= v < |adj| && marked[v] && idx == dist[v]
    requires idx == |vs| - 1 ==> v == snk
    requires idx < |vs| - 1 ==> parent[vs[idx + 1]] == v
    ensures Filled(adj, marked, parent, dist, snk, vs[idx := v], idx - 1)
    ensures parent[v] == -1 ==> idx == 0 && v == src
    ensures parent[v] != -1 ==> 0 <= parent[v] < |adj| && marked[parent[v]] && dist[parent[v]] == idx - 1
  {
    assert ParentOk(adj, src, marked, parent, dist, v);
    if idx < |vs| - 1 {
      assert ParentOk(adj, src, marked, parent, dist, vs[idx + 1]);
    }
  }

  /** Slot k holding a vertex at distance k, no vertex appears twice. */
  lemma DistinctByDistance(p: seq<int>, dist: seq<nat>)
    requires forall k :: 0 <= k < |p| ==> 0 <= p[k] < |dist| && dist[p[k]] == k
    ensures Distinct(p)
  {
    forall i, j | 0 <= i < j < |p|
      ensures p[i] != p[j]
    {
      assert dist[p[i]] == i && dist[p[j]] == j;
    }
  }
}
