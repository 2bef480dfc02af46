/** Data model of the max-flow program: arcs, successor lists, paths and graphs
    (Maillon, ListeSucc, Chemin and Graphe), with the first-match arc lookup
    that every operation uses to find an arc by its destination. */
module Network {

  /** Largest value of a C `int`; the bottleneck scan starts from it. */
  const INT_MAX: int := 2147483647

  datatype Option<T> = None | Some(value: T)

  /** One cell of a successor list: destination vertex, capacity, flow.
      In the residual graph `capa` is the remaining capacity and `flow` is unused. */
  datatype Arc = Arc(dest: int, capa: int, flow: int)

  /** Successor list of one vertex. `arcs[0]` is the head of the linked list;
      `size` is the counter the program keeps beside the list. */
  datatype SuccList = SuccList(arcs: seq<Arc>, size: int)

  /** A path: its vertices, first to last, and the count the program stores with them. */
  datatype Path = Path(vertices: seq<int>, size: int)

  /** The successor lists of a graph, indexed by vertex; index 0 is never a real vertex. */
  type Adjacency = seq<SuccList>

  /** Every counter matches its list, every destination is a real vertex 1..n-1,
      and the unused vertex 0 has no arcs. */
  predicate WellFormed(adj: Adjacency)
  {
    |adj| >= 1 && adj[0].arcs == [] &&
    (forall x :: 0 <= x < |adj| ==> adj[x].size == |adj[x].arcs|) &&
    (forall x, j :: 0 <= x < |adj| && 0 <= j < |adj[x].arcs| ==> 1 <= adj[x].arcs[j].dest < |adj|)
  }

  /** Every arc has a flow between 0 and its capacity. */
  predicate FlowsWithinCapacity(adj: Adjacency)
  {
    forall x, j :: 0 <= x < |adj| && 0 <= j < |adj[x].arcs| ==>
      0 <= adj[x].arcs[j].flow <= adj[x].arcs[j].capa
  }

  /** Every arc has flow 0, as the input reader leaves the network. */
  predicate FlowsZero(adj: Adjacency)
  {
    forall x, j :: 0 <= x < |adj| && 0 <= j < |adj[x].arcs| ==> adj[x].arcs[j].flow == 0
  }

  /** No residual capacity is negative. */
  predicate NonNegative(adj: Adjacency)
  {
    forall x, j :: 0 <= x < |adj| && 0 <= j < |adj[x].arcs| ==> adj[x].arcs[j].capa >= 0
  }

  /** No two arcs of one list share a destination. */
  predicate DistinctDests(arcs: seq<Arc>)
  {
    forall i, j :: 0 <= i < j < |arcs| ==> arcs[i].dest != arcs[j].dest
  }

  /** Each ordered pair of vertices has at most one arc. */
  predicate UniqueDests(adj: Adjacency)
  {
    forall x :: 0 <= x < |adj| ==> DistinctDests(adj[x].arcs)
  }

  /** Position of the first arc (from the head) whose destination is `v`,
      which is the arc a scan that stops at the first match lands on. */
  function FindArc(arcs: seq<Arc>, v: int): (r: Option<nat>)
    ensures r.Some? ==> r.value < |arcs| && arcs[r.value].dest == v
    ensures r.Some? ==> forall i :: 0 <= i < r.value ==> arcs[i].dest != v
    ensures r.None? <==> forall i :: 0 <= i < |arcs| ==> arcs[i].dest != v
  {
    if arcs == [] then None
    else if arcs[0].dest == v then Some(0)
    else match FindArc(arcs[1..], v)
      case None => None
      case Some(i) => Some(i + 1)
  }

  /** Walks the list from its head and stops at the first arc that leads to
      `v`, as every scan of the program does; `|arcs|` when there is none. */
  method FirstArc(arcs: seq<Arc>, v: int) returns (j: int)
    ensures 0 <= j <= |arcs|
    ensures j < |arcs| <==> FindArc(arcs, v).Some?
    ensures j < |arcs| ==> FindArc(arcs, v) == Some(j)
  {
    j := 0;
    while j < |arcs|
      invariant 0 <= j <= |arcs|
      invariant forall i :: 0 <= i < j ==> arcs[i].dest != v
    {
      if arcs[j].dest == v {
        return;
      }
      j := j + 1;
    }
  }

  predicate HasArc(l: SuccList, v: int)
  {
    FindArc(l.arcs, v).Some?
  }

  /** Capacity of the first arc of `l` that leads to `v`. */
  function Cap(l: SuccList, v: int): int
    requires HasArc(l, v)
  {
    l.arcs[FindArc(l.arcs, v).value].capa
  }

  /** With distinct destinations, the first match for an arc's destination is that arc. */
  lemma FindDistinct(arcs: seq<Arc>, j: int)
    requires DistinctDests(arcs) && 0 <= j < |arcs|
    ensures FindArc(arcs, arcs[j].dest) == Some(j)
  {
  }

  /** With distinct destinations, the capacity found for a member's destination is the member's. */
  lemma CapOfMember(l: SuccList, a: Arc)
    requires DistinctDests(l.arcs) && a in l.arcs
    ensures HasArc(l, a.dest) && Cap(l, a.dest) == a.capa
  {
    var j :| 0 <= j < |l.arcs| && l.arcs[j] == a;
    FindDistinct(l.arcs, j);
  }

  /** An arc of `l` leads to `v` with positive capacity. */
  predicate PosArc(l: SuccList, v: int)
  {
    exists j :: 0 <= j < |l.arcs| && l.arcs[j].dest == v && l.arcs[j].capa > 0
  }

  /** `p` goes from `s` to `t`, each step over an arc with positive capacity. */
  predicate IsWalk(adj: Adjacency, s: int, t: int, p: seq<int>)
  {
    |p| >= 1 && p[0] == s && p[|p| - 1] == t &&
    (forall i :: 0 <= i < |p| ==> 0 <= p[i] < |adj|) &&
    (forall i :: 0 <= i < |p| - 1 ==> PosArc(adj[p[i]], p[i + 1]))
  }

  predicate Distinct(p: seq<int>)
  {
    forall i, j :: 0 <= i < j < |p| ==> p[i] != p[j]
  }

  /** An augmenting path: a walk that repeats no vertex. */
  predicate IsAugmentingPath(adj: Adjacency, s: int, t: int, p: seq<int>)
  {
    IsWalk(adj, s, t, p) && Distinct(p)
  }

  /** Every vertex of `p` indexes a graph of `n` vertices. */
  predicate Within(p: seq<int>, n: int)
  {
    forall i :: 0 <= i < |p| ==> 0 <= p[i] < n
  }

  /** The path's count matches its vertices, and every vertex indexes a graph of `n` vertices. */
  predicate PathIn(p: Path, n: int)
  {
    p.size == |p.vertices| && Within(p.vertices, n)
  }

  /** A directed graph: the network or its residual graph. */
  class Graph {
    var vertexCount: int
    var succ: array<SuccList>
    var source: int
    var sink: int

    ghost predicate Valid()
      reads this, succ
    {
      vertexCount == succ.Length &&
      1 <= source < vertexCount && 1 <= sink < vertexCount &&
      WellFormed(succ[..])
    }

    /** The empty network on vertices 1..n, as the reader allocates it once it
        has read a positive vertex count and a source and sink in 1..n. */
    constructor (n: int, src: int, snk: int)
      requires n >= 1 && 1 <= src <= n && 1 <= snk <= n
      ensures Valid() && fresh(succ)
      ensures vertexCount == n + 1 && source == src && sink == snk
      ensures forall x :: 0 <= x < succ.Length ==> succ[x] == SuccList([], 0)
      ensures FlowsZero(succ[..])
    {
      vertexCount := n + 1;
      succ := new SuccList[n + 1](_ => SuccList([], 0));
      source := src;
      sink := snk;
    }

    /** Links `a` in as the new head of the list of `x` and increments its counter. */
    method InsertHead(x: int, a: Arc)
      requires 0 <= x < succ.Length
      modifies succ
      ensures succ[..] == old(succ[..])[x := SuccList([a] + old(succ[x].arcs), old(succ[x].size) + 1)]
    {
      succ[x] := SuccList([a] + succ[x].arcs, succ[x].size + 1);
    }

    /** Head insertion of a new arc u -> v with capacity c and flow 0, as the
        reader does for each arc line of the input. */
    method AddArc(u: int, v: int, c: int)
      requires Valid() && 1 <= u < vertexCount && 1 <= v < vertexCount
      modifies succ
      ensures Valid()
      ensures succ[..] == old(succ[..])[u := SuccList([Arc(v, c, 0)] + old(succ[u].arcs), old(succ[u].size) + 1)]
      ensures succ[u].size == old(succ[u].size) + 1
      ensures old(FlowsZero(succ[..])) ==> FlowsZero(succ[..])
    {
      InsertHead(u, Arc(v, c, 0));
    }
  }
}
