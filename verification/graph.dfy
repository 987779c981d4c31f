/**
 * The directed, integer-weighted graph of TSP.java and what a round trip in
 * it is.
 *
 * The graph is read as a list of lines "u,v,d" (TSP.java:65-76): the matrix
 * starts with -1 (no edge) everywhere, every line overwrites adj[u][v] with d,
 * and d is appended to the list of edge lengths.  Here that reading is a fold
 * over the list of lines; everything else is stated on the resulting matrix.
 */
module Graph {
  import opened Order

  /** One input line: an edge from `from` to `to` of length `len`. */
  datatype Edge = Edge(from: int, to: int, len: int)

  /** The entry of the matrix that marks a missing edge. */
  const NoEdge := -1

  /** Every line names two vertices below n and a non-negative length. */
  predicate WellFormedInput(n: nat, edges: seq<Edge>) {
    forall i :: 0 <= i < |edges| ==>
      0 <= edges[i].from < n && 0 <= edges[i].to < n && edges[i].len >= 0
  }

  /** The list of edge lengths in reading order (edge_l before sorting). */
  function Lengths(edges: seq<Edge>): (r: seq<int>)
    ensures |r| == |edges|
    ensures forall i :: 0 <= i < |edges| ==> r[i] == edges[i].len
  {
    seq(|edges|, i requires 0 <= i < |edges| => edges[i].len)
  }

  /** An n-by-n matrix has as many entries in every row as it has rows. */
  predicate Square(adj: seq<seq<int>>) {
    forall u :: 0 <= u < |adj| ==> |adj[u]| == |adj|
  }

  /** Every entry is either NoEdge or a non-negative length. */
  predicate MissingOrNonNegative(adj: seq<seq<int>>)
    requires Square(adj)
  {
    forall u, v :: 0 <= u < |adj| && 0 <= v < |adj| ==> adj[u][v] >= NoEdge
  }

  /** The adjacency matrix after reading all of `edges`. */
  function AdjOf(n: nat, edges: seq<Edge>): (adj: seq<seq<int>>)
    requires WellFormedInput(n, edges)
    ensures |adj| == n && Square(adj)
    ensures MissingOrNonNegative(adj)
  {
    if edges == [] then seq(n, _ => seq(n, _ => NoEdge))
    else
      var prev := AdjOf(n, edges[..|edges| - 1]);
      var e := edges[|edges| - 1];
      prev[e.from := prev[e.from][e.to := e.len]]
  }

  /** The position of the last line for the edge (u, v), or -1 when there is none. */
  function LastIndex(edges: seq<Edge>, u: int, v: int): (i: int)
    ensures -1 <= i < |edges|
    ensures i >= 0 ==> edges[i].from == u && edges[i].to == v
  {
    if edges == [] then -1
    else if edges[|edges| - 1].from == u && edges[|edges| - 1].to == v then |edges| - 1
    else LastIndex(edges[..|edges| - 1], u, v)
  }

  /** The last line for an edge decides its entry; an edge without a line stays missing. */
  lemma {:induction false} AdjEntry(n: nat, edges: seq<Edge>, u: int, v: int)
    requires WellFormedInput(n, edges)
    requires 0 <= u < n && 0 <= v < n
    ensures LastIndex(edges, u, v) < 0 ==> AdjOf(n, edges)[u][v] == NoEdge
    ensures LastIndex(edges, u, v) >= 0 ==> AdjOf(n, edges)[u][v] == edges[LastIndex(edges, u, v)].len
  {
    if edges != [] {
      AdjEntry(n, edges[..|edges| - 1], u, v);
    }
  }

  /** All vertices of w are vertices of the graph. */
  predicate InRange(adj: seq<seq<int>>, w: seq<int>) {
    forall i :: 0 <= i < |w| ==> 0 <= w[i] < |adj|
  }

  /**
   * A path as the search builds it: it starts at vertex 0, visits no vertex
   * twice, and every step follows an edge of the graph.
   */
  predicate IsWalk(adj: seq<seq<int>>, w: seq<int>) {
    Square(adj) && |w| >= 1 && w[0] == 0 && InRange(adj, w) && Distinct(w)
    && forall i :: 0 <= i < |w| - 1 ==> adj[w[i]][w[i + 1]] != NoEdge
  }

  /** A round trip: a path through all vertices with an edge back to vertex 0. */
  predicate IsTour(adj: seq<seq<int>>, t: seq<int>) {
    IsWalk(adj, t) && |t| == |adj| && adj[t[|t| - 1]][0] != NoEdge
  }

  /** The summed length of the consecutive edges of w. */
  function PathCost(adj: seq<seq<int>>, w: seq<int>): int
    requires Square(adj) && InRange(adj, w)
  {
    if |w| <= 1 then 0
    else PathCost(adj, w[..|w| - 1]) + adj[w[|w| - 2]][w[|w| - 1]]
  }

  /** The length of the round trip along t and back to vertex 0. */
  function TourCost(adj: seq<seq<int>>, t: seq<int>): int
    requires IsWalk(adj, t)
  {
    PathCost(adj, t) + adj[t[|t| - 1]][0]
  }

  /** w is a prefix of t. */
  predicate Prefix(w: seq<int>, t: seq<int>) {
    |w| <= |t| && t[..|w|] == w
  }

  /** The vertex after position j on the round trip t. */
  function Succ(t: seq<int>, j: int): int
    requires 0 <= j < |t|
  {
    if j + 1 < |t| then t[j + 1] else t[0]
  }

  /** The lengths of the |t| edges of the round trip t, closing edge last. */
  function TourLengths(adj: seq<seq<int>>, t: seq<int>): (r: seq<int>)
    requires IsWalk(adj, t)
    ensures |r| == |t|
    ensures forall j :: 0 <= j < |t| ==> r[j] == adj[t[j]][Succ(t, j)]
  {
    seq(|t|, j requires 0 <= j < |t| => adj[t[j]][Succ(t, j)])
  }

  /**
   * On a walk whose edges are non-negative, the path cost is non-negative and
   * at least the length of each of its edges.
   */
  lemma {:induction false} PathCostBounds(adj: seq<seq<int>>, w: seq<int>)
    requires IsWalk(adj, w) && MissingOrNonNegative(adj)
    ensures PathCost(adj, w) >= 0
    ensures forall i :: 0 <= i < |w| - 1 ==> PathCost(adj, w) >= adj[w[i]][w[i + 1]]
  {
    if |w| > 1 {
      var front := w[..|w| - 1];
      assert IsWalk(adj, front);
      PathCostBounds(adj, front);
      forall i | 0 <= i < |w| - 1 ensures PathCost(adj, w) >= adj[w[i]][w[i + 1]] {
        if i < |w| - 2 {
          assert adj[front[i]][front[i + 1]] == adj[w[i]][w[i + 1]];
        }
      }
    }
  }

  /** A round trip costs at least as much as any one of its edges. */
  lemma TourCostCoversEdge(adj: seq<seq<int>>, t: seq<int>, j: int)
    requires IsTour(adj, t) && MissingOrNonNegative(adj)
    requires 0 <= j < |t|
    ensures TourCost(adj, t) >= TourLengths(adj, t)[j]
  {
    PathCostBounds(adj, t);
  }

  /**
   * The edges of a round trip come from distinct input lines: the line that
   * decided each edge's entry, all of them different since no two edges of
   * the trip leave the same vertex.
   */
  lemma TourLines(n: nat, edges: seq<Edge>, t: seq<int>) returns (idx: seq<int>)
    requires WellFormedInput(n, edges)
    requires IsTour(AdjOf(n, edges), t)
    ensures forall j :: 0 <= j < |idx| ==> 0 <= idx[j] < |edges|
    ensures Distinct(idx)
    ensures Pick(Lengths(edges), idx) == TourLengths(AdjOf(n, edges), t)
  {
    var adj := AdjOf(n, edges);
    idx := seq(|t|, j requires 0 <= j < |t| => LastIndex(edges, t[j], Succ(t, j)));
    forall j | 0 <= j < |t| ensures 0 <= idx[j] < |edges| && Lengths(edges)[idx[j]] == adj[t[j]][Succ(t, j)] {
      AdjEntry(n, edges, t[j], Succ(t, j));
    }
    forall i, j | 0 <= i < j < |idx| ensures idx[i] != idx[j] {
      assert edges[idx[i]].from == t[i] && edges[idx[j]].from == t[j];
    }
  }

  /**
   * Every round trip costs at least the n-th smallest input length, where n
   * is the number of vertices; in particular the input has at least n lines.
   */
  lemma TourCostAtLeastNthSmallest(n: nat, edges: seq<Edge>, S: seq<int>, t: seq<int>)
    requires WellFormedInput(n, edges)
    requires Sorted(S) && multiset(S) == multiset(Lengths(edges))
    requires IsTour(AdjOf(n, edges), t)
    ensures n <= |S|
    ensures TourCost(AdjOf(n, edges), t) >= S[n - 1]
  {
    var adj := AdjOf(n, edges);
    var idx := TourLines(n, edges, t);
    PickSubmultiset(Lengths(edges), idx);
    var M := TourLengths(adj, t);
    SortedLowerBound(S, M);
    var j :| 0 <= j < |M| && M[j] >= S[|M| - 1];
    TourCostCoversEdge(adj, t, j);
  }

  /**
   * A proper prefix w of a round trip t continues with a vertex u that the
   * search tries from w: 1 <= u < n, u not yet on w, and an edge from the end
   * of w to u.
   */
  lemma TourContinues(adj: seq<seq<int>>, w: seq<int>, t: seq<int>)
    requires IsTour(adj, t) && Prefix(w, t) && 1 <= |w| < |t|
    ensures 1 <= t[|w|] < |adj|
    ensures t[|w|] !in w
    ensures adj[w[|w| - 1]][t[|w|]] != NoEdge
    ensures Prefix(w + [t[|w|]], t)
  {
    assert t[..|w| + 1] == t[..|w|] + [t[|w|]];
    assert t[0] == 0 && t[|w|] != t[0];
    assert w[|w| - 1] == t[|w| - 1];
    assert t[|w|] !in w by {
      forall i | 0 <= i < |w| ensures w[i] != t[|w|] {
        assert w[i] == t[i];
      }
    }
  }

  /** A prefix of a round trip with as many vertices as the graph is the trip itself. */
  lemma FullPrefix(adj: seq<seq<int>>, w: seq<int>, t: seq<int>)
    requires IsTour(adj, t) && Prefix(w, t) && |w| == |adj|
    ensures w == t
  {
  }
}
