/**
 * The branch-and-bound search of TSP.java: the Path record and its two
 * constructors, the comparator that orders the priority queue, the bound
 * table with lower_bound, the one-step extension of a path and the
 * best-first loop of main.  The static fields of TSP.java are the fields of
 * a Solver object.
 */
module TSP {
  import opened Order
  import opened Graph

  /** Integer.MAX_VALUE, the initial value of ans. */
  const INF := 0x7fff_ffff

  /** The table `sum`: sum[0] == 0 and sum[i] is the i-th smallest edge length. */
  function BoundTable(sorted: seq<int>, n: nat): (table: seq<int>)
    requires n <= |sorted|
    ensures |table| == n + 1
    ensures table[0] == 0
    ensures forall i :: 1 <= i <= n ==> table[i] == sorted[i - 1]
  {
    [0] + sorted[..n]
  }

  /** Over a sorted list the table does not decrease from index 1 to n. */
  lemma BoundTableNonDecreasing(sorted: seq<int>, n: nat, i: int, j: int)
    requires Sorted(sorted) && n <= |sorted|
    requires 1 <= i <= j <= n
    ensures BoundTable(sorted, n)[i] <= BoundTable(sorted, n)[j]
  {
  }

  /**
   * Every entry of the table is at most the length of every round trip: a
   * trip has n edges from n distinct input lines, so it costs at least the
   * n-th smallest length, which is at least every entry sum[k].
   */
  lemma TableBelowTours(n: nat, input: seq<Edge>, sorted: seq<int>)
    requires WellFormedInput(n, input)
    requires Sorted(sorted) && multiset(sorted) == multiset(Lengths(input)) && n <= |sorted|
    ensures forall k :: 0 <= k <= n ==> BelowTours(AdjOf(n, input), BoundTable(sorted, n)[k])
  {
    var adj := AdjOf(n, input);
    var table := BoundTable(sorted, n);
    forall k, t | 0 <= k <= n && IsTour(adj, t) ensures table[k] <= TourCost(adj, t) {
      TourCostAtLeastNthSmallest(n, input, sorted, t);
      if k == 0 {
        PathCostBounds(adj, t);
      }
    }
  }

  /** A partial route (class Path): the route so far and the bookkeeping kept with it. */
  class Path {
    var length: int
    var currentCost: int
    var lowerBound: int
    var last: int
    var path: seq<int>
    var inPath: array<bool>

    /**
     * The invariant every queued path keeps: path is a walk from vertex 0
     * with `length` edges ending at `last`, inPath marks exactly its
     * vertices, currentCost is the sum of its edges and lowerBound is the
     * table entry for the edges still missing.
     */
    ghost predicate Valid(adj: seq<seq<int>>, table: seq<int>)
      reads this, inPath
    {
      IsWalk(adj, path) && |path| <= |adj|
      && length == |path| - 1
      && last == path[|path| - 1]
      && inPath.Length == |adj|
      && (forall v :: 0 <= v < |adj| ==> (inPath[v] <==> v in path))
      && currentCost == PathCost(adj, path)
      && |table| == |adj| + 1
      && lowerBound == table[|adj| - length]
    }

    /** new Path(): the route that has only left vertex 0. */
    constructor (n: nat, sum: array<int>)
      requires n >= 1 && sum.Length == n + 1
      ensures length == 0 && currentCost == 0 && lowerBound == sum[n]
      ensures path == [0] && last == 0
      ensures fresh(inPath) && inPath.Length == n
      ensures forall v :: 0 <= v < n ==> inPath[v] == (v == 0)
    {
      length := 0;
      currentCost := 0;
      lowerBound := sum[n];
      path := [0];
      last := 0;
      inPath := new bool[n];
      new;
      inPath[0] := true;
      for i := 1 to n
        modifies inPath
        invariant inPath[0]
        invariant forall v :: 1 <= v < i ==> !inPath[v]
      {
        inPath[i] := false;
      }
    }

    /** new Path(that): a deep copy, with a fresh inPath array of its own. */
    constructor Copy(that: Path, n: nat)
      requires that.inPath.Length == n
      ensures length == that.length && currentCost == that.currentCost
      ensures lowerBound == that.lowerBound && last == that.last
      ensures path == that.path
      ensures fresh(inPath) && inPath.Length == n && inPath[..] == that.inPath[..]
    {
      length := that.length;
      currentCost := that.currentCost;
      lowerBound := that.lowerBound;
      path := [];
      last := that.last;
      inPath := new bool[n];
      new;
      for i := 0 to |that.path|
        modifies this`path
        invariant path == that.path[..i]
      {
        path := path + [that.path[i]];
      }
      for i := 0 to n
        modifies inPath
        invariant forall v :: 0 <= v < i ==> inPath[v] == that.inPath[v]
      {
        inPath[i] := that.inPath[i];
      }
    }
  }

  /** x is at most the length of every round trip. */
  ghost predicate BelowTours(adj: seq<seq<int>>, x: int) {
    forall t :: IsTour(adj, t) ==> x <= TourCost(adj, t)
  }

  /** Each queued path is valid and has the route listed for it in `paths`. */
  ghost predicate Queued(adj: seq<seq<int>>, table: seq<int>, queue: seq<Path>, paths: seq<seq<int>>)
    reads set i | 0 <= i < |queue| :: queue[i]
    reads set i | 0 <= i < |queue| :: queue[i].inPath
  {
    |queue| == |paths|
    && forall i {:trigger queue[i]} :: 0 <= i < |queue| ==> queue[i].Valid(adj, table) && queue[i].path == paths[i]
  }

  lemma QueuedWithout(adj: seq<seq<int>>, table: seq<int>, queue: seq<Path>, paths: seq<seq<int>>, k: int)
    requires Queued(adj, table, queue, paths) && 0 <= k < |queue|
    ensures queue[k].Valid(adj, table) && queue[k].path == paths[k]
    ensures Queued(adj, table, Without(queue, k), Without(paths, k))
  {
    var q := Without(queue, k);
    forall i | 0 <= i < |q| ensures q[i].Valid(adj, table) && q[i].path == Without(paths, k)[i] {
      if i < k {
        assert q[i] == queue[i];
      } else {
        assert q[i] == queue[i + 1];
      }
    }
  }

  lemma QueuedPush(adj: seq<seq<int>>, table: seq<int>, queue: seq<Path>, paths: seq<seq<int>>, r: Path)
    requires Queued(adj, table, queue, paths) && r.Valid(adj, table)
    ensures Queued(adj, table, queue + [r], paths + [r.path])
  {
  }

  /** path_cmp: negative when p1 is polled before p2, that is when p1 has the larger lower bound. */
  function Compare(p1: Path, p2: Path): (r: int)
    reads p1, p2
    ensures r < 0 <==> p1.lowerBound > p2.lowerBound
    ensures r == 0 <==> p1.lowerBound == p2.lowerBound
  {
    p2.lowerBound - p1.lowerBound
  }

  /**
   * The head of the priority queue under path_cmp: the position of a queued
   * path that no other queued path precedes, one with the largest lower
   * bound.
   */
  method Top(queue: seq<Path>) returns (k: nat)
    requires |queue| > 0
    ensures k < |queue|
    ensures forall j :: 0 <= j < |queue| ==> Compare(queue[k], queue[j]) <= 0
  {
    k := 0;
    for i := 1 to |queue|
      invariant k < i
      invariant forall j :: 0 <= j < i ==> queue[j].lowerBound <= queue[k].lowerBound
    {
      if Compare(queue[i], queue[k]) < 0 {
        k := i;
      }
    }
  }

  /** Every round trip cheaper than `bound` extends one of the paths in `frontier`. */
  ghost predicate Covers(adj: seq<seq<int>>, frontier: seq<seq<int>>, bound: int) {
    forall t :: IsTour(adj, t) && TourCost(adj, t) < bound ==>
      exists i :: 0 <= i < |frontier| && Prefix(frontier[i], t)
  }

  /** Every round trip starts at vertex 0, so the frontier of the root covers all of them. */
  lemma CoversRoot(adj: seq<seq<int>>, bound: int)
    ensures Covers(adj, [[0]], bound)
  {
    forall t | IsTour(adj, t) && TourCost(adj, t) < bound
      ensures Prefix([[0]][0], t)
    {
      assert t[..1] == [0];
    }
  }

  /** An empty frontier covers only when no round trip is cheaper than the bound. */
  lemma CoversNothing(adj: seq<seq<int>>, bound: int)
    requires Covers(adj, [], bound)
    ensures forall t :: IsTour(adj, t) ==> bound <= TourCost(adj, t)
  {
  }

  /** After polling frontier[k], the cheap round trips extend a remaining path or the polled one. */
  lemma CoversAfterPoll(adj: seq<seq<int>>, frontier: seq<seq<int>>, k: int, bound: int)
    requires 0 <= k < |frontier| && Covers(adj, frontier, bound)
    ensures forall t :: IsTour(adj, t) && TourCost(adj, t) < bound ==>
      (exists i :: 0 <= i < |frontier| - 1 && Prefix(Without(frontier, k)[i], t)) || Prefix(frontier[k], t)
  {
    var rest := Without(frontier, k);
    forall t | IsTour(adj, t) && TourCost(adj, t) < bound && !Prefix(frontier[k], t)
      ensures exists i :: 0 <= i < |frontier| - 1 && Prefix(rest[i], t)
    {
      var i :| 0 <= i < |frontier| && Prefix(frontier[i], t);
      if i < k {
        assert rest[i] == frontier[i];
      } else {
        assert rest[i - 1] == frontier[i];
      }
    }
  }

  /**
   * The children of w by the vertices u with 1 <= u < bound that the inner
   * loop queues (TSP.java:96-107), in the order it tries them: u is not on
   * w and has an edge from the last vertex of w.  When `keep` is false (the
   * children's lower bound reaches ans) none is queued.
   */
  function QueuedChildren(adj: seq<seq<int>>, w: seq<int>, bound: int, keep: bool): seq<seq<int>>
    requires IsWalk(adj, w)
    decreases bound
  {
    if bound <= 1 then []
    else
      var u := bound - 1;
      QueuedChildren(adj, w, u, keep) + (if keep && u < |adj| && u !in w && adj[w[|w| - 1]][u] != NoEdge then [w + [u]] else [])
  }

  /** Trying one more vertex u appends the child by u exactly when it is queued. */
  lemma QueuedChildrenStep(adj: seq<seq<int>>, w: seq<int>, u: int, keep: bool)
    requires IsWalk(adj, w) && 1 <= u < |adj|
    ensures QueuedChildren(adj, w, u + 1, keep) ==
      QueuedChildren(adj, w, u, keep) + (if keep && u !in w && adj[w[|w| - 1]][u] != NoEdge then [w + [u]] else [])
  {
  }

  /** The frontier after trying u, when it held the children by the vertices below u. */
  lemma QueuedChildrenAppend(adj: seq<seq<int>>, w: seq<int>, u: int, keep: bool,
                   f0: seq<seq<int>>, frontier: seq<seq<int>>, frontier': seq<seq<int>>)
    requires IsWalk(adj, w) && 1 <= u < |adj|
    requires frontier == f0 + QueuedChildren(adj, w, u, keep)
    requires frontier' == if u !in w && adj[w[|w| - 1]][u] != NoEdge && keep then frontier + [w + [u]] else frontier
    ensures frontier' == f0 + QueuedChildren(adj, w, u + 1, keep)
  {
    QueuedChildrenStep(adj, w, u, keep);
    if frontier' != frontier {
      assert f0 + QueuedChildren(adj, w, u, keep) + [w + [u]] == f0 + (QueuedChildren(adj, w, u, keep) + [w + [u]]);
    }
  }

  /**
   * The queued children are w grown by one vertex each; they are all the
   * children counted in cnt when `keep` holds, and none otherwise.
   */
  lemma {:induction false} QueuedChildrenShape(adj: seq<seq<int>>, w: seq<int>, bound: int, keep: bool)
    requires IsWalk(adj, w)
    ensures |QueuedChildren(adj, w, bound, keep)| == if keep then Children(adj, w, bound) else 0
    ensures |QueuedChildren(adj, w, bound, keep)| <= if bound <= 1 then 0 else bound - 1
    ensures forall i :: 0 <= i < |QueuedChildren(adj, w, bound, keep)| ==>
      |QueuedChildren(adj, w, bound, keep)[i]| == |w| + 1 && Prefix(w, QueuedChildren(adj, w, bound, keep)[i])
  {
    if bound > 1 {
      QueuedChildrenShape(adj, w, bound - 1, keep);
      var front := QueuedChildren(adj, w, bound - 1, keep);
      var all := QueuedChildren(adj, w, bound, keep);
      forall i | 0 <= i < |all| ensures |all[i]| == |w| + 1 && Prefix(w, all[i]) {
        if i < |front| {
          assert all[i] == front[i];
        } else {
          assert all[i] == w + [bound - 1];
        }
      }
    }
  }

  /** When `keep` holds, the child by every vertex that passes the test of TSP.java:97 is queued. */
  lemma {:induction false} QueuedChildrenHave(adj: seq<seq<int>>, w: seq<int>, bound: int, keep: bool, u: int)
    requires IsWalk(adj, w) && keep
    requires 1 <= u < bound && u < |adj|
    requires u !in w && adj[w[|w| - 1]][u] != NoEdge
    ensures w + [u] in QueuedChildren(adj, w, bound, keep)
  {
    if u < bound - 1 {
      QueuedChildrenHave(adj, w, bound - 1, keep, u);
    }
  }

  /**
   * After the polled path w is replaced by its queued children, every round
   * trip cheaper than bound again extends a queued path: one through w
   * extends the child by its next vertex, and when no child is queued no
   * round trip is cheaper than bound.
   */
  lemma CoversAfterExpand(adj: seq<seq<int>>, rest: seq<seq<int>>, w: seq<int>, keep: bool, bound: int)
    requires IsWalk(adj, w) && |w| < |adj|
    requires keep || forall t :: IsTour(adj, t) ==> bound <= TourCost(adj, t)
    requires forall t :: IsTour(adj, t) && TourCost(adj, t) < bound ==>
      (exists i :: 0 <= i < |rest| && Prefix(rest[i], t)) || Prefix(w, t)
    ensures Covers(adj, rest + QueuedChildren(adj, w, |adj|, keep), bound)
  {
    var kids := QueuedChildren(adj, w, |adj|, keep);
    var frontier := rest + kids;
    forall t | IsTour(adj, t) && TourCost(adj, t) < bound
      ensures exists i :: 0 <= i < |frontier| && Prefix(frontier[i], t)
    {
      if Prefix(w, t) {
        var u := t[|w|];
        TourContinues(adj, w, t);
        QueuedChildrenHave(adj, w, |adj|, keep, u);
        var j :| 0 <= j < |kids| && kids[j] == w + [u];
        assert frontier[|rest| + j] == w + [u];
      } else {
        var i :| 0 <= i < |rest| && Prefix(rest[i], t);
        assert frontier[i] == rest[i];
      }
    }
  }

  /**
   * A polled path w dropped from the frontier: when no round trip through w
   * is cheaper than `bound`, the rest of the frontier still covers them.
   */
  lemma CoversAfterDrop(adj: seq<seq<int>>, rest: seq<seq<int>>, w: seq<int>, old_bound: int, bound: int)
    requires bound <= old_bound
    requires forall t :: IsTour(adj, t) && TourCost(adj, t) < old_bound ==>
      (exists i :: 0 <= i < |rest| && Prefix(rest[i], t)) || Prefix(w, t)
    requires forall t :: IsTour(adj, t) && Prefix(w, t) ==> bound <= TourCost(adj, t)
    ensures Covers(adj, rest, bound)
  {
  }

  /** Growing the bound past one more vertex counts that vertex when w can grow by it. */
  lemma ChildrenStep(adj: seq<seq<int>>, w: seq<int>, u: int)
    requires IsWalk(adj, w) && 1 <= u < |adj|
    ensures Children(adj, w, u + 1) ==
      Children(adj, w, u) + (if u !in w && adj[w[|w| - 1]][u] != NoEdge then 1 else 0)
  {
  }

  /** The number of vertices u with 1 <= u < bound by which w can grow (TSP.java:96-97). */
  function Children(adj: seq<seq<int>>, w: seq<int>, bound: int): nat
    requires IsWalk(adj, w)
    decreases bound
  {
    if bound <= 1 then 0
    else
      var u := bound - 1;
      Children(adj, w, u) + (if u < |adj| && u !in w && adj[w[|w| - 1]][u] != NoEdge then 1 else 0)
  }

  /** The number of children constructed while expanding each path of `expanded`. */
  function Evaluated(adj: seq<seq<int>>, expanded: seq<seq<int>>): nat
    requires forall i :: 0 <= i < |expanded| ==> IsWalk(adj, expanded[i])
  {
    if expanded == [] then 0
    else Evaluated(adj, expanded[..|expanded| - 1]) + Children(adj, expanded[|expanded| - 1], |adj|)
  }

  /** Every route of `expanded` is a walk with fewer than n vertices. */
  ghost predicate ShortWalks(adj: seq<seq<int>>, expanded: seq<seq<int>>, n: int) {
    forall i :: 0 <= i < |expanded| ==> IsWalk(adj, expanded[i]) && |expanded[i]| < n
  }

  lemma EvaluatedPush(adj: seq<seq<int>>, expanded: seq<seq<int>>, w: seq<int>, n: int)
    requires ShortWalks(adj, expanded, n)
    requires IsWalk(adj, w) && |w| < n
    ensures ShortWalks(adj, expanded + [w], n)
    ensures Evaluated(adj, expanded + [w]) == Evaluated(adj, expanded) + Children(adj, w, |adj|)
  {
    assert (expanded + [w])[..|expanded|] == expanded;
  }

  /** The size of a search tree with branching b and depth d: a bound on the work below a path. */
  function Subtree(b: nat, d: nat): (r: nat)
    ensures r >= 1
  {
    if d == 0 then 1 else 1 + b * Subtree(b, d - 1)
  }

  /** The work left in a frontier of paths, each with n - |w| vertices still to add. */
  function Work(n: nat, frontier: seq<seq<int>>): nat
  {
    if frontier == [] then 0
    else
      var w := frontier[|frontier| - 1];
      Work(n, frontier[..|frontier| - 1]) + Subtree(if n >= 1 then n - 1 else 0, if |w| <= n then n - |w| else 0)
  }

  lemma {:induction false} WorkConcat(n: nat, a: seq<seq<int>>, b: seq<seq<int>>)
    ensures Work(n, a + b) == Work(n, a) + Work(n, b)
  {
    if b != [] {
      var ab := a + b;
      assert ab[..|ab| - 1] == a + b[..|b| - 1];
      assert ab[|ab| - 1] == b[|b| - 1];
      WorkConcat(n, a, b[..|b| - 1]);
    } else {
      assert a + b == a;
    }
  }

  /**
   * Replacing the polled path w by its queued children restores the
   * coverage of the round trips cheaper than bound and lowers the work left.
   */
  lemma AfterExpand(adj: seq<seq<int>>, rest: seq<seq<int>>, w: seq<int>, keep: bool, bound: int)
    requires IsWalk(adj, w) && |w| < |adj|
    requires keep || forall t :: IsTour(adj, t) ==> bound <= TourCost(adj, t)
    requires forall t :: IsTour(adj, t) && TourCost(adj, t) < bound ==>
      (exists i :: 0 <= i < |rest| && Prefix(rest[i], t)) || Prefix(w, t)
    ensures Covers(adj, rest + QueuedChildren(adj, w, |adj|, keep), bound)
    ensures Work(|adj|, rest + QueuedChildren(adj, w, |adj|, keep)) < Work(|adj|, rest) + Work(|adj|, [w])
  {
    QueuedChildrenShape(adj, w, |adj|, keep);
    CoversAfterExpand(adj, rest, w, keep, bound);
    WorkAfterExpand(|adj|, rest, w, QueuedChildren(adj, w, |adj|, keep));
  }

  /** A frontier of paths with the same number of vertices holds that many equal subtrees. */
  lemma {:induction false} WorkUniform(n: nat, frontier: seq<seq<int>>, len: nat)
    requires 1 <= len <= n
    requires forall i :: 0 <= i < |frontier| ==> |frontier[i]| == len
    ensures Work(n, frontier) == |frontier| * Subtree(n - 1, n - len)
  {
    if frontier != [] {
      var front := frontier[..|frontier| - 1];
      WorkUniform(n, front, len);
      assert |frontier| * Subtree(n - 1, n - len) == |front| * Subtree(n - 1, n - len) + Subtree(n - 1, n - len);
    }
  }

  /**
   * Replacing a polled path w by fewer than n children, each one vertex
   * longer, lowers the work left: the children's subtrees are those below w.
   */
  lemma WorkAfterExpand(n: nat, rest: seq<seq<int>>, w: seq<int>, kids: seq<seq<int>>)
    requires 1 <= |w| < n
    requires |kids| <= n - 1
    requires forall i :: 0 <= i < |kids| ==> |kids[i]| == |w| + 1
    ensures Work(n, rest + kids) < Work(n, rest) + Work(n, [w])
  {
    WorkConcat(n, rest, kids);
    WorkUniform(n, kids, |w| + 1);
    WorkSingle(n, w);
    MulMono(|kids|, n - 1, Subtree(n - 1, n - |w| - 1));
  }

  /** A path w below n vertices stands for itself and n - 1 subtrees one level lower. */
  lemma WorkSingle(n: nat, w: seq<int>)
    requires 1 <= |w| < n
    ensures Work(n, [w]) == 1 + (n - 1) * Subtree(n - 1, n - |w| - 1)
  {
    assert [w][..0] == [];
  }

  /** Every route is work left. */
  lemma WorkPositive(n: nat, w: seq<int>)
    ensures Work(n, [w]) >= 1
  {
    assert [w][..0] == [];
  }

  lemma MulMono(a: nat, b: nat, c: nat)
    requires a <= b
    ensures a * c <= b * c
  {
  }

  lemma WorkWithout(n: nat, frontier: seq<seq<int>>, k: int)
    requires 0 <= k < |frontier|
    ensures Work(n, frontier) == Work(n, Without(frontier, k)) + Work(n, [frontier[k]])
  {
    assert frontier == frontier[..k] + [frontier[k]] + frontier[k + 1..];
    WorkConcat(n, frontier[..k] + [frontier[k]], frontier[k + 1..]);
    WorkConcat(n, frontier[..k], [frontier[k]]);
    WorkConcat(n, frontier[..k], frontier[k + 1..]);
  }

  /** How a run of main ends. */
  datatype Outcome =
    | Crashed                                              // an index out of bounds stops main
    | Finished(ans: int, route: seq<int>, evaluated: nat)  // the printed length, route and count

  /** The static state of TSP.java. */
  class Solver {
    const n: nat
    ghost const input: seq<Edge>
    const adj: seq<seq<int>>
    var edgeLengths: seq<int>
    var sum: array<int>
    var ans: int
    var solution: seq<int>
    var cnt: nat

    /** The statics once main has read its input (TSP.java:14-21, 64-76). */
    constructor (n: nat, input: seq<Edge>)
      requires WellFormedInput(n, input)
      ensures this.n == n && this.input == input
      ensures adj == AdjOf(n, input) && edgeLengths == Lengths(input)
      ensures ans == INF && solution == [] && cnt == 0
    {
      this.n := n;
      this.input := input;
      adj := AdjOf(n, input);
      edgeLengths := Lengths(input);
      sum := new int[0];
      ans := INF;
      solution := [];
      cnt := 0;
    }

    /** The graph comes from the input lines. */
    ghost predicate FromInput()
    {
      WellFormedInput(n, input) && adj == AdjOf(n, input)
    }

    /**
     * The state after the bound table is built (TSP.java:77-81), as far as
     * the search needs it: every entry of sum is at most the length of every
     * round trip.
     */
    ghost predicate Ready()
      reads this`sum, sum
    {
      FromInput() && sum.Length == n + 1
      && forall k :: 0 <= k <= n ==> BelowTours(adj, sum[k])
    }

    /** ans is INF, or solution is a round trip of length ans. */
    ghost predicate Recorded()
      reads this`ans, this`solution
    {
      ans <= INF && (ans == INF || (IsTour(adj, solution) && TourCost(adj, solution) == ans))
    }

    /**
     * TSP.java:78-81: sum[0] is 0 and sum[i] is edge_l.get(i - 1).  The
     * reading edge_l.get(i - 1) fails when there are fewer than n lengths;
     * ok is false exactly then.
     */
    method FillTable() returns (ok: bool)
      modifies this`sum
      ensures ok <==> n <= |edgeLengths|
      ensures ok ==> fresh(sum) && sum[..] == BoundTable(edgeLengths, n)
    {
      sum := new int[n + 1](_ => 0);
      sum[0] := 0;
      for i := 1 to n + 1
        modifies sum
        invariant i - 1 <= |edgeLengths|
        invariant sum[0] == 0
        invariant forall j :: 1 <= j < i ==> sum[j] == edgeLengths[j - 1]
        invariant forall j :: i <= j <= n ==> sum[j] == 0
      {
        if i - 1 >= |edgeLengths| {
          return false;
        }
        sum[i] := sum[i] + edgeLengths[i - 1];
      }
      assert sum[..] == BoundTable(edgeLengths, n);
      return true;
    }

    /**
     * TSP.java:77-81: sorts the edge lengths and fills the table, whose
     * entries are then lower bounds of every round trip.
     */
    method BuildBoundTable() returns (ok: bool)
      requires FromInput() && multiset(edgeLengths) == multiset(Lengths(input))
      modifies this`edgeLengths, this`sum
      ensures ok <==> n <= |old(edgeLengths)|
      ensures edgeLengths == SortedCopy(old(edgeLengths))
      ensures ok ==> fresh(sum) && sum[..] == BoundTable(edgeLengths, n) && Ready()
    {
      edgeLengths := SortedCopy(edgeLengths);
      ok := FillTable();
      if ok {
        TableBelowTours(n, input, edgeLengths);
      }
    }

    /**
     * lower_bound(p): the (n - p.length)-th smallest edge length, which no
     * round trip undercuts.
     */
    function LowerBound(p: Path): (r: int)
      reads this`sum, sum, p
      requires Ready() && 0 <= p.length < n
      ensures forall t :: IsTour(adj, t) ==> r <= TourCost(adj, t)
    {
      sum[n - p.length]
    }

    /** q.add(new Path()) (TSP.java:84): the route that has only left vertex 0. */
    method Root() returns (r: Path)
      requires Ready() && n >= 1
      ensures fresh(r) && fresh(r.inPath)
      ensures r.Valid(adj, sum[..]) && r.path == [0]
    {
      r := new Path(n, sum);
      assert IsWalk(adj, r.path);
    }

    /**
     * TSP.java:98-104: the child of the polled path p by the vertex u, a
     * deep copy of p that then grows by u.  It leaves every existing object
     * as it was.
     */
    method Child(p: Path, u: int) returns (r: Path)
      requires Ready() && p.Valid(adj, sum[..]) && p.length < n - 1
      requires 1 <= u < n && !p.inPath[u] && adj[p.last][u] != NoEdge
      ensures fresh(r) && fresh(r.inPath)
      ensures r.Valid(adj, sum[..])
      ensures r.path == p.path + [u] && r.length == p.length + 1
    {
      r := new Path.Copy(p, n);
      r.length := r.length + 1;
      r.currentCost := r.currentCost + adj[p.last][u];
      r.lowerBound := LowerBound(r);
      r.path := r.path + [u];
      r.last := u;
      r.inPath[u] := true;
      assert r.path[..|r.path| - 1] == p.path;
    }

    /**
     * One round of the inner loop of main (TSP.java:97-107): when p can grow
     * by u, the child is constructed and counted, and it is queued exactly
     * when its lower bound, sum[n - |p.path|], is below ans.
     */
    method Visit(p: Path, u: int, next: seq<Path>, ghost frontier: seq<seq<int>>, ghost f0: seq<seq<int>>, ghost c0: int,
                 ghost keep: bool)
      returns (next': seq<Path>, ghost frontier': seq<seq<int>>)
      requires Ready() && p.Valid(adj, sum[..]) && p.length < n - 1
      requires 1 <= u < n
      requires Queued(adj, sum[..], next, frontier)
      requires frontier == f0 + QueuedChildren(adj, p.path, u, keep)
      requires cnt == c0 + Children(adj, p.path, u)
      requires keep <==> sum[n - |p.path|] < ans
      modifies this`cnt
      ensures frontier' ==
        if u !in p.path && adj[p.last][u] != NoEdge && keep
        then frontier + [p.path + [u]] else frontier
      ensures Queued(adj, sum[..], next', frontier')
      ensures frontier' == f0 + QueuedChildren(adj, p.path, u + 1, keep)
      ensures cnt == c0 + Children(adj, p.path, u + 1)
    {
      ghost var w := p.path;
      ChildrenStep(adj, w, u);
      assert p.inPath[u] <==> u in w;
      next', frontier' := next, frontier;
      if !p.inPath[u] && adj[p.last][u] != NoEdge {
        var r := Child(p, u);
        cnt := cnt + 1;
        assert r.lowerBound == sum[n - |w|];
        if r.lowerBound < ans {
          QueuedPush(adj, sum[..], next, frontier, r);
          next', frontier' := next + [r], frontier + [r.path];
        }
      }
      QueuedChildrenAppend(adj, w, u, keep, f0, frontier, frontier');
    }

    /**
     * The inner loop of main (TSP.java:96-108): every vertex u by which the
     * polled path p can grow yields a child, counted in cnt; the children
     * whose lower bound is below ans are queued in the order of u.  The
     * queued routes are appended to `paths` to give `frontier`.
     */
    method Expand(p: Path, queue: seq<Path>, ghost paths: seq<seq<int>>)
      returns (next: seq<Path>, ghost frontier: seq<seq<int>>)
      requires Ready() && p.Valid(adj, sum[..]) && p.length < n - 1
      requires Queued(adj, sum[..], queue, paths)
      modifies this`cnt
      ensures Queued(adj, sum[..], next, frontier)
      ensures frontier == paths + QueuedChildren(adj, p.path, n, sum[n - |p.path|] < ans)
      ensures cnt == old(cnt) + Children(adj, p.path, n)
    {
      ghost var w := p.path;
      ghost var c0 := cnt;
      ghost var keep := sum[n - |w|] < ans;
      next, frontier := queue, paths;
      for u := 1 to n
        invariant Queued(adj, sum[..], next, frontier)
        invariant frontier == paths + QueuedChildren(adj, w, u, keep)
        invariant cnt == c0 + Children(adj, w, u)
      {
        next, frontier := Visit(p, u, next, frontier, paths, c0, keep);
      }
    }

    /**
     * Expanding a polled path p that is short and below ans (TSP.java:96-108)
     * queues its children, keeps every round trip cheaper than ans covered
     * by the queue, lowers the work left and counts every child of p.
     */
    method Grow(p: Path, queue: seq<Path>, ghost paths: seq<seq<int>>)
      returns (next: seq<Path>, ghost frontier: seq<seq<int>>)
      requires Ready() && p.Valid(adj, sum[..]) && p.length < n - 1
      requires Queued(adj, sum[..], queue, paths)
      requires forall t :: IsTour(adj, t) && TourCost(adj, t) < ans ==>
        (exists i :: 0 <= i < |paths| && Prefix(paths[i], t)) || Prefix(p.path, t)
      modifies this`cnt
      ensures Queued(adj, sum[..], next, frontier)
      ensures frontier == paths + QueuedChildren(adj, p.path, n, sum[n - |p.path|] < ans)
      ensures Covers(adj, frontier, ans)
      ensures Work(n, frontier) < Work(n, paths) + Work(n, [p.path])
      ensures cnt == old(cnt) + Children(adj, p.path, n)
    {
      next, frontier := Expand(p, queue, paths);
      assert BelowTours(adj, sum[n - |p.path|]);
      AfterExpand(adj, paths, p.path, sum[n - |p.path|] < ans, ans);
    }

    /**
     * TSP.java:87-93: a polled path through all n vertices closes into a
     * round trip when its last vertex has an edge back to vertex 0, and that
     * trip becomes the solution when it is shorter than ans.
     */
    method Close(p: Path, ghost paths: seq<seq<int>>)
      requires FromInput() && p.Valid(adj, sum[..]) && p.length == n - 1
      requires Recorded()
      requires forall t :: IsTour(adj, t) && TourCost(adj, t) < ans ==>
        (exists i :: 0 <= i < |paths| && Prefix(paths[i], t)) || Prefix(p.path, t)
      modifies this`ans, this`solution
      ensures Recorded()
      ensures IsTour(adj, p.path) && TourCost(adj, p.path) < old(ans) ==>
        ans == TourCost(adj, p.path) && solution == p.path
      ensures !(IsTour(adj, p.path) && TourCost(adj, p.path) < old(ans)) ==>
        ans == old(ans) && solution == old(solution)
      ensures forall t :: IsTour(adj, t) && Prefix(p.path, t) ==> ans <= TourCost(adj, t)
      ensures Covers(adj, paths, ans)
    {
      if adj[p.last][0] != NoEdge {
        if p.currentCost + adj[p.last][0] < ans {
          ans := p.currentCost + adj[p.last][0];
          solution := p.path;
        }
      }
      forall t | IsTour(adj, t) && Prefix(p.path, t) ensures ans <= TourCost(adj, t) {
        FullPrefix(adj, p.path, t);
      }
      CoversAfterDrop(adj, paths, p.path, old(ans), ans);
    }

    /**
     * q.poll() (TSP.java:86): takes a path of the largest lower bound out of
     * the queue.  The round trips cheaper than ans that the queue covered
     * are covered by the rest of the queue or extend the polled path.
     */
    method Poll(queue: seq<Path>, ghost paths: seq<seq<int>>)
      returns (p: Path, rest: seq<Path>, ghost w: seq<int>, ghost restPaths: seq<seq<int>>)
      requires Queued(adj, sum[..], queue, paths) && Covers(adj, paths, ans) && |queue| > 0
      ensures forall q :: q in queue ==> Compare(p, q) <= 0
      ensures multiset(rest) + multiset{p} == multiset(queue)
      ensures p.Valid(adj, sum[..]) && p.path == w
      ensures Queued(adj, sum[..], rest, restPaths)
      ensures forall t :: IsTour(adj, t) && TourCost(adj, t) < ans ==>
        (exists i :: 0 <= i < |restPaths| && Prefix(restPaths[i], t)) || Prefix(w, t)
      ensures Work(n, paths) == Work(n, restPaths) + Work(n, [w])
    {
      var k := Top(queue);
      p, w := queue[k], paths[k];
      QueuedWithout(adj, sum[..], queue, paths, k);
      CoversAfterPoll(adj, paths, k, ans);
      WorkWithout(n, paths, k);
      SplitAt(queue, k);
      rest, restPaths := Without(queue, k), Without(paths, k);
    }

    /**
     * The body of the loop of main after the poll (TSP.java:87-108): a
     * complete path is closed into a round trip, a path whose bound reaches
     * ans is dropped, and any other path is expanded (`grown`).  The work
     * left shrinks, and the round trips cheaper than ans that extended the
     * polled path extend a queued path afterwards.
     */
    method Process(p: Path, queue: seq<Path>, ghost paths: seq<seq<int>>)
      returns (queue': seq<Path>, ghost paths': seq<seq<int>>, ghost grown: bool)
      requires Ready() && Recorded()
      requires p.Valid(adj, sum[..]) && Queued(adj, sum[..], queue, paths)
      requires forall t :: IsTour(adj, t) && TourCost(adj, t) < ans ==>
        (exists i :: 0 <= i < |paths| && Prefix(paths[i], t)) || Prefix(p.path, t)
      modifies this`ans, this`solution, this`cnt
      ensures Queued(adj, sum[..], queue', paths')
      ensures Recorded() && ans <= old(ans) && (ans == old(ans) ==> solution == old(solution))
      ensures Covers(adj, paths', ans)
      ensures Work(n, paths') < Work(n, paths) + Work(n, [p.path])
      ensures grown <==> p.length < n - 1 && p.lowerBound < old(ans)
      ensures grown ==> |p.path| < n && cnt == old(cnt) + Children(adj, p.path, n)
      ensures grown ==> paths' == paths + QueuedChildren(adj, p.path, n, sum[n - |p.path|] < ans)
      ensures !grown ==> cnt == old(cnt) && queue' == queue && paths' == paths
      ensures p.length != n - 1 ==> ans == old(ans) && solution == old(solution)
      ensures p.length == n - 1 && IsTour(adj, p.path) && TourCost(adj, p.path) < old(ans) ==>
        ans == TourCost(adj, p.path) && solution == p.path
      ensures p.length == n - 1 && !(IsTour(adj, p.path) && TourCost(adj, p.path) < old(ans)) ==>
        ans == old(ans) && solution == old(solution)
    {
      if p.length == n - 1 {
        queue', paths', grown := queue, paths, false;
        Close(p, paths);
        WorkPositive(n, p.path);
      } else {
        queue', paths', grown := Branch(p, queue, paths);
      }
    }

    /**
     * TSP.java:95-108 for a polled path p that is not complete: it is
     * dropped when its lower bound reaches ans, and expanded otherwise.
     */
    method Branch(p: Path, queue: seq<Path>, ghost paths: seq<seq<int>>)
      returns (queue': seq<Path>, ghost paths': seq<seq<int>>, ghost grown: bool)
      requires Ready() && p.Valid(adj, sum[..]) && p.length < n - 1
      requires Queued(adj, sum[..], queue, paths)
      requires forall t :: IsTour(adj, t) && TourCost(adj, t) < ans ==>
        (exists i :: 0 <= i < |paths| && Prefix(paths[i], t)) || Prefix(p.path, t)
      modifies this`cnt
      ensures Queued(adj, sum[..], queue', paths')
      ensures Covers(adj, paths', ans)
      ensures Work(n, paths') < Work(n, paths) + Work(n, [p.path])
      ensures grown <==> p.lowerBound < ans
      ensures grown ==> cnt == old(cnt) + Children(adj, p.path, n)
      ensures grown ==> paths' == paths + QueuedChildren(adj, p.path, n, sum[n - |p.path|] < ans)
      ensures !grown ==> cnt == old(cnt) && queue' == queue && paths' == paths
    {
      if p.lowerBound >= ans {
        queue', paths', grown := queue, paths, false;
        assert BelowTours(adj, sum[n - p.length]);
        CoversAfterDrop(adj, paths, p.path, ans, ans);
        WorkPositive(n, p.path);
      } else {
        queue', paths' := Grow(p, queue, paths);
        grown := true;
      }
    }

    /**
     * The loop of main (TSP.java:83-109).  When the queue is empty, ans is
     * the least length of a round trip through all vertices (or stays as it
     * was when none is shorter) and solution is such a trip; cnt has grown by
     * one for every child path constructed while expanding the paths of
     * `expanded`.
     */
    method Search() returns (ghost expanded: seq<seq<int>>)
      requires Ready() && Recorded() && n >= 1
      modifies this`ans, this`solution, this`cnt
      ensures Recorded()
      ensures ans <= old(ans) && (ans == old(ans) ==> solution == old(solution))
      ensures forall t :: IsTour(adj, t) ==> ans <= TourCost(adj, t)
      ensures ShortWalks(adj, expanded, n)
      ensures cnt == old(cnt) + Evaluated(adj, expanded)
    {
      var root := Root();
      var queue := [root];
      ghost var paths := [root.path];
      expanded := [];
      CoversRoot(adj, ans);
      while queue != []
        invariant Queued(adj, sum[..], queue, paths)
        invariant Recorded() && ans <= old(ans) && (ans == old(ans) ==> solution == old(solution))
        invariant Covers(adj, paths, ans)
        invariant ShortWalks(adj, expanded, n)
        invariant cnt == old(cnt) + Evaluated(adj, expanded)
        decreases Work(n, paths)
      {
        var p;
        ghost var w, grown;
        p, queue, w, paths := Poll(queue, paths);
        queue, paths, grown := Process(p, queue, paths);
        if grown {
          EvaluatedPush(adj, expanded, w, n);
          expanded := expanded + [w];
        }
      }
      CoversNothing(adj, ans);
    }
  }

  /**
   * main without its file input and console output (TSP.java:60-109): read
   * the lines into the statics, build the table, search.  A run with fewer
   * input lines than vertices, or with no vertex at all, stops on an index
   * out of bounds.
   */
  method Solve(n: nat, input: seq<Edge>) returns (out: Outcome)
    requires WellFormedInput(n, input)
    ensures out.Crashed? <==> (n == 0 || |input| < n)
    ensures out.Finished? ==> out.ans <= INF
    ensures out.Finished? ==> forall t :: IsTour(AdjOf(n, input), t) ==> out.ans <= TourCost(AdjOf(n, input), t)
    ensures out.Finished? && out.ans < INF ==>
      IsTour(AdjOf(n, input), out.route) && TourCost(AdjOf(n, input), out.route) == out.ans
  {
    var solver := new Solver(n, input);
    var ok := solver.BuildBoundTable();
    if !ok || n == 0 {
      return Crashed;
    }
    ghost var expanded := solver.Search();
    return Finished(solver.ans, solver.solution, solver.cnt);
  }
}
