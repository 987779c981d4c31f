# Branch-and-bound Travelling Salesman search (TSP.java), modelled in Dafny

TSP.java reads a directed graph with integer edge lengths, with `-1` marking a
missing edge. It then searches for the shortest round trip that starts at
vertex 0, visits every vertex once and returns to 0. The search is a
branch-and-bound over partial routes (`Path`):

- a priority queue polls the path with the largest lower bound (`path_cmp`);
- a path through all n vertices is closed into a round trip, which replaces the
  best one found so far (`ans`, `solution`) when it is strictly shorter;
- a path whose bound reaches `ans` is dropped;
- any other path is extended by every unvisited vertex it has an edge to;
- every child constructed is counted in `cnt`;
- a child whose bound reaches `ans` is not queued.

The bound is read from the table `sum`. `sum[0]` is 0 and `sum[i]` is the
i-th smallest input edge length, so `lower_bound(p) == sum[n - p.length]`.
The comment at TSP.java:17 calls `sum` a prefix sum, but line 81 does not
accumulate, and the model follows the code. The bound ignores the cost
already paid, but it is still sound. A round trip has n edges, and these
come from n distinct input lines. So the trip costs at least its longest
edge, which is at least the n-th smallest input length, and that is at
least every table entry.

The model has three modules:

- `Order` (order.dfy): the specification of `Collections.sort` as a sorted
  permutation, which is unique, and the order-statistic lemma the bound
  rests on.
- `Graph` (graph.dfy): the input as a list of `u,v,d` lines folded into the
  adjacency matrix (the last line for an edge wins), walks, round trips and
  their costs. It proves that every round trip costs at least the n-th
  smallest input length.
- `TSP` (tsp.dfy):
  - the `Path` class with its two constructors, the comparator and the table;
  - a `Solver` class whose fields are the statics of TSP.java, with methods for
    the table construction, the child construction, the inner loop, the poll
    and the main loop;
  - `Solve`, which is `main` without file input and console output.

The search is proved against a specification rather than one run at a time:

- **Termination.** The loop decreases the "work left", a sum of search-tree
  sizes over the queued routes.
- **Coverage.** Every round trip cheaper than `ans` extends some queued route
  (`Covers`).
- **Result.** When the queue empties, `ans` is at most the cost of every round
  trip. `ans` either stays `Integer.MAX_VALUE` or is the cost of `solution`,
  which is a round trip.
- **Count.** `cnt` is the number of children of the expanded routes.

## Model

| member | source | states |
|---|---|---|
| Order.SortedCopy | TSP.java:77 | the sorted edge list is in non-decreasing order and is a permutation of the unsorted one |
| Order.SortedPermutationUnique | TSP.java:77 | two sorted permutations of the same list are equal, so any correct sort yields `SortedCopy` |
| Order.SortedLowerBound | TSP.java:57-59 | if a list M of values is a sub-multiset of the sorted list S, then S has at least \|M\| entries and some value of M is at least the \|M\|-th smallest entry of S |
| Order.PickSubmultiset | TSP.java:74-75 | values read at distinct positions of the length list form a sub-multiset of it |
| Graph.Lengths | TSP.java:75 | `edge_l` holds the length of every input line, in reading order |
| Graph.AdjOf | TSP.java:65-76 | the matrix is n-by-n and every entry is either -1 or a non-negative length |
| Graph.AdjEntry | TSP.java:66-74 | an entry is the length on the last input line for that edge, or -1 when no line names it |
| Graph.PathCostBounds | TSP.java:100 | the summed edge cost of a walk is non-negative and at least each of its edges |
| Graph.TourCostCoversEdge | TSP.java:89 | a round trip costs at least each of its n edges, the closing edge included |
| Graph.TourLines | TSP.java:74-75 | the n edges of a round trip are decided by n distinct input lines whose lengths are those edges' lengths |
| Graph.TourCostAtLeastNthSmallest | TSP.java:57-59 | every round trip needs at least n input lines and costs at least the n-th smallest input length |
| Graph.TourContinues | TSP.java:96-97 | a proper prefix of a round trip continues with a vertex u, 1 <= u < n, not on the prefix and reachable by an edge, so the inner loop tries it |
| Graph.FullPrefix | TSP.java:87 | a prefix with n vertices of a round trip is the whole trip |
| TSP.BoundTable | TSP.java:78-81 | the table has n + 1 entries, entry 0 is 0 and entry i is the i-th smallest length |
| TSP.BoundTableNonDecreasing | TSP.java:80-81 | entries 1 to n do not decrease, so `lower_bound` never grows as a path grows |
| TSP.TableBelowTours | TSP.java:77-81 | every entry `sum[k]`, 0 <= k <= n, of the table built from the sorted lengths is at most the cost of every round trip, so `lower_bound` never prunes a cheaper trip |
| TSP.Path.constructor | TSP.java:26-37 | the root path has length 0, cost 0, bound `sum[n]`, route [0], last vertex 0, and `in_path` true only at 0 |
| TSP.Path.Copy | TSP.java:38-49 | the copy has every field of the original and a fresh `in_path` array with the same contents, so later writes to the copy leave the original unchanged |
| TSP.Compare | TSP.java:51-56 | the comparator is negative exactly when p1's bound is larger and zero exactly when the bounds are equal |
| TSP.Top | TSP.java:86 | the polled position is one that the comparator places no later than any other queued path |
| TSP.CoversRoot | TSP.java:84 | the root route [0] is a prefix of every round trip |
| TSP.CoversAfterPoll | TSP.java:86 | after a poll, every cheap round trip extends a remaining route or the polled one |
| TSP.QueuedChildrenAppend | TSP.java:106-107 | a frontier that held the children by the vertices below u holds, after the step for u, the children by the vertices up to u |
| TSP.QueuedChildrenShape | TSP.java:96-107 | each queued child is w grown by one vertex; there are fewer than n of them; when the bound is below `ans` they are exactly the children counted in `cnt`, and otherwise there are none |
| TSP.QueuedChildrenHave | TSP.java:96-107 | when the children's bound is below `ans`, the child by every vertex that passes the test of line 97 is queued |
| TSP.CoversAfterExpand | TSP.java:96-108 | after the polled path is replaced by its queued children, every round trip cheaper than `ans` again extends a queued path |
| TSP.AfterExpand | TSP.java:96-108 | replacing the polled path by its queued children keeps coverage and strictly lowers the work left |
| TSP.CoversAfterDrop | TSP.java:87-95 | dropping a polled path none of whose round trips is cheaper than `ans` keeps the coverage |
| TSP.WorkUniform | TSP.java:96-107 | k routes of equal length stand for k equal subtrees of work |
| TSP.WorkAfterExpand | TSP.java:96-108 | replacing a route by its fewer than n children, each one vertex longer, strictly lowers the work left |
| TSP.WorkWithout | TSP.java:86 | polling a route removes exactly that route's share of the work |
| TSP.Solver.constructor | TSP.java:14-21 | after reading the input, the matrix is the fold of the lines, `edge_l` is their lengths, `ans` is `Integer.MAX_VALUE` and `cnt` is 0 |
| TSP.Solver.FillTable | TSP.java:78-81 | the fill succeeds exactly when there are at least n lengths, and then the array holds the table |
| TSP.Solver.BuildBoundTable | TSP.java:77-81 | the lengths end up sorted; the table exists exactly when there are at least n of them, and then every entry is below every round trip |
| TSP.Solver.LowerBound | TSP.java:57-59 | `lower_bound` is at most the cost of every round trip |
| TSP.Solver.Root | TSP.java:84 | the first queued path is valid and has route [0] |
| TSP.Solver.Child | TSP.java:98-104 | the child is a fresh valid path: route p + [u], `in_path` matches the route, cost is the sum of its edges, bound is the table entry; no existing object changes |
| TSP.Solver.Visit | TSP.java:97-107 | one step of the inner loop: `cnt` grows by one exactly when u is not on the path and has an edge from its last vertex; the route p + [u] is queued exactly when, in addition, the child's bound `sum[n - \|p.path\|]` is below `ans`, and otherwise the queue is unchanged |
| TSP.Solver.Expand | TSP.java:96-108 | the inner loop counts every child of p and appends to the queue exactly the valid children `QueuedChildren` lists, in the order of u: those by the vertices that pass the test of line 97, or none when the children's bound reaches `ans` |
| TSP.Solver.Grow | TSP.java:96-108 | expanding a polled path appends exactly its queued children, keeps all cheap round trips covered, lowers the work left and adds p's children to `cnt` |
| TSP.Solver.Close | TSP.java:87-93 | `ans` and `solution` change exactly when the closed path is a round trip strictly cheaper than `ans`, and then they record it; afterwards no round trip through p is cheaper than `ans`, so the rest of the queue covers the cheap round trips |
| TSP.Solver.Poll | TSP.java:86 | the polled path has the largest bound in the queue, and the rest of the queue is the queue without it |
| TSP.Solver.Process | TSP.java:87-108 | a polled path is expanded exactly when it is not complete and its bound is below `ans`, and then exactly its queued children are appended; otherwise the queue and `cnt` are unchanged; `ans` and `solution` change only when a complete path closes into a strictly cheaper round trip, and then record it; coverage holds and the work left shrinks |
| TSP.Solver.Branch | TSP.java:95-108 | an incomplete polled path is dropped, leaving queue and `cnt` unchanged, exactly when its bound reaches `ans`; otherwise it is expanded into exactly its queued children; coverage holds and the work left shrinks |
| TSP.Solver.Search | TSP.java:83-109 | when the queue empties, `ans` has not grown and is at most every round trip's cost, `solution` records it, and `cnt` counts the children of the expanded routes |
| TSP.Solve | TSP.java:60-109 | `main` stops on an index error exactly when there are no vertices or fewer input lines than vertices; otherwise `ans` is the least round-trip cost, `solution` is a round trip of that cost when one is shorter than `Integer.MAX_VALUE`, and `ans` stays `Integer.MAX_VALUE` when there is no such round trip |

## Left out

- File input (TSP.java:61-76) is not modelled: opening `TSP_Input.csv`, `readLine`, `split` and `parseInt`. The input is a parameter, a list of `(u, v, d)` lines, and the matrix is a fold over it. Lines naming a vertex outside `0..n-1` throw in Java; the model requires the lines to be well formed instead.
- Console output (TSP.java:110-115) is not modelled. This includes `solution.get(i)`, which throws when no round trip was found. `Solve` returns `ans`, the route and `cnt` instead.
- The `-1` sentinel: an input length of -1 would be indistinguishable from a missing edge. The model requires non-negative lengths.
- Java `int` overflow is not modelled: integers are unbounded. `current_cost + adj[p.last][0]` (TSP.java:89) and `r.current_cost += …` (TSP.java:100) can wrap in Java when lengths are large. With non-negative lengths the comparator's subtraction (TSP.java:54) cannot overflow.
- TSP.Solver.Poll: `PriorityQueue` internals and its order among equal bounds are not modelled. The queue is a sequence, and `Poll` removes some element of largest bound. The proved result does not depend on which one.
- `Collections.sort` internals are not modelled. The sort is specified as a sorted permutation (`SortedCopy`), which is unique by `SortedPermutationUnique`.
- TSP.Solver.LowerBound: its contract states only soundness (below every round trip), not the value `sum[n - p.length]` that the body returns. `Child` and `Path.Valid` state that value.
- TSP.Solver.Search: the count `cnt` is stated against the ghost list of expanded routes, which the search produces. `Solve` does not relate its `evaluated` field to a closed formula over the graph.
