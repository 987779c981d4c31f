/**
 * Order statistics of the edge-length list.
 *
 * TSP.java sorts its list of edge lengths with Collections.sort and then reads
 * single entries of the sorted list as lower bounds.  This module gives the
 * sort its specification (a sorted permutation, which is unique) and proves
 * the order-statistic fact the bound rests on: among k values taken from k
 * distinct positions of a list, one is at least the k-th smallest entry.
 */
module Order {

  /** Non-decreasing order. */
  predicate Sorted(s: seq<int>) {
    forall i, j :: 0 <= i < j < |s| ==> s[i] <= s[j]
  }

  /** No value occurs twice. */
  predicate Distinct(s: seq<int>) {
    forall i, j :: 0 <= i < j < |s| ==> s[i] != s[j]
  }

  /** Places x into the sorted list s. */
  function Insert(x: int, s: seq<int>): (r: seq<int>)
    requires Sorted(s)
    ensures Sorted(r)
    ensures multiset(r) == multiset(s) + multiset{x}
  {
    if s == [] then [x]
    else if x <= s[0] then [x] + s
    else
      var tail := Insert(x, s[1..]);
      InsertBehindHead(x, s, tail);
      [s[0]] + tail
  }

  /** Putting the head of s back in front of x inserted into the rest of s. */
  lemma InsertBehindHead(x: int, s: seq<int>, tail: seq<int>)
    requires Sorted(s) && s != [] && s[0] < x
    requires Sorted(tail) && multiset(tail) == multiset(s[1..]) + multiset{x}
    ensures Sorted([s[0]] + tail)
    ensures multiset([s[0]] + tail) == multiset(s) + multiset{x}
  {
    assert s == [s[0]] + s[1..];
    forall k | 0 <= k < |tail| ensures s[0] <= tail[k] {
      assert tail[k] in multiset(tail);
      assert tail[k] == x || tail[k] in multiset(s[1..]);
    }
  }

  /**
   * A sorted permutation of s.  It stands for Collections.sort: by
   * SortedPermutationUnique any sorting procedure yields this very list.
   */
  function SortedCopy(s: seq<int>): (r: seq<int>)
    ensures Sorted(r)
    ensures multiset(r) == multiset(s)
    ensures |r| == |s|
  {
    if s == [] then []
    else
      assert s == [s[0]] + s[1..];
      Insert(s[0], SortedCopy(s[1..]))
  }

  /** Two sorted lists with the same elements are the same list. */
  lemma {:induction false} SortedPermutationUnique(a: seq<int>, b: seq<int>)
    requires Sorted(a) && Sorted(b)
    requires multiset(a) == multiset(b)
    ensures a == b
  {
    if a != [] && b != [] {
      HeadIsLeast(a, b);
      HeadIsLeast(b, a);
      HeadSplit(a);
      HeadSplit(b);
      Cancel(multiset(a[1..]), multiset(b[1..]), a[0]);
      SortedPermutationUnique(a[1..], b[1..]);
    } else {
      SameSize(a, b);
    }
  }

  lemma HeadSplit(a: seq<int>)
    requires a != []
    ensures a == [a[0]] + a[1..]
    ensures multiset(a) == multiset(a[1..]) + multiset{a[0]}
  {
    assert a == [a[0]] + a[1..];
  }

  lemma SameSize(a: seq<int>, b: seq<int>)
    requires multiset(a) == multiset(b)
    ensures |a| == |b|
  {
    assert |a| == |multiset(a)|;
    assert |b| == |multiset(b)|;
  }

  lemma Cancel(X: multiset<int>, Y: multiset<int>, c: int)
    requires X + multiset{c} == Y + multiset{c}
    ensures X == Y
  {
    assert forall y :: X[y] == (X + multiset{c})[y] - multiset{c}[y];
  }

  /** The head of a sorted list is no larger than anything in another list with the same elements. */
  lemma HeadIsLeast(a: seq<int>, b: seq<int>)
    requires Sorted(a) && a != [] && b != []
    requires multiset(a) == multiset(b)
    ensures a[0] <= b[0]
  {
    assert b[0] in multiset(a);
  }

  /** A sub-multiset is no larger than the multiset containing it. */
  lemma SubmultisetSize(A: multiset<int>, B: multiset<int>)
    requires A <= B
    ensures |A| <= |B|
  {
    var C := B - A;
    assert B == A + C;
  }

  /**
   * If the values of M all occur in the sorted list S (with multiplicity),
   * then S has at least |M| entries and some value of M is at least the
   * |M|-th smallest entry of S.
   */
  lemma {:induction false} SortedLowerBound(S: seq<int>, M: seq<int>)
    requires Sorted(S)
    requires multiset(M) <= multiset(S)
    requires |M| >= 1
    ensures |M| <= |S|
    ensures exists j :: 0 <= j < |M| && M[j] >= S[|M| - 1]
  {
    SubmultisetSize(multiset(M), multiset(S));
    var m := |S| - 1;
    var x := S[m];
    assert S == S[..m] + [x];
    if x in multiset(M) {
      var j :| 0 <= j < |M| && M[j] == x;
      assert S[|M| - 1] <= S[m];
    } else {
      assert multiset(M) <= multiset(S[..m]) by {
        forall y ensures multiset(M)[y] <= multiset(S[..m])[y] {
          if y == x {
            assert multiset(M)[y] == 0;
          }
        }
      }
      SortedLowerBound(S[..m], M);
    }
  }

  /** The entries of L at the positions listed in idx. */
  function Pick(L: seq<int>, idx: seq<int>): (r: seq<int>)
    requires forall j :: 0 <= j < |idx| ==> 0 <= idx[j] < |L|
    ensures |r| == |idx|
    ensures forall j :: 0 <= j < |idx| ==> r[j] == L[idx[j]]
  {
    if idx == [] then [] else [L[idx[0]]] + Pick(L, idx[1..])
  }

  /** s without its entry at position j. */
  function Without<T>(s: seq<T>, j: int): (r: seq<T>)
    requires 0 <= j < |s|
    ensures |r| == |s| - 1
    ensures forall i :: 0 <= i < |r| ==> r[i] == if i < j then s[i] else s[i + 1]
  {
    s[..j] + s[j + 1..]
  }

  /** Picking at every position but j, then adding the entry picked at j, gives the same multiset. */
  lemma PickWithout(L: seq<int>, idx: seq<int>, j: int)
    requires forall i :: 0 <= i < |idx| ==> 0 <= idx[i] < |L|
    requires 0 <= j < |idx|
    ensures multiset(Pick(L, idx)) == multiset(Pick(L, Without(idx, j))) + multiset{L[idx[j]]}
  {
    var p := Pick(L, idx);
    var w := Without(idx, j);
    assert forall i :: 0 <= i < |w| ==> 0 <= w[i] < |L|;
    var q := Pick(L, w);
    assert q == Without(p, j);
    SplitAt(p, j);
  }

  lemma SplitAt<T>(p: seq<T>, j: int)
    requires 0 <= j < |p|
    ensures multiset(p) == multiset(Without(p, j)) + multiset{p[j]}
  {
    assert p == p[..j] + [p[j]] + p[j + 1..];
  }

  /** Positions below the last one pick the same entries from the list without its last entry. */
  lemma PickFront(L: seq<int>, idx: seq<int>)
    requires L != []
    requires forall i :: 0 <= i < |idx| ==> 0 <= idx[i] < |L| - 1
    ensures Pick(L, idx) == Pick(L[..|L| - 1], idx)
  {
  }

  /** Entries taken from distinct positions form a sub-multiset of the list. */
  lemma {:induction false} PickSubmultiset(L: seq<int>, idx: seq<int>)
    requires forall j :: 0 <= j < |idx| ==> 0 <= idx[j] < |L|
    requires Distinct(idx)
    ensures multiset(Pick(L, idx)) <= multiset(L)
  {
    if L != [] {
      var m := |L| - 1;
      var front := L[..m];
      assert L == front + [L[m]];
      if j :| 0 <= j < |idx| && idx[j] == m {
        var rest := Without(idx, j);
        PickWithout(L, idx, j);
        DropPosition(idx, j, m);
        PickFront(L, rest);
        PickSubmultiset(front, rest);
      } else {
        PickFront(L, idx);
        PickSubmultiset(front, idx);
      }
    }
  }

  /** Removing the one occurrence of the largest position m leaves distinct positions below m. */
  lemma DropPosition(idx: seq<int>, j: int, m: int)
    requires Distinct(idx)
    requires 0 <= j < |idx| && idx[j] == m
    requires forall i :: 0 <= i < |idx| ==> 0 <= idx[i] <= m
    ensures Distinct(Without(idx, j))
    ensures forall i :: 0 <= i < |idx| - 1 ==> 0 <= Without(idx, j)[i] < m
  {
  }
}
