/** The shape of the list view's rows, kept as parent links and child lists
    over row indices, and the paths between rows that the depth-first walks
    of the viewer follow. */
module RowPaths {
  import opened Wrappers

  /** Each row's parent is -1 (a top-level row) or an earlier row. */
  predicate Rooted(parent: seq<int>)
  {
    forall k :: 0 <= k < |parent| ==> -1 <= parent[k] < k
  }

  /** A single tree of rows: row 0 is the only top-level row, every other
      row is listed among its parent's children, and every listed child is a
      later row whose parent is the row listing it. */
  ghost predicate Shaped(parent: seq<int>, kids: seq<seq<nat>>)
  {
    && |parent| == |kids|
    && Rooted(parent)
    && (|parent| > 0 ==> parent[0] == -1)
    && (forall k :: 0 < k < |parent| ==> 0 <= parent[k] && k in kids[parent[k]])
    && (forall j, m :: 0 <= j < |kids| && 0 <= m < |kids[j]| ==>
          j < kids[j][m] < |kids| && parent[kids[j][m]] == j)
  }

  /** Adding a new last row as the last child of row p keeps the rows one tree. */
  lemma ShapedAppend(parent: seq<int>, kids: seq<seq<nat>>, p: nat)
    requires Shaped(parent, kids) && p < |parent|
    ensures Shaped(parent + [p], kids[p := kids[p] + [|parent|]] + [[]])
  {
    var parent', kids' := parent + [p], kids[p := kids[p] + [|parent|]] + [[]];
    forall k | 0 < k < |parent'|
      ensures 0 <= parent'[k] && k in kids'[parent'[k]]
    {
      if k < |parent| {
        assert k in kids[parent[k]];
      }
    }
  }

  /** The number of parent steps from row k up to row i, when i is k or one
      of its ancestors. */
  function Dist(parent: seq<int>, k: nat, i: nat): (r: Option<nat>)
    ensures r.Some? ==> i <= k && (r.value == 0 <==> k == i)
    decreases k
  {
    if k == i then Some(0)
    else if k < |parent| && 0 <= parent[k] < k then
      match Dist(parent, parent[k], i)
      case Some(d) => Some(d + 1)
      case None => None
    else None
  }

  /** The row n parent steps above row k. */
  function Up(parent: seq<int>, k: nat, n: nat): nat
    decreases n
  {
    if n == 0 || k >= |parent| || !(0 <= parent[k] < k) then k
    else Up(parent, parent[k], n - 1)
  }

  /** A row d steps below child c of row i is d + 1 steps below i, and c is
      the row d steps above it. */
  lemma {:induction false} DistThroughChild(parent: seq<int>, k: nat, i: nat, c: nat, d: nat)
    requires c < |parent| && parent[c] == i && i < c
    requires Dist(parent, k, c) == Some(d)
    ensures Dist(parent, k, i) == Some(d + 1) && Up(parent, k, d) == c
    decreases k
  {
    if k != c {
      DistThroughChild(parent, parent[k], i, c, d - 1);
    }
  }

  /** A row below row i lies in the subtree of the child of i on its path. */
  lemma {:induction false} ChildToward(parent: seq<int>, kids: seq<seq<nat>>, k: nat, i: nat, e: nat)
    requires Shaped(parent, kids)
    requires Dist(parent, k, i) == Some(e) && e >= 1
    ensures i < |kids| && Up(parent, k, e - 1) in kids[i]
    ensures Dist(parent, k, Up(parent, k, e - 1)) == Some(e - 1)
    decreases k
  {
    var p := parent[k];
    if e == 1 {
      assert p == i;
    } else {
      ChildToward(parent, kids, p, i, e - 1);
    }
  }

  /** Whether a walk started at row i has reached row k once it has handled
      row i itself and the subtrees of the children in done. */
  ghost predicate Covered(parent: seq<int>, done: seq<nat>, k: nat, i: nat)
  {
    match Dist(parent, k, i)
    case None => false
    case Some(e) => e == 0 || Up(parent, k, e - 1) in done
  }

  /** Handling one more child c of row i adds exactly c's subtree. */
  lemma CoveredStep(parent: seq<int>, kids: seq<seq<nat>>, i: nat, m: nat, k: nat)
    requires Shaped(parent, kids) && i < |kids| && m < |kids[i]|
    ensures Covered(parent, kids[i][..m + 1], k, i) <==>
      Covered(parent, kids[i][..m], k, i) || Dist(parent, k, kids[i][m]).Some?
  {
    var c := kids[i][m];
    assert kids[i][..m + 1] == kids[i][..m] + [c];
    if Dist(parent, k, c).Some? {
      DistThroughChild(parent, k, i, c, Dist(parent, k, c).value);
    }
    if Covered(parent, kids[i][..m + 1], k, i) && !Covered(parent, kids[i][..m], k, i) {
      ChildToward(parent, kids, k, i, Dist(parent, k, i).value);
    }
  }

  /** Before any child is handled the walk has reached only row i; after all
      of them it has reached every row of the subtree of i. */
  lemma CoveredEnds(parent: seq<int>, kids: seq<seq<nat>>, i: nat, k: nat)
    requires Shaped(parent, kids) && i < |kids|
    ensures Covered(parent, [], k, i) <==> k == i
    ensures Covered(parent, kids[i], k, i) <==> Dist(parent, k, i).Some?
  {
    if Dist(parent, k, i).Some? && Dist(parent, k, i).value > 0 {
      ChildToward(parent, kids, k, i, Dist(parent, k, i).value);
    }
  }

  /** Every row lies in the subtree of row 0. */
  lemma {:induction false} AllBelowFirst(parent: seq<int>, kids: seq<seq<nat>>, k: nat)
    requires Shaped(parent, kids) && k < |parent|
    ensures Dist(parent, k, 0).Some?
    decreases k
  {
    if k > 0 {
      AllBelowFirst(parent, kids, parent[k]);
    }
  }

  /** Distances add up along a path: a row e steps below row a is e steps
      further from row 0 than a is. */
  lemma {:induction false} DistVia(parent: seq<int>, k: nat, a: nat, e: nat)
    requires Dist(parent, k, a) == Some(e) && Dist(parent, a, 0).Some?
    ensures Dist(parent, k, 0) == Some(e + Dist(parent, a, 0).value)
    decreases k
  {
    if k != a {
      DistVia(parent, parent[k], a, e - 1);
    }
  }
}
