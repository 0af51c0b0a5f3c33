/** The classification tree as the viewer sees it, and the rows a full rebuild
    derives from it: which branches get a row, how each row is labelled, and in
    which order the rows are created. */
module ClassificationTree {
  import opened Wrappers

  /** The training examples a node keeps; the viewer passes them on unchanged. */
  type ExampleTable = seq<seq<string>>

  /** A node of a trained classification tree. */
  datatype TreeNode = TreeNode(
    selector: Option<string>,          // name of the attribute an internal node splits on; None at a leaf
    branches: seq<Option<TreeNode>>,   // subtrees in branch order; None for an empty branch
    descriptions: seq<string>,         // the text describing each branch
    classVar: string,                  // name of the class variable
    majority: string,                  // the class the node predicts, as text
    distribution: seq<real>,           // class distribution, read only by the cell formatter
    examples: ExampleTable)            // training examples routed to this node

  /** The label of the top row of a rebuilt view. */
  const RootLabel := "<root>"

  /** A branch description that is a comparison ("<30", ">=30") rather than a value. */
  predicate IsComparison(desc: string)
    requires desc != []
  {
    desc[0] == '<' || desc[0] == '>'
  }

  /** The label of the row for a branch: the attribute, then " " before a
      comparison or " = " before a value, then the description. */
  function BranchLabel(attr: string, desc: string): (r: string)
    requires desc != []
    ensures |attr| + |desc| < |r|
  {
    if IsComparison(desc) then attr + " " + desc else attr + " = " + desc
  }

  /** A branch label starts with the attribute and ends with the description;
      what lies between is " " exactly for a comparison and " = " exactly
      for a value. */
  lemma BranchLabelForm(attr: string, desc: string)
    requires desc != []
    ensures var r := BranchLabel(attr, desc);
      && r[..|attr|] == attr && r[|r| - |desc|..] == desc
      && (IsComparison(desc) <==> r[|attr|..|r| - |desc|] == " ")
      && (!IsComparison(desc) <==> r[|attr|..|r| - |desc|] == " = ")
  {
    var r := BranchLabel(attr, desc);
    var sep := if IsComparison(desc) then " " else " = ";
    assert r == attr + sep + desc;
    assert r[|attr|..|r| - |desc|] == sep;
  }

  /** Different descriptions of branches on one attribute give different labels. */
  lemma BranchLabelInjective(attr: string, d1: string, d2: string)
    requires d1 != [] && d2 != []
    requires BranchLabel(attr, d1) == BranchLabel(attr, d2)
    ensures d1 == d2
  {
    var r := BranchLabel(attr, d1);
    BranchLabelForm(attr, d1);
    BranchLabelForm(attr, d2);
    if IsComparison(d1) == IsComparison(d2) {
      assert |d1| == |d2|;
      assert d1 == r[|r| - |d1|..] == d2;
    }
  }

  /** An internal node describes each of its non-empty branches with a
      non-empty text (the source reads its first character). */
  predicate Described(t: TreeNode)
  {
    t.selector.Some? ==>
      forall i :: 0 <= i < |t.branches| && t.branches[i].Some? ==>
        i < |t.descriptions| && t.descriptions[i] != []
  }

  /** Every node of the tree is described. */
  predicate WellFormed(t: TreeNode)
    decreases t
  {
    && Described(t)
    && (t.selector.Some? ==>
          forall i :: 0 <= i < |t.branches| && t.branches[i].Some? ==> WellFormed(t.branches[i].value))
  }

  /** What a child row shows in its first column and which node it stands for. */
  datatype ChildRow = ChildRow(caption: string, node: TreeNode)

  /** The child rows of branches i, i+1, ... of a node: one per non-empty
      branch of an internal node, in branch order. */
  function KidsFrom(t: TreeNode, i: nat): (r: seq<ChildRow>)
    requires Described(t)
    decreases |t.branches| - i
  {
    if t.selector.None? || i >= |t.branches| then []
    else match t.branches[i]
      case None => KidsFrom(t, i + 1)
      case Some(b) => [ChildRow(BranchLabel(t.selector.value, t.descriptions[i]), b)] + KidsFrom(t, i + 1)
  }

  /** The child rows a node gets. */
  function ChildRows(t: TreeNode): seq<ChildRow>
    requires Described(t)
  {
    KidsFrom(t, 0)
  }

  /** Child rows stand for well-formed subtrees and carry non-empty labels. */
  lemma {:induction false} KidsFromRows(t: TreeNode, i: nat)
    requires WellFormed(t)
    ensures forall m :: 0 <= m < |KidsFrom(t, i)| ==>
      KidsFrom(t, i)[m].caption != [] && WellFormed(KidsFrom(t, i)[m].node)
    decreases |t.branches| - i
  {
    if t.selector.Some? && i < |t.branches| {
      KidsFromRows(t, i + 1);
    }
  }

  /** The indices of the non-empty branches of a node from branch i on, in
      increasing order. */
  function NonEmptyFrom(t: TreeNode, i: nat): (idx: seq<nat>)
    ensures forall m :: 0 <= m < |idx| ==> i <= idx[m] < |t.branches| && t.branches[idx[m]].Some?
    ensures forall m, n :: 0 <= m < n < |idx| ==> idx[m] < idx[n]
    ensures forall j :: j in idx <==> i <= j < |t.branches| && t.branches[j].Some?
    decreases |t.branches| - i
  {
    if i >= |t.branches| then []
    else if t.branches[i].Some? then [i] + NonEmptyFrom(t, i + 1)
    else NonEmptyFrom(t, i + 1)
  }

  /** The child row for non-empty branch j: labelled after the branch,
      standing for its subtree. */
  function RowFor(t: TreeNode, j: nat): ChildRow
    requires Described(t) && t.selector.Some? && j < |t.branches| && t.branches[j].Some?
  {
    ChildRow(BranchLabel(t.selector.value, t.descriptions[j]), t.branches[j].value)
  }

  /** An internal node has as many child rows as non-empty branches. */
  lemma {:induction false} KidsFromCount(t: TreeNode, i: nat)
    requires Described(t) && t.selector.Some?
    ensures |KidsFrom(t, i)| == |NonEmptyFrom(t, i)|
    decreases |t.branches| - i
  {
    if i < |t.branches| {
      KidsFromCount(t, i + 1);
    }
  }

  /** The m-th child row of an internal node is the row of its m-th
      non-empty branch. */
  lemma {:induction false} KidsFromAt(t: TreeNode, i: nat, m: nat)
    requires Described(t) && t.selector.Some?
    requires m < |NonEmptyFrom(t, i)|
    ensures m < |KidsFrom(t, i)| && KidsFrom(t, i)[m] == RowFor(t, NonEmptyFrom(t, i)[m])
    decreases |t.branches| - i
  {
    KidsFromCount(t, i);
    if t.branches[i].None? {
      KidsFromAt(t, i + 1, m);
    } else if m > 0 {
      KidsFromAt(t, i + 1, m - 1);
    }
  }

  /** The nodes of a tree in the order a full rebuild creates their rows:
      the node itself, then each non-empty branch's subtree in branch order. */
  function Preorder(t: TreeNode): (r: seq<TreeNode>)
    decreases t, 1, 0
  {
    [t] + Below(t, 0)
  }

  /** The rows created for branches i, i+1, ... of a node and their subtrees. */
  function Below(t: TreeNode, i: nat): (r: seq<TreeNode>)
    decreases t, 0, |t.branches| - i
  {
    if t.selector.None? || i >= |t.branches| then []
    else (match t.branches[i]
      case None => []
      case Some(b) => Preorder(b)) + Below(t, i + 1)
  }

  /** The number of nodes of a tree: the node itself plus, for an internal
      node, the sizes of the subtrees on its non-empty branches. */
  function Size(t: TreeNode): (n: nat)
    ensures n >= 1
    decreases t, 1, 0
  {
    1 + (if t.selector.None? then 0 else SizesAt(t, NonEmptyFrom(t, 0)))
  }

  /** The total size of the subtrees on the branches listed in idx. */
  function SizesAt(t: TreeNode, idx: seq<nat>): nat
    requires forall m :: 0 <= m < |idx| ==> idx[m] < |t.branches| && t.branches[idx[m]].Some?
    decreases t, 0, |idx|
  {
    if idx == [] then 0 else Size(t.branches[idx[0]].value) + SizesAt(t, idx[1..])
  }

  /** A rebuild creates exactly one row per node of the tree, the root's first. */
  lemma {:induction false} PreorderSize(t: TreeNode)
    ensures |Preorder(t)| == Size(t) && Preorder(t)[0] == t
    decreases t, 1, 0
  {
    BelowSize(t, 0);
  }

  lemma {:induction false} BelowSize(t: TreeNode, i: nat)
    ensures |Below(t, i)| == if t.selector.None? then 0 else SizesAt(t, NonEmptyFrom(t, i))
    decreases t, 0, |t.branches| - i
  {
    if t.selector.Some? && i < |t.branches| {
      var rest := NonEmptyFrom(t, i + 1);
      match t.branches[i] {
        case None =>
        case Some(b) =>
          assert ([i] + rest)[1..] == rest;
          PreorderSize(b);
      }
      BelowSize(t, i + 1);
    }
  }
}
