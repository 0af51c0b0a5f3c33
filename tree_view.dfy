/** The viewer widget with its toolkit parts taken away: a list view held as
    an arena of rows (first-column label and statistic texts, open flag,
    parent link, child list, and the tree node each row stands for), the five
    column switches, the current target class and the rule text. */
module TreeViewer {
  import opened Wrappers
  import opened ClassificationTree
  import opened Columns
  import opened RowPaths
  import opened Rules

  /** The formatted text of numeric slot j of a node (the majority class's
      probability, the instance count, the class distribution), at the
      widget's fixed number precision. */
  type SlotText = (TreeNode, nat) -> string

  /** The formatted probability, in percent, of class value t at a node. */
  type TargetText = (TreeNode, int) -> string

  /** The five cells of a node, slot by slot, for target class tar: the
      Class cell is the node's majority class as text, only the P(Target) slot
      depends on the target, and the rest are formatted statistics. */
  function Cells(stat: SlotText, prob: TargetText, n: TreeNode, tar: int): (colf: seq<string>)
    ensures |colf| == NumSlots && colf[Majority] == n.majority && colf[PTarget] == prob(n, tar)
    ensures forall j :: Majority < j < NumSlots && j != PTarget ==> colf[j] == stat(n, j)
  {
    [n.majority, stat(n, PMajority), prob(n, tar), stat(n, Instances), stat(n, Distribution)]
  }

  /** The cells of every row, for target class tar. */
  function RowCells(stat: SlotText, prob: TargetText, node: seq<TreeNode>, tar: int): (cells: seq<seq<string>>)
    ensures |cells| == |node|
  {
    seq(|node|, k requires 0 <= k < |node| => Cells(stat, prob, node[k], tar))
  }

  /** The target probability cell of every row, for target class tar. */
  function TargetCells(prob: TargetText, node: seq<TreeNode>, tar: int): (vals: seq<string>)
    ensures |vals| == |node|
  {
    seq(|node|, k requires 0 <= k < |node| => prob(node[k], tar))
  }

  /** The texts of a newly created row: its label, and empty statistic columns. */
  function Blank(caption: string): (text: seq<string>)
    ensures |text| == NumColumns && text[0] == caption
  {
    [caption, "", "", "", "", ""]
  }

  /** The first-column text of each row. */
  function Labels(text: seq<seq<string>>): (labels: seq<string>)
    ensures |labels| == |text|
  {
    seq(|text|, k requires 0 <= k < |text| => if text[k] == [] then "" else text[k][0])
  }

  lemma LabelsPrefix(text: seq<seq<string>>, text': seq<seq<string>>)
    requires text <= text'
    ensures Labels(text) <= Labels(text')
  {
    assert Labels(text')[..|text|] == Labels(text);
  }

  /** The parallel row sequences have one entry per row, form one tree, and
      every row has a text for each column. */
  ghost predicate Arena(text: seq<seq<string>>, open: seq<bool>, parent: seq<int>,
                        kids: seq<seq<nat>>, node: seq<TreeNode>)
  {
    && |text| == |open| == |parent| == |kids| == |node|
    && Shaped(parent, kids)
    && forall k :: 0 <= k < |text| ==> |text[k]| == NumColumns
  }

  /** What the rows listed in ks show in their first column and stand for. */
  function LabelRows(labels: seq<string>, node: seq<TreeNode>, ks: seq<nat>): (r: seq<ChildRow>)
    requires forall m :: 0 <= m < |ks| ==> ks[m] < |labels| && ks[m] < |node|
    ensures |r| == |ks|
  {
    seq(|ks|, m requires 0 <= m < |ks| => ChildRow(labels[ks[m]], node[ks[m]]))
  }

  lemma LabelRowsSnoc(labels: seq<string>, node: seq<TreeNode>, ks: seq<nat>, x: nat)
    requires forall m :: 0 <= m < |ks| ==> ks[m] < |labels| && ks[m] < |node|
    requires x < |labels| && x < |node|
    ensures LabelRows(labels, node, ks + [x]) == LabelRows(labels, node, ks) + [ChildRow(labels[x], node[x])]
  {
  }

  lemma LabelRowsExtend(labels: seq<string>, node: seq<TreeNode>, labels': seq<string>, node': seq<TreeNode>, ks: seq<nat>)
    requires labels <= labels' && node <= node'
    requires forall m :: 0 <= m < |ks| ==> ks[m] < |labels| && ks[m] < |node|
    ensures LabelRows(labels', node', ks) == LabelRows(labels, node, ks)
  {
    forall m | 0 <= m < |ks|
      ensures labels'[ks[m]] == labels[ks[m]] && node'[ks[m]] == node[ks[m]]
    {
      assert labels'[..|labels|][ks[m]] == labels'[ks[m]];
      assert node'[..|node|][ks[m]] == node'[ks[m]];
    }
  }

  /** Row j has exactly the child rows its node calls for, in branch order:
      one per non-empty branch, with the branch's label, standing for the
      branch's subtree. */
  ghost predicate Mirrored(labels: seq<string>, kids: seq<seq<nat>>, node: seq<TreeNode>, j: nat)
    requires j < |kids| && j < |node|
  {
    && WellFormed(node[j])
    && (forall m :: 0 <= m < |kids[j]| ==> kids[j][m] < |labels| && kids[j][m] < |node|)
    && LabelRows(labels, node, kids[j]) == ChildRows(node[j])
  }

  /** Appending rows, and changing the child lists of rows outside lo..hi,
      keeps the rows strictly between lo and hi mirrored. */
  lemma MirroredExtend(labels: seq<string>, kids: seq<seq<nat>>, node: seq<TreeNode>,
                       labels': seq<string>, kids': seq<seq<nat>>, node': seq<TreeNode>, lo: nat, hi: nat)
    requires hi <= |kids| && hi <= |node| && hi <= |kids'|
    requires forall j :: lo < j < hi ==> Mirrored(labels, kids, node, j)
    requires labels <= labels' && node <= node'
    requires forall j :: lo < j < hi ==> kids'[j] == kids[j]
    ensures forall j :: lo < j < hi ==> Mirrored(labels', kids', node', j)
  {
    forall j | lo < j < hi
      ensures Mirrored(labels', kids', node', j)
    {
      assert Mirrored(labels, kids, node, j);
      assert node'[..|node|][j] == node'[j];
      LabelRowsExtend(labels, node, labels', node', kids[j]);
    }
  }

  /** While row p's children are being created: they are listed in order and
      match the child rows of n's branches before branch i. */
  ghost predicate Building(n: TreeNode, p: nat, i: nat, labels: seq<string>, kids: seq<seq<nat>>, node: seq<TreeNode>)
  {
    && WellFormed(n)
    && p < |kids|
    && (forall m :: 0 <= m < |kids[p]| ==> kids[p][m] < |labels| && kids[p][m] < |node|)
    && LabelRows(labels, node, kids[p]) + KidsFrom(n, i) == ChildRows(n)
  }

  /** Branch i got row li, and li's subtree was created after it. */
  lemma BuildingStep(n: TreeNode, p: nat, i: nat, b: TreeNode,
                     labels0: seq<string>, kids0: seq<seq<nat>>, node0: seq<TreeNode>,
                     labels: seq<string>, kids: seq<seq<nat>>, node: seq<TreeNode>)
    requires Building(n, p, i, labels0, kids0, node0)
    requires n.selector.Some? && i < |n.branches| && n.branches[i] == Some(b)
    requires labels0 <= labels && node0 <= node && |node0| < |node| && |node0| < |labels|
    requires labels[|node0|] == BranchLabel(n.selector.value, n.descriptions[i]) && node[|node0|] == b
    requires p < |kids| && kids[p] == kids0[p] + [|node0|]
    ensures Building(n, p, i + 1, labels, kids, node)
  {
    LabelRowsExtend(labels0, node0, labels, node, kids0[p]);
    LabelRowsSnoc(labels, node, kids0[p], |node0|);
  }

  /** The rows after p are open and show only their label. */
  ghost predicate NewRowsBlank(text: seq<seq<string>>, open: seq<bool>, p: nat)
  {
    && |open| == |text|
    && forall k :: p < k < |text| ==> open[k] && text[k] != [] && text[k] == Blank(text[k][0])
  }

  /** The rows mirror the tree of the last full rebuild: one row per node in
      creation order, the top row labelled "<root>", and each row with the
      child rows its node calls for. With no tree there are no rows. */
  ghost predicate MirrorsTree(tree: Option<TreeNode>, labels: seq<string>, kids: seq<seq<nat>>, node: seq<TreeNode>)
  {
    && |labels| == |kids| == |node|
    && match tree
       case None => node == []
       case Some(t) =>
         && WellFormed(t)
         && node == Preorder(t)
         && labels[0] == RootLabel
         && forall j :: 0 <= j < |node| ==> Mirrored(labels, kids, node, j)
  }

  /** Changing statistic texts while keeping every label keeps the rows valid. */
  lemma Retext(tree: Option<TreeNode>, text: seq<seq<string>>, text': seq<seq<string>>, open: seq<bool>,
               parent: seq<int>, kids: seq<seq<nat>>, node: seq<TreeNode>)
    requires Arena(text, open, parent, kids, node) && MirrorsTree(tree, Labels(text), kids, node)
    requires |text'| == |text|
    requires forall k :: 0 <= k < |text| ==> |text'[k]| == NumColumns && text'[k][0] == text[k][0]
    ensures Arena(text', open, parent, kids, node) && MirrorsTree(tree, Labels(text'), kids, node)
  {
    assert Labels(text') == Labels(text);
  }

  /** How a row's open flag ends up when the view is expanded to level lev
      from a row that is d steps above it: open above the level, closed at
      it, as it was below it or outside the subtree. */
  function LevelOpen(d: Option<nat>, lev: nat, was: bool): bool
  {
    match d
    case Some(e) => if e < lev then true else if e == lev then false else was
    case None => was
  }

  /** One iteration of the creating loop, for the node sequence: row |node0|
      holds branch i's subtree, created after it. */
  lemma AfterBranchNodes(n: TreeNode, i: nat, b: TreeNode, node0: seq<TreeNode>, node: seq<TreeNode>)
    requires n.selector.Some? && i < |n.branches| && n.branches[i] == Some(b)
    requires node == node0 + [b] + Below(b, 0)
    ensures node0 <= node && node + Below(n, i + 1) == node0 + Below(n, i)
  {
    var rest := Below(n, i + 1);
    assert Below(n, i) == Preorder(b) + rest;
    assert node == node0 + Preorder(b);
    calc {
      node + rest;
      (node0 + Preorder(b)) + rest;
      node0 + (Preorder(b) + rest);
    }
  }

  /** One iteration of the creating loop, for the mirrored child lists: row
      li = |node0| was appended as the last child of row p, labelled for
      branch i, and li's subtree was created after it. */
  lemma AfterBranchMirror(n: TreeNode, p: nat, i: nat, b: TreeNode,
                          text0: seq<seq<string>>, kids0: seq<seq<nat>>, node0: seq<TreeNode>,
                          text: seq<seq<string>>, kids: seq<seq<nat>>, node: seq<TreeNode>)
    requires WellFormed(n) && n.selector.Some? && i < |n.branches| && n.branches[i] == Some(b)
    requires |text0| == |kids0| == |node0| && p < |node0|
    requires Building(n, p, i, Labels(text0), kids0, node0)
    requires forall j :: p < j < |node0| ==> Mirrored(Labels(text0), kids0, node0, j)
    requires text0 + [Blank(BranchLabel(n.selector.value, n.descriptions[i]))] <= text
    requires (kids0[p := kids0[p] + [|node0|]] + [[]])[..|node0|] <= kids
    requires node0 + [b] <= node && |text| == |kids| == |node|
    requires forall j :: |node0| <= j < |node| ==> Mirrored(Labels(text), kids, node, j)
    ensures kids0[..p] <= kids
    ensures Building(n, p, i + 1, Labels(text), kids, node)
    ensures forall j :: p < j < |node| ==> Mirrored(Labels(text), kids, node, j)
  {
    var li := |node0|;
    var caption := BranchLabel(n.selector.value, n.descriptions[i]);
    var text1 := text0 + [Blank(caption)];
    var kids1 := kids0[p := kids0[p] + [li]] + [[]];
    assert text0 <= text1;
    LabelsPrefix(text0, text);
    LabelsPrefix(text1, text);
    assert kids[p] == kids1[p];
    assert kids[..p] == kids0[..p] by {
      assert kids1[..li][..p] == kids0[..p];
    }
    assert Labels(text)[li] == caption by {
      assert text[li] == text1[li];
    }
    assert node[li] == b;
    BuildingStep(n, p, i, b, Labels(text0), kids0, node0, Labels(text), kids, node);
    forall j | p < j < li
      ensures kids[j] == kids0[j]
    {
      assert kids1[..li][j] == kids[j];
    }
    MirroredExtend(Labels(text0), kids0, node0, Labels(text), kids, node, p, li);
  }

  /** One iteration of the creating loop, for the rows' texts: the appended
      row and every row of its subtree start blank and open. */
  lemma AfterBranchBlank(p: nat, caption: string, text0: seq<seq<string>>, open0: seq<bool>,
                         text: seq<seq<string>>, open: seq<bool>)
    requires |text0| == |open0| && p < |text0| && |text| == |open|
    requires NewRowsBlank(text0, open0, p)
    requires text0 + [Blank(caption)] <= text && open0 + [true] <= open
    requires NewRowsBlank(text, open, |text0|)
    ensures NewRowsBlank(text, open, p)
  {
    var li := |text0|;
    forall k | p < k < |text|
      ensures open[k] && text[k] != [] && text[k] == Blank(text[k][0])
    {
      if k <= li {
        assert text[k] == (text0 + [Blank(caption)])[k] && open[k] == (open0 + [true])[k];
      }
    }
  }

  /** Once every branch is done, row p's child rows are those of its node. */
  lemma BuildingDone(n: TreeNode, p: nat, labels: seq<string>, kids: seq<seq<nat>>, node: seq<TreeNode>)
    requires Building(n, p, |n.branches|, labels, kids, node)
    requires p < |node| && node[p] == n
    ensures Mirrored(labels, kids, node, p)
  {
    assert KidsFrom(n, |n.branches|) == [];
  }

  /** Whether each row lies in the subtree of row i. */
  ghost function Subtree(parent: seq<int>, i: nat): (r: seq<bool>)
    ensures |r| == |parent|
  {
    seq(|parent|, k requires 0 <= k < |parent| => Dist(parent, k, i).Some?)
  }

  /** Whether each row has been reached by a walk from row i once it has
      handled row i itself and the subtrees of the children in done. */
  ghost function Reached(parent: seq<int>, done: seq<nat>, i: nat): (r: seq<bool>)
    ensures |r| == |parent|
  {
    seq(|parent|, k requires 0 <= k < |parent| => Covered(parent, done, k, i))
  }

  lemma ReachedEnds(parent: seq<int>, kids: seq<seq<nat>>, i: nat)
    requires Shaped(parent, kids) && i < |kids|
    ensures forall k :: 0 <= k < |parent| ==> (Reached(parent, kids[i][..0], i)[k] <==> k == i)
    ensures Reached(parent, kids[i][..|kids[i]|], i) == Subtree(parent, i)
  {
    assert kids[i][..0] == [] && kids[i][..|kids[i]|] == kids[i];
    forall k | 0 <= k < |parent|
      ensures (Covered(parent, [], k, i) <==> k == i)
      ensures (Covered(parent, kids[i], k, i) <==> Dist(parent, k, i).Some?)
    {
      CoveredEnds(parent, kids, i, k);
    }
  }

  lemma ReachedStep(parent: seq<int>, kids: seq<seq<nat>>, i: nat, m: nat)
    requires Shaped(parent, kids) && i < |kids| && m < |kids[i]|
    ensures forall k :: 0 <= k < |parent| ==>
      (Reached(parent, kids[i][..m + 1], i)[k] <==> Reached(parent, kids[i][..m], i)[k] || Subtree(parent, kids[i][m])[k])
  {
    forall k | 0 <= k < |parent|
      ensures Covered(parent, kids[i][..m + 1], k, i) <==>
        Covered(parent, kids[i][..m], k, i) || Dist(parent, k, kids[i][m]).Some?
    {
      CoveredStep(parent, kids, i, m, k);
    }
  }

  /** The refresh walk's effect: each row marked in reach has its cells
      written into the texts it had; every other row keeps its texts. */
  ghost predicate RefreshedOn(reach: seq<bool>, flags: seq<bool>, cells: seq<seq<string>>,
                              text0: seq<seq<string>>, text: seq<seq<string>>)
  {
    && |flags| == NumSlots && |reach| == |cells| == |text0| == |text|
    && forall k :: 0 <= k < |text| ==>
         && |cells[k]| == NumSlots && |text0[k]| == NumColumns
         && text[k] == if reach[k] then Placed(flags, cells[k], text0[k]) else text0[k]
  }

  /** Refreshing the rows of reach0 and then those of reach1 refreshes their
      union: writing a row's cells twice is writing them once. */
  lemma RefreshUnion(reach0: seq<bool>, reach1: seq<bool>, reach: seq<bool>, flags: seq<bool>,
                     cells: seq<seq<string>>, text0: seq<seq<string>>, text1: seq<seq<string>>, text: seq<seq<string>>)
    requires RefreshedOn(reach0, flags, cells, text0, text1)
    requires RefreshedOn(reach1, flags, cells, text1, text)
    requires |reach| == |text| && forall k :: 0 <= k < |text| ==> (reach[k] <==> reach0[k] || reach1[k])
    ensures RefreshedOn(reach, flags, cells, text0, text)
  {
    forall k | 0 <= k < |text| && reach0[k] && reach1[k]
      ensures text[k] == Placed(flags, cells[k], text0[k])
    {
      PlacedIdempotent(flags, cells[k], text0[k]);
    }
  }

  /** Refreshing keeps each row's label and its number of columns. */
  lemma RefreshKeepsLabels(reach: seq<bool>, flags: seq<bool>, cells: seq<seq<string>>,
                           text0: seq<seq<string>>, text: seq<seq<string>>)
    requires RefreshedOn(reach, flags, cells, text0, text)
    ensures forall k :: 0 <= k < |text| ==> |text[k]| == NumColumns && text[k][0] == text0[k][0]
  {
    forall k | 0 <= k < |text| && reach[k]
      ensures text[k][0] == text0[k][0]
    {
      PlacedSpec(flags, cells[k], text0[k]);
    }
  }

  /** The target walk's effect: each row marked in reach has column col set
      to its entry of vals; every other row keeps its texts. */
  ghost predicate RetargetedOn(reach: seq<bool>, col: nat, vals: seq<string>,
                               text0: seq<seq<string>>, text: seq<seq<string>>)
  {
    && |reach| == |vals| == |text0| == |text|
    && forall k :: 0 <= k < |text| ==>
         && col < |text0[k]|
         && text[k] == if reach[k] then text0[k][col := vals[k]] else text0[k]
  }

  lemma RetargetUnion(reach0: seq<bool>, reach1: seq<bool>, reach: seq<bool>, col: nat, vals: seq<string>,
                      text0: seq<seq<string>>, text1: seq<seq<string>>, text: seq<seq<string>>)
    requires RetargetedOn(reach0, col, vals, text0, text1)
    requires RetargetedOn(reach1, col, vals, text1, text)
    requires |reach| == |text| && forall k :: 0 <= k < |text| ==> (reach[k] <==> reach0[k] || reach1[k])
    ensures RetargetedOn(reach, col, vals, text0, text)
  {
  }

  /** The expanding walk's effect from row i to level lev: each row marked in
      reach gets the open flag its distance below i calls for; every other
      row keeps its flag. */
  ghost predicate ExpandedOn(reach: seq<bool>, parent: seq<int>, i: nat, lev: nat,
                             open0: seq<bool>, open: seq<bool>)
  {
    && |reach| == |parent| == |open0| == |open|
    && forall k :: 0 <= k < |open| ==>
         open[k] == if reach[k] then LevelOpen(Dist(parent, k, i), lev, open0[k]) else open0[k]
  }

  /** Expanding from row i to level lev covers, below its child c, the same
      rows as expanding from c to level lev - 1. */
  lemma ExpandUnion(reach0: seq<bool>, reach: seq<bool>, parent: seq<int>, i: nat, c: nat, lev: nat,
                    open0: seq<bool>, open1: seq<bool>, open: seq<bool>)
    requires lev > 0 && c < |parent| && parent[c] == i && i < c
    requires ExpandedOn(reach0, parent, i, lev, open0, open1)
    requires ExpandedOn(Subtree(parent, c), parent, c, lev - 1, open1, open)
    requires |reach| == |open| && forall k :: 0 <= k < |open| ==> (reach[k] <==> reach0[k] || Subtree(parent, c)[k])
    ensures ExpandedOn(reach, parent, i, lev, open0, open)
  {
    forall k | 0 <= k < |open| && Subtree(parent, c)[k]
      ensures open[k] == LevelOpen(Dist(parent, k, i), lev, open0[k])
    {
      DistThroughChild(parent, k, i, c, Dist(parent, k, c).value);
    }
  }

  /** Every row of a non-empty arena lies in the subtree of the first row. */
  lemma AllInFirst(parent: seq<int>, kids: seq<seq<nat>>)
    requires Shaped(parent, kids)
    ensures forall k :: 0 <= k < |parent| ==> Subtree(parent, 0)[k]
  {
    forall k | 0 <= k < |parent|
      ensures Dist(parent, k, 0).Some?
    {
      AllBelowFirst(parent, kids, k);
    }
  }

  /** Rewriting the P(Target) column of a refreshed row with the probability
      of a new target gives the row a full refresh for the new target would. */
  lemma TargetAgreesWithRefresh(flags: seq<bool>, stat: SlotText, prob: TargetText, n: TreeNode,
                                t0: int, t: int, text: seq<string>)
    requires |flags| == NumSlots && flags[PTarget] && |text| == NumColumns
    ensures ColumnOf(flags, PTarget) < NumColumns
    ensures Placed(flags, Cells(stat, prob, n, t0), text)[ColumnOf(flags, PTarget) := prob(n, t)]
         == Placed(flags, Cells(stat, prob, n, t), text)
  {
    var col := ColumnOf(flags, PTarget);
    SlotAtIff(flags, col, PTarget);
    forall c | 0 <= c < NumColumns && c != col
      ensures Placed(flags, Cells(stat, prob, n, t0), text)[c] == Placed(flags, Cells(stat, prob, n, t), text)[c]
    {
      SlotAtIff(flags, c, PTarget);
    }
  }

  /** When the Class column is shown it is the first statistic column, and a
      refreshed row shows there the same class text the rule for that row
      concludes with. */
  lemma ClassColumnIsRuleClass(flags: seq<bool>, stat: SlotText, prob: TargetText, n: TreeNode,
                               tar: int, text: seq<string>, tx: string, className: string)
    requires |flags| == NumSlots && flags[Majority] && |text| == NumColumns
    ensures ColumnOf(flags, Majority) == 1
    ensures Placed(flags, Cells(stat, prob, n, tar), text)[1] == n.majority
    ensures var r := RuleText(tx, className, n.majority);
      |r| >= |n.majority| && r[|r| - |n.majority|..] == n.majority
  {
    assert flags[..Majority] == [];
    PlacedSpec(flags, Cells(stat, prob, n, tar), text);
    var r := RuleText(tx, className, n.majority);
    var head := if tx != "" then "IF " + tx + "\nTHEN " + className + " = " else className + " = ";
    assert r == head + n.majority;
  }

  /** Every row below the top-level row shows a non-empty label. */
  lemma CaptionsNonEmpty(tree: Option<TreeNode>, labels: seq<string>, parent: seq<int>,
                         kids: seq<seq<nat>>, node: seq<TreeNode>, k: nat)
    requires Shaped(parent, kids) && |parent| == |node| && MirrorsTree(tree, labels, kids, node)
    requires 0 < k < |node|
    ensures labels[k] != ""
  {
    var p := parent[k];
    assert k in kids[p];
    var m :| 0 <= m < |kids[p]| && kids[p][m] == k;
    assert Mirrored(labels, kids, node, p);
    KidsFromRows(node[p], 0);
    assert LabelRows(labels, node, kids[p])[m].caption == labels[k];
  }

  /** After a rebuild's creating walk, the rows mirror the tree. */
  lemma Rebuilt(t: TreeNode, text: seq<seq<string>>, kids: seq<seq<nat>>, node: seq<TreeNode>)
    requires WellFormed(t) && |text| == |kids| == |node|
    requires [Blank(RootLabel)] <= text && node == [t] + Below(t, 0)
    requires forall j :: 0 <= j < |node| ==> Mirrored(Labels(text), kids, node, j)
    ensures MirrorsTree(Some(t), Labels(text), kids, node)
  {
    assert text[0] == Blank(RootLabel);
  }

  /** Each row with the texts of a new row carrying its label. */
  function BlankRows(labels: seq<string>): (text: seq<seq<string>>)
    ensures |text| == |labels| && Labels(text) == labels
    ensures forall k :: 0 <= k < |text| ==> |text[k]| == NumColumns
  {
    seq(|labels|, k requires 0 <= k < |labels| => Blank(labels[k]))
  }

  /** A row whose columns were reset and whose cells were then written shows
      its label, the cell of each slot that is on at that slot's column, and
      nothing in the columns past the shown ones. */
  lemma ResetRowShowsOnlyShown(flags: seq<bool>, colf: seq<string>, caption: string)
    requires |flags| == NumSlots && |colf| == NumSlots
    ensures Placed(flags, colf, Blank(caption))[0] == caption
    ensures forall j :: 0 <= j < NumSlots && flags[j] ==> Placed(flags, colf, Blank(caption))[ColumnOf(flags, j)] == colf[j]
    ensures forall c :: Count(flags) < c < NumColumns ==> Placed(flags, colf, Blank(caption))[c] == ""
  {
    PlacedSpec(flags, colf, Blank(caption));
  }

  /** After expanding from the top-level row to level lev, every row at most
      lev levels deep has all its ancestors open, so it is visible, and a row
      deeper than lev has its ancestor at depth lev closed, so it is hidden. */
  lemma ExpandVisible(parent: seq<int>, kids: seq<seq<nat>>, lev: nat, open0: seq<bool>, open: seq<bool>,
                      k: nat, a: nat, e: nat)
    requires Shaped(parent, kids) && k < |parent|
    requires ExpandedOn(Subtree(parent, 0), parent, 0, lev, open0, open)
    requires Dist(parent, k, a) == Some(e) && e >= 1
    ensures Dist(parent, k, 0).Some?
    ensures Dist(parent, k, 0).value <= lev ==> open[a]
    ensures Dist(parent, k, 0).value == lev + e ==> !open[a]
  {
    AllBelowFirst(parent, kids, k);
    AllBelowFirst(parent, kids, a);
    DistVia(parent, k, a, e);
  }

  class TreeView {
    /** The statistic cell formatting of this widget. */
    const stat: SlotText
    /** The target probability formatting of this widget. */
    const prob: TargetText
    /** Whether each of the five statistic slots is shown. */
    const shown: array<bool>
    /** The target class whose probability the P(Target) slot shows. */
    var tar: int
    /** The tree last received, if any. */
    var tree: Option<TreeNode>
    /** The column headers of the list view. */
    var headers: seq<string>
    /** Per row: the text of each column, column 0 being the label. */
    var text: seq<seq<string>>
    /** Per row: whether it is expanded. */
    var open: seq<bool>
    /** Per row: the row it hangs under, -1 for the top row. */
    var parent: seq<int>
    /** Per row: its child rows, in order. */
    var kids: seq<seq<nat>>
    /** Per row: the tree node it stands for. */
    var node: seq<TreeNode>
    /** The rule text shown below the list. */
    var rule: string

    ghost predicate Valid()
      reads this, shown
    {
      && shown.Length == NumSlots
      && |headers| >= 1 && headers[0] == TreeTitle
      && Arena(text, open, parent, kids, node)
      && MirrorsTree(tree, Labels(text), kids, node)
    }

    /** A viewer with no tree and the given column switches (the saved settings). */
    constructor (stat: SlotText, prob: TargetText, flags: seq<bool>)
      requires |flags| == NumSlots
      ensures Valid() && fresh(shown) && shown[..] == flags
      ensures this.stat == stat && this.prob == prob && tar == 0 && tree == None
      ensures headers == [TreeTitle] && node == [] && rule == ""
    {
      this.stat, this.prob := stat, prob;
      shown := new bool[NumSlots](j => 0 <= j < |flags| && flags[j]);
      tar := 0;
      tree := None;
      headers := [TreeTitle];
      text, open, parent, kids, node := [], [], [], [], [];
      rule := "";
    }

    /** Drops every statistic column, and with it every row's statistic
        texts, so each row keeps only its label; then adds one empty column per
        slot that is on, in slot order. */
    method ResetColumns()
      requires shown.Length == NumSlots && |headers| >= 1
      modifies this`headers, this`text
      ensures headers == [old(headers[0])] + ShownTitles(shown[..])
      ensures text == BlankRows(Labels(old(text)))
    {
      while |headers| > 1
        invariant |headers| >= 1 && headers[0] == old(headers[0])
        invariant text == old(text)
      {
        headers := headers[..1] + headers[2..];
      }
      text := BlankRows(Labels(text));
      for j := 0 to NumSlots
        invariant headers == [old(headers[0])] + ShownTitles(shown[..j])
        invariant text == BlankRows(Labels(old(text)))
      {
        assert shown[..j + 1][..j] == shown[..j];
        if shown[j] {
          headers := headers + [Titles[j]];
        }
      }
      assert shown[..NumSlots] == shown[..];
    }

    /** Creates, below the last row p standing for node n, one open row per
        non-empty branch of n, labelled after the branch, each followed by the
        rows of its subtree: depth first, in branch order. */
    method WalkCreate(n: TreeNode, p: nat)
      requires Arena(text, open, parent, kids, node)
      requires p + 1 == |node| && node[p] == n && kids[p] == [] && WellFormed(n)
      modifies this`text, this`open, this`parent, this`kids, this`node
      ensures Arena(text, open, parent, kids, node)
      ensures node == old(node) + Below(n, 0)
      ensures old(text) <= text && old(open) <= open
      ensures old(parent) <= parent
      ensures old(kids)[..p] <= kids
      ensures forall j :: p <= j < |node| ==> Mirrored(Labels(text), kids, node, j)
      ensures NewRowsBlank(text, open, p)
      decreases n, 1
    {
      if n.selector.None? {
        assert Below(n, 0) == [] && ChildRows(n) == [];
        assert LabelRows(Labels(text), node, kids[p]) == [];
        return;
      }
      var i := 0;
      while i < |n.branches|
        invariant 0 <= i <= |n.branches|
        invariant Arena(text, open, parent, kids, node)
        invariant p < |node| && node[p] == n
        invariant node + Below(n, i) == old(node) + Below(n, 0)
        invariant old(text) <= text && old(open) <= open
        invariant old(parent) <= parent
        invariant old(kids)[..p] <= kids
        invariant Building(n, p, i, Labels(text), kids, node)
        invariant forall j :: p < j < |node| ==> Mirrored(Labels(text), kids, node, j)
        invariant NewRowsBlank(text, open, p)
      {
        CreateBranch(n, p, i);
        i := i + 1;
      }
      assert Below(n, i) == [];
      BuildingDone(n, p, Labels(text), kids, node);
    }

    /** One iteration of WalkCreate's loop: for a non-empty branch i, a new
        open row labelled after the branch as the last child of row p, then
        the rows of the branch's subtree. */
    method CreateBranch(n: TreeNode, p: nat, i: nat)
      requires WellFormed(n) && n.selector.Some? && i < |n.branches|
      requires Arena(text, open, parent, kids, node) && p < |node|
      requires Building(n, p, i, Labels(text), kids, node)
      requires forall j :: p < j < |node| ==> Mirrored(Labels(text), kids, node, j)
      requires NewRowsBlank(text, open, p)
      modifies this`text, this`open, this`parent, this`kids, this`node
      ensures Arena(text, open, parent, kids, node)
      ensures old(node) <= node && node + Below(n, i + 1) == old(node) + Below(n, i)
      ensures old(text) <= text && old(open) <= open
      ensures old(parent) <= parent
      ensures old(kids)[..p] <= kids
      ensures Building(n, p, i + 1, Labels(text), kids, node)
      ensures forall j :: p < j < |node| ==> Mirrored(Labels(text), kids, node, j)
      ensures NewRowsBlank(text, open, p)
      decreases n, 0
    {
      if n.branches[i].None? {
        assert KidsFrom(n, i) == KidsFrom(n, i + 1);
        assert Below(n, i) == Below(n, i + 1);
        return;
      }
      var b := n.branches[i].value;
      var caption := BranchLabel(n.selector.value, n.descriptions[i]);
      ghost var text0, open0, parent0, kids0, node0 := text, open, parent, kids, node;
      AddRow(p, caption, b);
      WalkCreate(b, |node| - 1);
      AfterBranchNodes(n, i, b, node0, node);
      AfterBranchMirror(n, p, i, b, text0, kids0, node0, text, kids, node);
      AfterBranchBlank(p, caption, text0, open0, text, open);
    }

    /** The column headers, then either the rows of a new tree (rebuild) or
        only their statistic cells (update), and the cells of every row. */
    method SetTreeView(updateOnly: bool)
      requires shown.Length == NumSlots && |headers| >= 1 && headers[0] == TreeTitle
      requires updateOnly ==> Valid()
      requires !updateOnly ==> tree.Some? && WellFormed(tree.value)
      modifies this`headers, this`text, this`open, this`parent, this`kids, this`node, this`rule
      ensures Valid()
      ensures headers == [TreeTitle] + ShownTitles(shown[..])
      ensures RefreshedOn(Subtree(parent, 0), shown[..], RowCells(stat, prob, node, tar), BlankRows(Labels(text)), text)
      ensures updateOnly ==>
        && open == old(open) && parent == old(parent) && kids == old(kids) && node == old(node) && rule == old(rule)
        && Labels(text) == Labels(old(text))
      ensures !updateOnly ==>
        && node == Preorder(tree.value) && rule == ""
        && (forall k :: 0 <= k < |open| ==> open[k])
    {
      ResetColumns();
      if updateOnly {
        RefreshAll();
      } else {
        Rebuild();
        RefreshAll();
      }
    }

    /** Clears the rows, then creates the open top-level row "<root>" for the
        tree's root and the rows below it, and clears the rule. */
    method Rebuild()
      requires shown.Length == NumSlots && |headers| >= 1 && headers[0] == TreeTitle
      requires tree.Some? && WellFormed(tree.value)
      modifies this`text, this`open, this`parent, this`kids, this`node, this`rule
      ensures Valid()
      ensures node == Preorder(tree.value) && rule == ""
      ensures forall k :: 0 <= k < |open| ==> open[k]
      ensures text == BlankRows(Labels(text))
    {
      var t := tree.value;
      text, open, parent, kids, node := [Blank(RootLabel)], [true], [-1], [[]], [t];
      WalkCreate(t, 0);
      rule := "";
      Rebuilt(t, text, kids, node);
      forall k | 0 <= k < |text|
        ensures text[k] == Blank(Labels(text)[k])
      {
        if k == 0 {
          assert text[0] == [Blank(RootLabel)][0];
        }
      }
      assert open[0] == [true][0];
    }

    /** Writes the statistic cells of every row, when there are rows. */
    method RefreshAll()
      requires Valid()
      modifies this`text
      ensures Valid() && Labels(text) == Labels(old(text))
      ensures RefreshedOn(Subtree(parent, 0), shown[..], RowCells(stat, prob, node, tar), old(text), text)
    {
      if |node| > 0 {
        ghost var text0 := text;
        WalkUpdate(0);
        RefreshKeepsLabels(Subtree(parent, 0), shown[..], RowCells(stat, prob, node, tar), text0, text);
        Retext(tree, text0, text, open, parent, kids, node);
      }
    }

    /** A new tree arrives: it is kept and the view rebuilt. */
    method Ctree(t: TreeNode)
      requires Valid() && WellFormed(t)
      modifies this`tree, this`headers, this`text, this`open, this`parent, this`kids, this`node, this`rule
      ensures Valid() && tree == Some(t)
      ensures headers == [TreeTitle] + ShownTitles(shown[..])
      ensures node == Preorder(t) && rule == "" && (forall k :: 0 <= k < |open| ==> open[k])
      ensures RefreshedOn(Subtree(parent, 0), shown[..], RowCells(stat, prob, node, tar), BlankRows(Labels(text)), text)
    {
      tree := Some(t);
      SetTreeView(false);
    }

    /** A column switch is toggled: the switch is set and the columns and
        cells updated. */
    method SetShown(j: nat, on: bool)
      requires Valid() && j < NumSlots
      modifies shown, this`headers, this`text, this`open, this`parent, this`kids, this`node, this`rule
      ensures Valid() && shown[..] == old(shown[..])[j := on]
      ensures headers == [TreeTitle] + ShownTitles(shown[..])
      ensures open == old(open) && parent == old(parent) && kids == old(kids) && node == old(node) && rule == old(rule)
      ensures Labels(text) == Labels(old(text))
      ensures RefreshedOn(Subtree(parent, 0), shown[..], RowCells(stat, prob, node, tar), BlankRows(Labels(text)), text)
    {
      shown[j] := on;
      SetTreeView(true);
    }

    /** A target that arrives while P(Target) is hidden is dropped: when the
        column is switched on again, every row shows the probability of the
        earlier target. */
    method HiddenTargetDropped(t: int)
      requires Valid() && !shown[PTarget]
      modifies shown, this`tar, this`headers, this`text, this`open, this`parent, this`kids, this`node, this`rule
      ensures Valid() && shown[PTarget] && tar == old(tar)
      ensures ColumnOf(shown[..], PTarget) < NumColumns
      ensures forall k :: 0 <= k < |text| ==> text[k][ColumnOf(shown[..], PTarget)] == prob(node[k], old(tar))
    {
      Target(t);
      SetShown(PTarget, true);
      ColumnOfBound(shown[..], PTarget);
      AllInFirst(parent, kids);
      forall k | 0 <= k < |text|
        ensures text[k][ColumnOf(shown[..], PTarget)] == prob(node[k], tar)
      {
        PlacedSpec(shown[..], RowCells(stat, prob, node, tar)[k], BlankRows(Labels(text))[k]);
      }
    }

    /** A new target class arrives. Nothing happens unless P(Target) is shown
        and the target differs; then the target is recorded and the P(Target)
        column of every row rewritten. */
    method Target(t: int)
      requires Valid()
      modifies this`tar, this`text
      ensures Valid()
      ensures !shown[PTarget] || t == old(tar) ==> tar == old(tar) && text == old(text)
      ensures shown[PTarget] && t != old(tar) ==>
        && tar == t && |text| == |old(text)|
        && forall k :: 0 <= k < |text| ==>
             text[k] == old(text[k])[ColumnOf(shown[..], PTarget) := prob(node[k], t)]
    {
      if shown[PTarget] && tar != t {
        tar := t;
        var idx := TargetColumn(shown[..]);
        if |node| > 0 {
          ghost var text0 := text;
          UpdateTarget(0, idx);
          AllInFirst(parent, kids);
          Retext(tree, text0, text, open, parent, kids, node);
        }
      }
    }

    /** The view is expanded to level lev: rows less than lev levels below the
        top-level row open, rows exactly lev levels below it closed, deeper
        rows as they were. */
    method ExpandTree(lev: nat)
      requires Valid()
      modifies this`open
      ensures Valid() && |open| == |old(open)|
      ensures forall k :: 0 <= k < |open| ==> open[k] == LevelOpen(Dist(parent, k, 0), lev, old(open[k]))
    {
      if |node| > 0 {
        ExpandTree0(0, lev);
        AllInFirst(parent, kids);
      }
    }

    /** A row is selected: its examples are sent on and the rule leading to
        it is shown. */
    method SelectionChanged(item: nat) returns (examples: ExampleTable)
      requires Valid() && item < |node|
      modifies this`rule
      ensures Valid()
      ensures examples == node[item].examples
      ensures rule == RuleText(Join(PathLabels(parent, Labels(text), item)), node[item].classVar, node[item].majority)
      ensures item == 0 ==> rule == node[item].classVar + " = " + node[item].majority
      ensures item > 0 ==>
        var tx := Join(PathLabels(parent, Labels(text), item));
        tx != "" && rule == "IF " + tx + "\nTHEN " + node[item].classVar + " = " + node[item].majority
    {
      examples := node[item].examples;
      var tx := Antecedent(parent, Labels(text), item);
      rule := RuleText(tx, node[item].classVar, node[item].majority);
      if item > 0 {
        CaptionsNonEmpty(tree, Labels(text), parent, kids, node, item);
      }
      RuleForm(parent, kids, Labels(text), item, node[item].classVar, node[item].majority);
    }

    /** Writes the statistic cells of row i and of every row below it, each
        row's cells going to the columns of the slots that are on. */
    method WalkUpdate(i: nat)
      requires shown.Length == NumSlots && Arena(text, open, parent, kids, node) && i < |node|
      modifies this`text
      ensures Arena(text, open, parent, kids, node)
      ensures RefreshedOn(Subtree(parent, i), shown[..], RowCells(stat, prob, node, tar), old(text), text)
      decreases |node| - i
    {
      ghost var text0 := text;
      ghost var cells := RowCells(stat, prob, node, tar);
      var r := PlaceCells(shown[..], Cells(stat, prob, node[i], tar), text[i]);
      text := text[i := r];
      ReachedEnds(parent, kids, i);
      var m := 0;
      while m < |kids[i]|
        invariant m <= |kids[i]|
        invariant Arena(text, open, parent, kids, node)
        invariant RefreshedOn(Reached(parent, kids[i][..m], i), shown[..], cells, text0, text)
      {
        var c := kids[i][m];
        ghost var text1 := text;
        WalkUpdate(c);
        ReachedStep(parent, kids, i, m);
        RefreshUnion(Reached(parent, kids[i][..m], i), Subtree(parent, c), Reached(parent, kids[i][..m + 1], i),
                     shown[..], cells, text0, text1, text);
        m := m + 1;
      }
    }

    /** Writes column col of row i and of every row below it with the
        probability of the current target class. */
    method UpdateTarget(i: nat, col: nat)
      requires Arena(text, open, parent, kids, node) && i < |node| && col < NumColumns
      modifies this`text
      ensures Arena(text, open, parent, kids, node)
      ensures RetargetedOn(Subtree(parent, i), col, TargetCells(prob, node, tar), old(text), text)
      decreases |node| - i
    {
      ghost var text0 := text;
      ghost var vals := TargetCells(prob, node, tar);
      text := text[i := text[i][col := prob(node[i], tar)]];
      ReachedEnds(parent, kids, i);
      var m := 0;
      while m < |kids[i]|
        invariant m <= |kids[i]|
        invariant Arena(text, open, parent, kids, node)
        invariant RetargetedOn(Reached(parent, kids[i][..m], i), col, vals, text0, text)
      {
        var c := kids[i][m];
        ghost var text1 := text;
        UpdateTarget(c, col);
        ReachedStep(parent, kids, i, m);
        RetargetUnion(Reached(parent, kids[i][..m], i), Subtree(parent, c), Reached(parent, kids[i][..m + 1], i),
                      col, vals, text0, text1, text);
        m := m + 1;
      }
    }

    /** Opens row i and the rows less than lev levels below it, and closes the
        rows exactly lev levels below it; deeper rows keep their flags. */
    method ExpandTree0(i: nat, lev: nat)
      requires Arena(text, open, parent, kids, node) && i < |node|
      modifies this`open
      ensures Arena(text, open, parent, kids, node)
      ensures ExpandedOn(Subtree(parent, i), parent, i, lev, old(open), open)
      decreases lev
    {
      ghost var open0 := open;
      ReachedEnds(parent, kids, i);
      if lev == 0 {
        open := open[i := false];
        return;
      }
      open := open[i := true];
      var m := 0;
      while m < |kids[i]|
        invariant m <= |kids[i]|
        invariant Arena(text, open, parent, kids, node)
        invariant ExpandedOn(Reached(parent, kids[i][..m], i), parent, i, lev, open0, open)
      {
        var c := kids[i][m];
        ghost var open1 := open;
        ExpandTree0(c, lev - 1);
        ReachedStep(parent, kids, i, m);
        ExpandUnion(Reached(parent, kids[i][..m], i), Reached(parent, kids[i][..m + 1], i),
                    parent, i, c, lev, open0, open1, open);
        m := m + 1;
      }
    }

    /** Appends a row labelled `caption` for node b as the last child of row p. */
    method AddRow(p: nat, caption: string, b: TreeNode)
      requires Arena(text, open, parent, kids, node) && p < |node|
      modifies this`text, this`open, this`parent, this`kids, this`node
      ensures Arena(text, open, parent, kids, node)
      ensures text == old(text) + [Blank(caption)] && open == old(open) + [true]
      ensures parent == old(parent) + [p] && node == old(node) + [b]
      ensures kids == old(kids)[p := old(kids[p]) + [|old(node)|]] + [[]]
    {
      ShapedAppend(parent, kids, p);
      var li := |node|;
      text := text + [Blank(caption)];
      open := open + [true];
      parent := parent + [p];
      kids := kids[p := kids[p] + [li]] + [[]];
      node := node + [b];
    }
  }
}
