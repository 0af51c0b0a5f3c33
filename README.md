# Classification tree viewer, modelled in Dafny

This project models the display logic of Orange's Classification Tree Viewer
widget (`OWClassificationTreeViewer`). The widget's parts are:

- A classification tree. Each node has an optional branch selector, a list of
  possibly empty branches with their descriptions, a majority class and its
  examples.
- A list view of rows. Each row has a text per column, an open flag, a parent
  row and its child rows, and the tree node it stands for.
- Five column switches for the statistic slots Class, P(Class), P(Target),
  #Inst and Distribution.
- The current target class and the rule text.

The list view is held as an arena: parallel sequences indexed by row number,
as fields of the class `TreeViewer.TreeView`. Row 0 is the top-level
`<root>` row. The operations of the widget update these fields in place.

Modules:

- `ClassificationTree`: the tree datatype and branch labels. It also gives the
  child rows a node calls for, and the order in which a rebuild creates rows.
- `Columns`: the statistic slots and headers. It covers how the slots that are
  on are packed into columns 1, 2, … in slot order, the cell-writing loop,
  and the P(Target) column search.
- `RowPaths`: parent links and child lists. It defines the distance between a
  row and an ancestor, and the facts the depth-first walks over child lists
  rely on.
- `Rules`: the rule text of a selected row.
- `TreeViewer`: the viewer class. Its operations are the rebuild walk, the
  refresh walk, the target update, expanding to a level, the column switch
  callback and the selection handler.

The Class cell is the node's predicted class as text, the same text the
rule for a selected row concludes with. The other cells are numbers the
widget formats as percentages, counts and a distribution. Here they are two
opaque functions given to the constructor:

- `stat(node, slot)` for the majority class's probability, the instance
  count and the distribution;
- `prob(node, t)` for the probability of class `t`.

Only P(Target) depends on the target class.

The class invariant `Valid` says the following:

- The rows form one tree.
- Every row has six texts: its label and one per possible statistic column.

`Valid` says nothing about the columns the widget does not show. Resetting
the columns and writing the cells (`SetTreeView`, `SetShown`) leaves the empty
text in every column past the shown ones (`ResetRowShowsOnlyShown`).
- When a tree is present, the rows stand for its nodes in the order of a
  depth-first walk, and row 0 is labelled `<root>`.
- Every row's children carry exactly the labels and nodes its node's non-empty
  branches call for, in branch order.

## Model

| member | source | states |
|---|---|---|
| ClassificationTree.BranchLabel | orange/OrangeWidgets/Classify/OWClassificationTreeViewer.py:131-135 | A branch label is longer than the attribute name and the description together: a separator always stands between them. |
| ClassificationTree.BranchLabelForm | orange/OrangeWidgets/Classify/OWClassificationTreeViewer.py:131-135 | A branch label is the attribute name, then " " exactly when the description starts with '<' or '>' and " = " exactly otherwise, then the description. |
| ClassificationTree.BranchLabelInjective | orange/OrangeWidgets/Classify/OWClassificationTreeViewer.py:131-135 | Two branches of the same attribute with the same label have the same description. |
| ClassificationTree.NonEmptyFrom | orange/OrangeWidgets/Classify/OWClassificationTreeViewer.py:129-130 | The branches the creating loop acts on are exactly the non-null ones, in increasing index order. |
| ClassificationTree.KidsFromCount | orange/OrangeWidgets/Classify/OWClassificationTreeViewer.py:128-139 | An internal node gets exactly one child row per non-null branch. |
| ClassificationTree.KidsFromAt | orange/OrangeWidgets/Classify/OWClassificationTreeViewer.py:128-139 | The m-th child row of an internal node belongs to its m-th non-null branch, in branch order: it is labelled after that branch and stands for that branch's subtree. |
| ClassificationTree.KidsFromRows | orange/OrangeWidgets/Classify/OWClassificationTreeViewer.py:128-139 | Every child row has a non-empty label and stands for a well-formed subtree. |
| ClassificationTree.PreorderSize | orange/OrangeWidgets/Classify/OWClassificationTreeViewer.py:152-158 | A rebuild creates one row per node of the tree, starting with the root. The node count is one plus the sizes of the subtrees on the non-null branches, summed over the branch index list. |
| Columns.ColumnOf | orange/OrangeWidgets/Classify/OWClassificationTreeViewer.py:116-120 | Slot j goes to column 1 plus the number of slots before j that are on. That column is at least 1 and at most j + 1. |
| Columns.ColumnOfIncreasing | orange/OrangeWidgets/Classify/OWClassificationTreeViewer.py:116-120 | A slot that is on gets a smaller column than every later slot, so shown slots keep their order. |
| Columns.ColumnOfBound | orange/OrangeWidgets/Classify/OWClassificationTreeViewer.py:116-120 | A slot that is on gets a column no greater than the number of slots that are on. |
| Columns.SlotAtIff | orange/OrangeWidgets/Classify/OWClassificationTreeViewer.py:116-120 | Column c shows slot j exactly when j is on and is placed at c. |
| Columns.NoSlotOutside | orange/OrangeWidgets/Classify/OWClassificationTreeViewer.py:116-120 | Column 0 and the columns past the number of slots that are on show no slot. |
| Columns.PlacedSpec | orange/OrangeWidgets/Classify/OWClassificationTreeViewer.py:116-120 | Writing a row's cells never touches column 0. Each slot that is on lands in its own column. Columns after the last shown slot keep their text. |
| Columns.PlacedIdempotent | orange/OrangeWidgets/Classify/OWClassificationTreeViewer.py:116-120 | Writing the same cells twice leaves the row as writing them once. |
| Columns.PlaceCells | orange/OrangeWidgets/Classify/OWClassificationTreeViewer.py:116-120 | The col-counter loop gives exactly the placement above. |
| Columns.HeadersMatchCells | orange/OrangeWidgets/Classify/OWClassificationTreeViewer.py:141-146 | After the headers are rebuilt there is one header per slot that is on, so 1 + that count columns. The header over each shown slot's column is that slot's title. |
| Columns.TargetColumn | orange/OrangeWidgets/Classify/OWClassificationTreeViewer.py:182-187 | The targetindex loop of the target handler gives the column the refresh walk uses for P(Target). When P(Target) is shown, that column holds P(Target). |
| RowPaths.ShapedAppend | orange/OrangeWidgets/Classify/OWClassificationTreeViewer.py:136-138 | A new item added as the last child of an existing row keeps the rows one tree. |
| RowPaths.DistThroughChild | orange/OrangeWidgets/Classify/OWClassificationTreeViewer.py:122-125 | A row d levels below a child of row i is d + 1 levels below i. |
| RowPaths.ChildToward | orange/OrangeWidgets/Classify/OWClassificationTreeViewer.py:122-125 | A row below row i lies in the subtree of the child of i on its path. |
| RowPaths.CoveredStep | orange/OrangeWidgets/Classify/OWClassificationTreeViewer.py:122-125 | Walking one more child in the sibling loop adds exactly that child's subtree to the rows reached. |
| RowPaths.CoveredEnds | orange/OrangeWidgets/Classify/OWClassificationTreeViewer.py:122-125 | Before the sibling loop only the row itself is reached. After it, exactly the row's subtree is reached. |
| RowPaths.AllBelowFirst | orange/OrangeWidgets/Classify/OWClassificationTreeViewer.py:160 | Every row lies below the first row, where the walks start. |
| RowPaths.DistVia | orange/OrangeWidgets/Classify/OWClassificationTreeViewer.py:192-203 | Depths add up along a path: a row e levels below a has depth e plus the depth of a. |
| Rules.JoinAppend | orange/OrangeWidgets/Classify/OWClassificationTreeViewer.py:215-218 | One more condition is appended after the separator " AND\n    ". |
| Rules.JoinEmpty | orange/OrangeWidgets/Classify/OWClassificationTreeViewer.py:215-218 | Conditions whose last one is non-empty join to a non-empty antecedent. |
| Rules.PathLabelsDepth | orange/OrangeWidgets/Classify/OWClassificationTreeViewer.py:212-220 | The antecedent has one condition per level of the selected row below the top row, and the last one is the row's own label. |
| Rules.Antecedent | orange/OrangeWidgets/Classify/OWClassificationTreeViewer.py:210-220 | The climbing loop with its first-iteration flag joins the labels on the path from just below the top row down to the selection, top first. |
| Rules.RuleText | orange/OrangeWidgets/Classify/OWClassificationTreeViewer.py:224-227 | A non-empty antecedent gives "IF ", the antecedent, then "\nTHEN class = value". An empty one gives "class = value". |
| Rules.RuleForm | orange/OrangeWidgets/Classify/OWClassificationTreeViewer.py:210-227 | The top row gets the bare conclusion. A row below it with a non-empty label gets the IF form. |
| Rules.TwoConditionRule | orange/OrangeWidgets/Classify/OWClassificationTreeViewer.py:210-227 | A row two levels down under conditions A and B gets "IF A AND\n    B\nTHEN class = value". |
| TreeViewer.Cells | orange/OrangeWidgets/Classify/OWClassificationTreeViewer.py:108-114 | The Class cell is the node's predicted class as text. Of the five cells, only P(Target) depends on the target class. |
| TreeViewer.ClassColumnIsRuleClass | orange/OrangeWidgets/Classify/OWClassificationTreeViewer.py:108-120 | A shown Class column is column 1. A refreshed row shows there the same class text that the rule built for that row (lines 221-227) ends with. |
| TreeViewer.RefreshUnion | orange/OrangeWidgets/Classify/OWClassificationTreeViewer.py:122-125 | Refreshing one set of rows and then another gives the same texts as refreshing their union. |
| TreeViewer.RefreshKeepsLabels | orange/OrangeWidgets/Classify/OWClassificationTreeViewer.py:116-120 | Refreshing keeps every row's label and its six columns. |
| TreeViewer.ExpandUnion | orange/OrangeWidgets/Classify/OWClassificationTreeViewer.py:199-203 | Expanding from a child to lev - 1 has the same effect on its subtree as expanding from the parent to lev. |
| TreeViewer.ExpandVisible | orange/OrangeWidgets/Classify/OWClassificationTreeViewer.py:192-203 | After expanding to lev, every row at most lev deep has all its ancestors open. Every deeper row has its ancestor at depth lev closed. |
| TreeViewer.AllInFirst | orange/OrangeWidgets/Classify/OWClassificationTreeViewer.py:160 | The walks started at the first row reach every row. |
| TreeViewer.TargetAgreesWithRefresh | orange/OrangeWidgets/Classify/OWClassificationTreeViewer.py:169-190 | Rewriting the P(Target) column of a refreshed row for a new target gives what a full refresh for that target gives. |
| TreeViewer.CaptionsNonEmpty | orange/OrangeWidgets/Classify/OWClassificationTreeViewer.py:128-139 | Every row below the top row has a non-empty label. |
| TreeViewer.Rebuilt | orange/OrangeWidgets/Classify/OWClassificationTreeViewer.py:152-158 | After the creating walk under the "<root>" row, the rows mirror the tree. |
| TreeViewer.TreeView.constructor | orange/OrangeWidgets/Classify/OWClassificationTreeViewer.py:47-54 | A new viewer has the given switches, target 0, no tree, only the tree column and no rows. |
| TreeViewer.TreeView.ResetColumns | orange/OrangeWidgets/Classify/OWClassificationTreeViewer.py:141-146 | Removes every column but the first, and with it every row's statistic texts, so each row keeps only its label. Then adds the title of each slot that is on, in slot order. |
| TreeViewer.ResetRowShowsOnlyShown | orange/OrangeWidgets/Classify/OWClassificationTreeViewer.py:116-120 | After a column reset and a cell refresh, a row shows its label, each shown slot's cell at that slot's column, and nothing in the columns past the shown ones. |
| TreeViewer.TreeView.WalkCreate | orange/OrangeWidgets/Classify/OWClassificationTreeViewer.py:127-139 | Below a row standing for node n it creates, depth first, the rows of n's subtree. Each row is open, blank and labelled after its branch. Each row's children match its node's non-null branches in order. Earlier rows keep their texts, open flags, parent links and nodes, and rows before p keep their child lists. |
| TreeViewer.TreeView.CreateBranch | orange/OrangeWidgets/Classify/OWClassificationTreeViewer.py:130-139 | One loop iteration: a null branch adds nothing. Otherwise one open row labelled after the branch is appended as the last child, then the rows of the branch's subtree. |
| TreeViewer.TreeView.AddRow | orange/OrangeWidgets/Classify/OWClassificationTreeViewer.py:136-138 | A new open row with the given label and node becomes the last child of its parent. |
| TreeViewer.TreeView.WalkUpdate | orange/OrangeWidgets/Classify/OWClassificationTreeViewer.py:103-125 | Every row in the subtree of row i gets its cells written by the placement rule. All other rows are unchanged. |
| TreeViewer.TreeView.UpdateTarget | orange/OrangeWidgets/Classify/OWClassificationTreeViewer.py:170-176 | Every row in the subtree of row i gets the target probability in the given column and only there. All other rows are unchanged. |
| TreeViewer.TreeView.ExpandTree0 | orange/OrangeWidgets/Classify/OWClassificationTreeViewer.py:193-201 | Rows fewer than lev levels below row i (including i) are opened. Rows exactly lev levels below are closed. Deeper rows and rows outside the subtree keep their flags. |
| TreeViewer.TreeView.ExpandTree | orange/OrangeWidgets/Classify/OWClassificationTreeViewer.py:192-203 | As ExpandTree0 from the first row, applied to every row. |
| TreeViewer.TreeView.SetTreeView | orange/OrangeWidgets/Classify/OWClassificationTreeViewer.py:98-161 | Headers become the tree title plus the shown slot titles. A rebuild gives open rows mirroring the tree and clears the rule. An update changes no row structure and keeps the labels. Every row's cells are then written onto rows that hold only their labels. |
| TreeViewer.TreeView.Rebuild | orange/OrangeWidgets/Classify/OWClassificationTreeViewer.py:152-159 | The rows become the open "<root>" row and the rows of the tree below it, all blank, and the rule is cleared. |
| TreeViewer.TreeView.RefreshAll | orange/OrangeWidgets/Classify/OWClassificationTreeViewer.py:160 | The refresh walk from the first row writes the cells of every row and keeps the labels. |
| TreeViewer.TreeView.Ctree | orange/OrangeWidgets/Classify/OWClassificationTreeViewer.py:165-167 | A new tree is kept and the view rebuilt from it. |
| TreeViewer.TreeView.SetShown | orange/OrangeWidgets/Classify/OWClassificationTreeViewer.py:20-22 | Toggling a switch sets that flag and updates the headers. Every row keeps its label, and its cells are rewritten from empty columns, without rebuilding. |
| TreeViewer.TreeView.Target | orange/OrangeWidgets/Classify/OWClassificationTreeViewer.py:169-190 | If P(Target) is hidden or the target is unchanged, neither the target nor any text changes. Otherwise the target is set and only the P(Target) column of every row is rewritten. |
| TreeViewer.TreeView.HiddenTargetDropped | orange/OrangeWidgets/Classify/OWClassificationTreeViewer.py:169-190 | A target that arrives while P(Target) is hidden is dropped. When the column is switched on again, every row shows the probability of the earlier target. |
| TreeViewer.TreeView.SelectionChanged | orange/OrangeWidgets/Classify/OWClassificationTreeViewer.py:206-227 | The selected node's examples are returned. The rule is the antecedent of the path with the node's class: the bare form for the top row and the IF form below it. |

## Left out

- The Qt toolkit: widget layout, check boxes, the slider and its label, the
  text view and signal wiring. Slots are methods called with the value the
  signal would carry; the slider handler is `ExpandTree` (its range 1..9 is
  not enforced).
- Cell numbers and formatting: the percentages, instance count and
  colon-joined distribution, and the division by the distribution's total
  (which also produces the undefined zero-total case). They are the opaque
  functions `stat` and `prob`.
- The refresh walk computes the target cell as `dist[tar]/(abs/100)` and the
  target handler as `dist[tar]/abs*100`. Both are `prob(node, tar)`, so
  floating-point differences between the two formulas are not modelled.
- The saved settings and the dynamic attribute lookup of the column switches.
  The switches are a five-element array given to the constructor.
- The stub `addNode`, which returns an unbound name, and the demo under
  `__main__`.
- Sending the selected node's examples on an output channel: they are the
  result of `SelectionChanged`.
- The toolkit's own ordering of sibling items (new items are inserted first,
  and columns may sort them). Child lists are kept in branch order.
- Source failures are preconditions or skips:
  - An empty branch description makes the source fail on reading its first
    character; `WellFormed` excludes it.
  - A missing tree makes a rebuild fail; `SetTreeView` requires a tree when
    rebuilding.
  - Refreshing, expanding or retargeting a view with no rows reads a
    non-existent first item in the source; the model skips the walk.
- ClassificationTree.BranchLabel: its own contract states only that a
  separator stands between attribute and description; the exact separator is
  stated by `BranchLabelForm`, which keeps the label's proof out of every
  caller's context.

## Behaviour kept as written

- The expansion walk closes only the rows exactly `lev` levels down and leaves
  the open flags of deeper rows as they were. It does not collapse every
  deeper row, even though the control's title "Expand/Shrink to Level"
  (OWClassificationTreeViewer.py:68) suggests it does; the model follows the
  code.
- A target that arrives while the P(Target) column is hidden is not recorded
  (OWClassificationTreeViewer.py:179-180). When the column is shown again, the
  refresh shows the earlier target. `Target` and `HiddenTargetDropped` state
  this.
