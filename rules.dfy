/** The rule shown for a selected row: the conditions on the path from just
    below the top row down to the selection, joined with "AND", and the class
    the selected node predicts. */
module Rules {
  import opened RowPaths

  /** What separates two conditions of a rule. */
  const AndSep := " AND\n    "

  /** The conditions, first to last, with the separator between each two. */
  function Join(conds: seq<string>): string
  {
    if |conds| == 0 then ""
    else if |conds| == 1 then conds[0]
    else conds[0] + AndSep + Join(conds[1..])
  }

  /** Appending a condition puts a separator and the condition after the
      conditions already joined. */
  lemma {:induction false} JoinAppend(conds: seq<string>, c: string)
    requires conds != []
    ensures Join(conds + [c]) == Join(conds) + AndSep + c
  {
    if |conds| > 1 {
      assert (conds + [c])[1..] == conds[1..] + [c];
      JoinAppend(conds[1..], c);
    }
  }

  /** Joined conditions are empty only when there are none or the only one is
      empty: a non-empty last condition makes them non-empty. */
  lemma JoinEmpty(conds: seq<string>)
    requires conds != [] && conds[|conds| - 1] != ""
    ensures Join(conds) != ""
  {
    if |conds| > 1 {
      var front := conds[..|conds| - 1];
      assert conds == front + [conds[|conds| - 1]];
      JoinAppend(front, conds[|conds| - 1]);
    }
  }

  /** The labels (first-column texts) of the rows on the path from just below
      the top-level row down to row k. */
  function PathLabels(parent: seq<int>, labels: seq<string>, k: nat): seq<string>
    requires Rooted(parent) && |labels| == |parent| && k < |parent|
    decreases k
  {
    if parent[k] < 0 then [] else PathLabels(parent, labels, parent[k]) + [labels[k]]
  }

  /** A row's path holds one label per parent step from the row up to row 0,
      and ends with the row's own label. */
  lemma {:induction false} PathLabelsDepth(parent: seq<int>, kids: seq<seq<nat>>, labels: seq<string>, k: nat)
    requires Shaped(parent, kids) && |labels| == |parent| && k < |parent|
    ensures Dist(parent, k, 0).Some? && |PathLabels(parent, labels, k)| == Dist(parent, k, 0).value
    ensures k > 0 ==> PathLabels(parent, labels, k)[|PathLabels(parent, labels, k)| - 1] == labels[k]
    decreases k
  {
    if k > 0 {
      PathLabelsDepth(parent, kids, labels, parent[k]);
    }
  }

  /** The loop that climbs from the selected row to the top-level row,
      putting each row's label in front of the conditions collected so far. */
  method Antecedent(parent: seq<int>, labels: seq<string>, item: nat) returns (tx: string)
    requires Rooted(parent) && |labels| == |parent| && item < |parent|
    ensures tx == Join(PathLabels(parent, labels, item))
  {
    tx := "";
    var first := true;
    var cur: nat := item;
    ghost var done: seq<string> := [];
    while parent[cur] >= 0
      invariant cur < |parent|
      invariant PathLabels(parent, labels, item) == PathLabels(parent, labels, cur) + done
      invariant tx == Join(done) && first == (done == [])
      decreases cur
    {
      if first {
        tx := labels[cur];
        first := false;
      } else {
        tx := labels[cur] + AndSep + tx;
      }
      assert ([labels[cur]] + done)[1..] == done;
      done := [labels[cur]] + done;
      cur := parent[cur];
    }
    assert PathLabels(parent, labels, cur) == [];
    assert done == PathLabels(parent, labels, item);
  }

  /** The rule text: with conditions, "IF <conditions>" and on a new line
      "THEN <class> = <value>"; without them, just "<class> = <value>". */
  function RuleText(tx: string, className: string, classLabel: string): (r: string)
    ensures tx == "" ==> r == className + " = " + classLabel
    ensures tx != "" ==>
      (&& |r| > 3 + |tx|
       && r[..3] == "IF " && r[3..3 + |tx|] == tx
       && r[3 + |tx|..] == "\nTHEN " + className + " = " + classLabel)
  {
    if tx != "" then "IF " + tx + "\nTHEN " + className + " = " + classLabel
    else className + " = " + classLabel
  }

  /** The rule for a row below the top-level row whose label is not empty
      has the IF form, and its last condition is the row's own label; the rule
      for the top-level row has no IF part. */
  lemma RuleForm(parent: seq<int>, kids: seq<seq<nat>>, labels: seq<string>, item: nat,
                 className: string, classLabel: string)
    requires Shaped(parent, kids) && |labels| == |parent| && item < |parent|
    requires item > 0 ==> labels[item] != ""
    ensures item == 0 ==>
      RuleText(Join(PathLabels(parent, labels, item)), className, classLabel) == className + " = " + classLabel
    ensures item > 0 ==>
      var tx := Join(PathLabels(parent, labels, item));
      tx != "" && RuleText(tx, className, classLabel) == "IF " + tx + "\nTHEN " + className + " = " + classLabel
  {
    PathLabelsDepth(parent, kids, labels, item);
    if item > 0 {
      JoinEmpty(PathLabels(parent, labels, item));
    }
  }

  /** A row two branches below the top-level row, under conditions A and B. */
  lemma TwoConditionRule(a: string, b: string, className: string, classLabel: string)
    requires a != "" && b != ""
    ensures var parent, labels := [-1, 0, 1], ["<root>", a, b];
      RuleText(Join(PathLabels(parent, labels, 2)), className, classLabel)
        == "IF " + (a + AndSep + b) + "\nTHEN " + className + " = " + classLabel
  {
    var parent, labels := [-1, 0, 1], ["<root>", a, b];
    assert PathLabels(parent, labels, 0) == [];
    assert PathLabels(parent, labels, 1) == [a];
    assert PathLabels(parent, labels, 2) == [a, b];
    assert [a, b][1..] == [b];
    assert Join([b]) == b;
    var tx := Join([a, b]);
    assert tx == a + AndSep + b;
  }
}
