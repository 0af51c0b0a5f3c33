/** The statistic columns of the list view. Five fixed slots (majority class,
    its probability, the target class's probability, the number of instances,
    the class distribution), each switched on or off; the slots that are on are
    packed left to right after the label column. */
module Columns {
  import opened Wrappers

  const NumSlots := 5
  /** The label column plus one column per slot. */
  const NumColumns := 6

  const Majority := 0
  const PMajority := 1
  const PTarget := 2
  const Instances := 3
  const Distribution := 4

  /** The header of the label column. */
  const TreeTitle := "Classification Tree"
  /** The header of each slot's column. */
  const Titles: seq<string> := ["Class", "P(Class)", "P(Target)", "#Inst", "Distribution"]

  /** The number of switches that are on. */
  function Count(s: seq<bool>): (n: nat)
    ensures n <= |s|
  {
    if s == [] then 0 else Count(s[..|s| - 1]) + (if s[|s| - 1] then 1 else 0)
  }

  lemma CountStep(flags: seq<bool>, j: nat)
    requires j < |flags|
    ensures Count(flags[..j + 1]) == Count(flags[..j]) + (if flags[j] then 1 else 0)
  {
    assert flags[..j + 1][..j] == flags[..j];
  }

  /** The column that slot j occupies when it is on: one past the label
      column and the columns of the slots before it that are on. */
  function ColumnOf(flags: seq<bool>, j: nat): (c: nat)
    requires j <= |flags|
    ensures 1 <= c <= j + 1
  {
    1 + Count(flags[..j])
  }

  /** Slots that are on occupy strictly increasing columns. */
  lemma {:induction false} ColumnOfIncreasing(flags: seq<bool>, j: nat, k: nat)
    requires j < k <= |flags| && flags[j]
    ensures ColumnOf(flags, j) < ColumnOf(flags, k)
    decreases k - j
  {
    CountStep(flags, k - 1);
    if j < k - 1 {
      ColumnOfIncreasing(flags, j, k - 1);
    }
  }

  /** Every slot that is on sits inside the columns the view has. */
  lemma {:induction false} ColumnOfBound(flags: seq<bool>, j: nat)
    requires j < |flags| && flags[j]
    ensures ColumnOf(flags, j) <= Count(flags)
  {
    CountStep(flags, j);
    assert Count(flags[..j + 1]) <= Count(flags) by {
      CountPrefix(flags, j + 1);
    }
  }

  lemma {:induction false} CountPrefix(flags: seq<bool>, k: nat)
    requires k <= |flags|
    ensures Count(flags[..k]) <= Count(flags)
    decreases |flags| - k
  {
    if k < |flags| {
      CountStep(flags, k);
      CountPrefix(flags, k + 1);
    } else {
      assert flags[..k] == flags;
    }
  }

  /** The slot, among slots j, j+1, ..., whose column is c. */
  function SlotFrom(flags: seq<bool>, c: nat, j: nat): (r: Option<nat>)
    requires j <= |flags|
    ensures r.Some? ==> j <= r.value < |flags| && flags[r.value] && ColumnOf(flags, r.value) == c
    decreases |flags| - j
  {
    if j == |flags| then None
    else if flags[j] && ColumnOf(flags, j) == c then Some(j)
    else SlotFrom(flags, c, j + 1)
  }

  /** The slot shown in column c, if any. */
  function SlotAt(flags: seq<bool>, c: nat): (r: Option<nat>)
  {
    SlotFrom(flags, c, 0)
  }

  /** A slot that is on is found in its column. */
  lemma {:induction false} SlotFromFinds(flags: seq<bool>, j0: nat, j: nat)
    requires j0 <= j < |flags| && flags[j]
    ensures SlotFrom(flags, ColumnOf(flags, j), j0) == Some(j)
    decreases j - j0
  {
    if j0 < j {
      if flags[j0] {
        ColumnOfIncreasing(flags, j0, j);
      }
      SlotFromFinds(flags, j0 + 1, j);
    }
  }

  /** Column c shows slot j exactly when slot j is on and its column is c. */
  lemma SlotAtIff(flags: seq<bool>, c: nat, j: nat)
    requires j < |flags|
    ensures SlotAt(flags, c) == Some(j) <==> flags[j] && ColumnOf(flags, j) == c
  {
    if flags[j] && ColumnOf(flags, j) == c {
      SlotFromFinds(flags, 0, j);
    }
  }

  /** The label column shows no slot, and neither does any column past the
      last one the view has. */
  lemma NoSlotOutside(flags: seq<bool>, c: nat)
    requires c == 0 || c > Count(flags)
    ensures SlotAt(flags, c) == None
  {
    if SlotAt(flags, c).Some? {
      ColumnOfBound(flags, SlotAt(flags, c).value);
    }
  }

  /** A row's texts after its statistic cells are written: the column of each
      slot that is on gets that slot's cell; every other column keeps its text. */
  function Placed(flags: seq<bool>, colf: seq<string>, text: seq<string>): (r: seq<string>)
    requires |flags| == NumSlots && |colf| == NumSlots && |text| == NumColumns
    ensures |r| == NumColumns
  {
    seq(NumColumns, c requires 0 <= c < NumColumns =>
      match SlotAt(flags, c)
      case Some(j) => colf[j]
      case None => text[c])
  }

  /** Writing the cells: the label column is never written, each slot that is
      on lands in its own column, and a column that no slot occupies keeps its
      text. */
  lemma PlacedSpec(flags: seq<bool>, colf: seq<string>, text: seq<string>)
    requires |flags| == NumSlots && |colf| == NumSlots && |text| == NumColumns
    ensures Placed(flags, colf, text)[0] == text[0]
    ensures forall j :: 0 <= j < NumSlots && flags[j] ==> Placed(flags, colf, text)[ColumnOf(flags, j)] == colf[j]
    ensures forall c :: Count(flags) < c < NumColumns ==> Placed(flags, colf, text)[c] == text[c]
  {
    NoSlotOutside(flags, 0);
    forall j | 0 <= j < NumSlots && flags[j]
      ensures Placed(flags, colf, text)[ColumnOf(flags, j)] == colf[j]
    {
      SlotAtIff(flags, ColumnOf(flags, j), j);
    }
    forall c | Count(flags) < c < NumColumns
      ensures Placed(flags, colf, text)[c] == text[c]
    {
      NoSlotOutside(flags, c);
    }
  }

  /** Writing the same cells twice is writing them once. */
  lemma PlacedIdempotent(flags: seq<bool>, colf: seq<string>, text: seq<string>)
    requires |flags| == NumSlots && |colf| == NumSlots && |text| == NumColumns
    ensures Placed(flags, colf, Placed(flags, colf, text)) == Placed(flags, colf, text)
  {
  }

  /** The cell-writing loop of the refresh walk: a column counter starts
      after the label column and moves on past each slot that is on. */
  method PlaceCells(flags: seq<bool>, colf: seq<string>, text: seq<string>) returns (r: seq<string>)
    requires |flags| == NumSlots && |colf| == NumSlots && |text| == NumColumns
    ensures r == Placed(flags, colf, text)
  {
    r := text;
    var col := 1;
    for j := 0 to NumSlots
      invariant col == ColumnOf(flags, j)
      invariant |r| == NumColumns
      invariant forall c :: 0 <= c < NumColumns ==>
        r[c] == (if SlotAt(flags, c).Some? && SlotAt(flags, c).value < j then colf[SlotAt(flags, c).value] else text[c])
    {
      CountStep(flags, j);
      if flags[j] {
        SlotAtIff(flags, col, j);
        forall c | 0 <= c < NumColumns && c != col
          ensures SlotAt(flags, c) != Some(j)
        {
          SlotAtIff(flags, c, j);
        }
        r := r[col := colf[j]];
        col := col + 1;
      } else {
        forall c | 0 <= c < NumColumns
          ensures SlotAt(flags, c) != Some(j)
        {
          SlotAtIff(flags, c, j);
        }
      }
    }
  }

  /** The headers of the slot columns that are on, in slot order. */
  function ShownTitles(flags: seq<bool>): (r: seq<string>)
    requires |flags| <= NumSlots
  {
    if flags == [] then []
    else ShownTitles(flags[..|flags| - 1]) + (if flags[|flags| - 1] then [Titles[|flags| - 1]] else [])
  }

  /** The view has one column per slot that is on, and the header above the
      column where a slot's cells are written is that slot's title. */
  lemma {:induction false} HeadersMatchCells(flags: seq<bool>)
    requires |flags| <= NumSlots
    ensures |ShownTitles(flags)| == Count(flags)
    ensures forall j :: 0 <= j < |flags| && flags[j] ==>
      ColumnOf(flags, j) <= Count(flags) && ([TreeTitle] + ShownTitles(flags))[ColumnOf(flags, j)] == Titles[j]
  {
    if flags != [] {
      var n := |flags| - 1;
      var front := flags[..n];
      HeadersMatchCells(front);
      forall j | 0 <= j < |flags| && flags[j]
        ensures ColumnOf(flags, j) <= Count(flags) && ([TreeTitle] + ShownTitles(flags))[ColumnOf(flags, j)] == Titles[j]
      {
        CountStep(flags, n);
        ColumnOfBound(flags, j);
        if j < n {
          assert front[..j] == flags[..j];
          assert ColumnOf(front, j) == ColumnOf(flags, j);
          ColumnOfBound(front, j);
        } else {
          assert flags[..n] == front;
        }
      }
    }
  }

  /** The counting loop that finds the P(Target) column: one past the label
      column and the slots before P(Target) that are on. It lands on the
      column where the refresh walk writes the P(Target) cell. */
  method TargetColumn(flags: seq<bool>) returns (idx: nat)
    requires |flags| == NumSlots
    ensures idx == ColumnOf(flags, PTarget)
    ensures flags[PTarget] ==> SlotAt(flags, idx) == Some(PTarget)
  {
    idx := 1;
    var st := 0;
    while st < NumSlots
      invariant 0 <= st <= PTarget
      invariant idx == ColumnOf(flags, st)
    {
      if st == PTarget {
        break;
      }
      CountStep(flags, st);
      if flags[st] {
        idx := idx + 1;
      }
      st := st + 1;
    }
    SlotAtIff(flags, idx, PTarget);
  }
}
