/** Slicing trees as values, their bounding boxes over all orientation choices, and the optimality of
    the minimum-area entry of the root curve (shape.c). */
module SlicingTree {
  import opened PolishExpression
  import opened ShapeCurve

  datatype Tree =
    | Leaf(unit: int, curve: Curve)
    | Cut(cut: int, curve: Curve, left: Tree, right: Tree)

  /** The units at the leaves, left to right. */
  function Units(t: Tree): (u: seq<int>)
    ensures |u| >= 1
  {
    match t
    case Leaf(unit, _) => [unit]
    case Cut(_, _, l, r) => Units(l) + Units(r)
  }

  /** Every cut carries the sum of its children's curves. */
  ghost predicate Summed(t: Tree) {
    match t
    case Leaf(_, _) => true
    case Cut(cut, curve, l, r) => Summed(l) && Summed(r) && curve == AddCurves(l.curve, r.curve, cut)
  }

  ghost predicate LeavesWellShaped(t: Tree) {
    match t
    case Leaf(_, curve) => WellShaped(curve)
    case Cut(_, _, l, r) => LeavesWellShaped(l) && LeavesWellShaped(r)
  }

  // ---------------------------------------------------------------- choosing an orientation per leaf

  /** choice gives, left to right, an orientation of every leaf. */
  ghost predicate IsChoice(t: Tree, choice: seq<nat>)
    decreases t
  {
    && |choice| == |Units(t)|
    && match t
       case Leaf(_, curve) => choice[0] < |curve|
       case Cut(_, _, l, r) => IsChoice(l, choice[..|Units(l)|]) && IsChoice(r, choice[|Units(l)|..])
  }

  /** The bounding box of the floorplan when the leaves take the chosen orientations: the exhaustive
      search space the curves summarise. */
  ghost function Width(t: Tree, choice: seq<nat>): real
    requires IsChoice(t, choice)
    decreases t
  {
    match t
    case Leaf(_, curve) => curve[choice[0]].x
    case Cut(cut, _, l, r) =>
      BoxWidth(cut, Width(l, choice[..|Units(l)|]), Width(r, choice[|Units(l)|..]))
  }

  ghost function Height(t: Tree, choice: seq<nat>): real
    requires IsChoice(t, choice)
    decreases t
  {
    match t
    case Leaf(_, curve) => curve[choice[0]].y
    case Cut(cut, _, l, r) =>
      BoxHeight(cut, Height(l, choice[..|Units(l)|]), Height(r, choice[|Units(l)|..]))
  }

  lemma {:induction false} CurvesWellShaped(t: Tree)
    requires Summed(t) && LeavesWellShaped(t)
    ensures WellShaped(t.curve)
  {
    match t
    case Leaf(_, _) =>
    case Cut(cut, _, l, r) =>
      CurvesWellShaped(l);
      CurvesWellShaped(r);
      SumIsWellShaped(l.curve, r.curve, cut);
  }

  /** The orientations reached from entry pos by following left_pos and right_pos down to the leaves. */
  function ChoiceAt(t: Tree, pos: nat): (choice: seq<nat>)
    requires Summed(t) && pos < |t.curve|
    ensures |choice| == |Units(t)|
    decreases t
  {
    match t
    case Leaf(_, _) => [pos]
    case Cut(cut, curve, l, r) =>
      SumIsRealised(l.curve, r.curve, cut, pos);
      ChoiceAt(l, curve[pos].left) + ChoiceAt(r, curve[pos].right)
  }

  /** Every entry of a curve is the exact bounding box of the orientations it stands for. */
  lemma {:induction false} EntriesAreRealised(t: Tree, pos: nat)
    requires Summed(t) && pos < |t.curve|
    ensures IsChoice(t, ChoiceAt(t, pos))
    ensures Width(t, ChoiceAt(t, pos)) == t.curve[pos].x
    ensures Height(t, ChoiceAt(t, pos)) == t.curve[pos].y
  {
    match t
    case Leaf(_, _) =>
    case Cut(cut, curve, l, r) =>
      SumIsRealised(l.curve, r.curve, cut, pos);
      var i, j := curve[pos].left, curve[pos].right;
      EntriesAreRealised(l, i);
      EntriesAreRealised(r, j);
      var c := ChoiceAt(t, pos);
      assert c[..|Units(l)|] == ChoiceAt(l, i) && c[|Units(l)|..] == ChoiceAt(r, j);
  }

  lemma EntryIsPositive(t: Tree, k: nat)
    requires Summed(t) && LeavesWellShaped(t) && k < |t.curve|
    ensures t.curve[k].x > 0.0 && t.curve[k].y > 0.0
  {
    hide Summed;
    hide LeavesWellShaped;
    CurvesWellShaped(t);
  }

  /** Larger constituents need a larger box. */
  lemma BoxIsMonotone(cut: int, a: real, a': real, b: real, b': real)
    requires a <= a' && b <= b'
    ensures BoxWidth(cut, a, b) <= BoxWidth(cut, a', b') && BoxHeight(cut, a, b) <= BoxHeight(cut, a', b')
  {
  }

  /** Every combination of orientations is dominated by some entry of the curve. */
  lemma {:induction false} ChoicesAreDominated(t: Tree, choice: seq<nat>) returns (k: nat)
    requires Summed(t) && LeavesWellShaped(t) && IsChoice(t, choice)
    ensures k < |t.curve|
    ensures 0.0 < t.curve[k].x <= Width(t, choice) && 0.0 < t.curve[k].y <= Height(t, choice)
    decreases t
  {
    hide AddCurves;
    hide WellShaped;
    hide BoxWidth;
    hide BoxHeight;
    match t
    case Leaf(_, _) =>
      k := choice[0];
      EntryIsPositive(t, k);
    case Cut(cut, _, l, r) =>
      CurvesWellShaped(l);
      CurvesWellShaped(r);
      var i := ChoicesAreDominated(l, choice[..|Units(l)|]);
      var j := ChoicesAreDominated(r, choice[|Units(l)|..]);
      k := SumDominates(l.curve, r.curve, cut, i, j);
      EntryIsPositive(t, k);
      BoxIsMonotone(cut, l.curve[i].x, Width(l, choice[..|Units(l)|]), r.curve[j].x, Width(r, choice[|Units(l)|..]));
      BoxIsMonotone(cut, l.curve[i].y, Height(l, choice[..|Units(l)|]), r.curve[j].y, Height(r, choice[|Units(l)|..]));
  }

  /** pos is an entry of least area. */
  ghost predicate IsMinArea(c: Curve, pos: nat) {
    pos < |c| && forall i :: 0 <= i < |c| ==> Area(c[pos]) <= Area(c[i])
  }

  /** pos is the first entry of least area. */
  ghost predicate IsFirstMin(c: Curve, pos: nat) {
    IsMinArea(c, pos) && forall i :: 0 <= i < pos ==> Area(c[pos]) < Area(c[i])
  }

  lemma ProductMonotone(a: real, b: real, c: real, d: real)
    requires 0.0 <= a <= c && 0.0 <= b <= d
    ensures a * b <= c * d
  {
    assert a * b <= c * b;
    assert c * b <= c * d;
  }

  lemma MinAreaIsLowerBound(t: Tree, pos: nat, choice: seq<nat>)
    requires Summed(t) && LeavesWellShaped(t) && IsMinArea(t.curve, pos) && IsChoice(t, choice)
    ensures Area(t.curve[pos]) <= Width(t, choice) * Height(t, choice)
  {
    hide Width;
    hide Height;
    var k := ChoicesAreDominated(t, choice);
    ProductMonotone(t.curve[k].x, t.curve[k].y, Width(t, choice), Height(t, choice));
  }

  lemma MinAreaIsAttained(t: Tree, pos: nat)
    requires Summed(t) && pos < |t.curve|
    ensures IsChoice(t, ChoiceAt(t, pos))
    ensures Area(t.curve[pos]) == Width(t, ChoiceAt(t, pos)) * Height(t, ChoiceAt(t, pos))
  {
    hide Width;
    hide Height;
    hide Summed;
    hide ChoiceAt;
    hide IsChoice;
    EntriesAreRealised(t, pos);
  }

  /** Optimality: the entry of least area at the root is attained by some choice of orientations, and no
      choice of orientations gives a smaller bounding box. */
  lemma MinAreaIsOptimal(t: Tree, pos: nat)
    requires Summed(t) && LeavesWellShaped(t) && IsMinArea(t.curve, pos)
    ensures IsChoice(t, ChoiceAt(t, pos))
    ensures Area(t.curve[pos]) == Width(t, ChoiceAt(t, pos)) * Height(t, ChoiceAt(t, pos))
    ensures forall choice :: IsChoice(t, choice) ==>
      Area(t.curve[pos]) <= Width(t, choice) * Height(t, choice)
  {
    hide Area;
    hide Width;
    hide Height;
    hide ChoiceAt;
    hide Summed;
    hide LeavesWellShaped;
    hide IsChoice;
    MinAreaIsAttained(t, pos);
    forall choice | IsChoice(t, choice) ensures Area(t.curve[pos]) <= Width(t, choice) * Height(t, choice) {
      MinAreaIsLowerBound(t, pos, choice);
    }
  }
}
