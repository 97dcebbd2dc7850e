/** Evaluating one expression and annealing over expressions, end to end (flp.c, floorplan): from the word
    through the tree and the layout to the wrapped chip, and back to the placeholder. */
module Floorplan {
  import opened RealArithmetic
  import opened PolishExpression
  import opened PolishExpressionState
  import opened ShapeCurve
  import opened SlicingTree
  import opened TreeParsing
  import opened TreeNodes
  import opened Sizing
  import opened SizingState
  import opened Rim
  import opened RimState
  import opened Annealing
  import TilingMeasure

  // ---------------------------------------------------------------- what a parsed expression is good for

  lemma {:induction false} DescribedIsSummed(t: Tree, curves: seq<Curve>)
    requires Described(t, curves) && forall i :: 0 <= i < |curves| ==> WellShaped(curves[i])
    ensures Summed(t) && LeavesWellShaped(t)
  {
    hide AddCurves;
    hide WellShaped;
    match t
    case Leaf(_, _) =>
    case Cut(_, _, l, r) =>
      DescribedIsSummed(l, curves);
      DescribedIsSummed(r, curves);
  }

  /** A tree's word contains each unit as often as the tree's leaves do. */
  lemma {:induction false} UnitsOfWord(t: Tree, curves: seq<Curve>, v: int)
    requires Described(t, curves) && v >= 0
    ensures multiset(Units(t))[v] == multiset(Postorder(t))[v]
    ensures |Postorder(t)| == 2 * |Units(t)| - 1
  {
    hide AddCurves;
    match t
    case Leaf(_, _) =>
    case Cut(c, _, l, r) =>
      UnitsOfWord(l, curves, v);
      UnitsOfWord(r, curves, v);
  }

  lemma TwiceMeansTwo(s: seq<int>, i: int, j: int)
    requires 0 <= i < j < |s| && s[i] == s[j]
    ensures multiset(s)[s[i]] >= 2
  {
    assert s == s[..j] + [s[j]] + s[j + 1..];
    assert s[..j][i] == s[j];
    assert s[j] in multiset(s[..j]);
  }

  lemma {:induction false} OnceMeansOne(s: seq<int>, v: int)
    requires v >= 0 && forall i, j :: 0 <= i < j < |s| && s[i] >= 0 ==> s[i] != s[j]
    ensures multiset(s)[v] <= 1
  {
    if s != [] {
      assert s == [s[0]] + s[1..];
      OnceMeansOne(s[1..], v);
      assert s[0] >= 0 ==> forall k :: 0 <= k < |s[1..]| ==> s[1..][k] == s[k + 1] != s[0];
    }
  }

  /** The leaves of an expression's tree are the units 0 .. n-1, each once. */
  lemma UnitsOfExpression(t: Tree, curves: seq<Curve>, n: nat)
    requires Described(t, curves) && IsExpression(Postorder(t), n)
    ensures |Units(t)| == n && ListsAll(Units(t), n)
  {
    hide Described;
    hide Units;
    hide Postorder;
    hide Balloted;
    hide Normalized;
    hide CutsIn;
    var us, s := Units(t), Postorder(t);
    UnitsOfWord(t, curves, 0);
    forall v | 0 <= v < n ensures v in us {
      UnitsOfWord(t, curves, v);
      assert v in s;
      assert v in multiset(s);
      assert v in multiset(us);
    }
    forall k | 0 <= k < |us| ensures 0 <= us[k] < n {
      UnitsNonNegative(t, curves);
      UnitsOfWord(t, curves, us[k]);
      assert us[k] in multiset(us);
      assert us[k] in multiset(s);
    }
    forall k, k' | 0 <= k < k' < |us| ensures us[k] != us[k'] {
      UnitsNonNegative(t, curves);
      if us[k] == us[k'] {
        TwiceMeansTwo(us, k, k');
        UnitsOfWord(t, curves, us[k]);
        OnceMeansOne(s, us[k]);
      }
    }
  }

  lemma {:induction false} UnitsNonNegative(t: Tree, curves: seq<Curve>)
    requires Described(t, curves)
    ensures forall k :: 0 <= k < |Units(t)| ==> Units(t)[k] >= 0
  {
    hide AddCurves;
    match t
    case Leaf(_, _) =>
    case Cut(_, _, l, r) =>
      UnitsNonNegative(l, curves);
      UnitsNonNegative(r, curves);
  }

  /** The tree that an expression's word stands for. */
  ghost predicate TreeOf(t: Tree, s: seq<int>, curves: seq<Curve>) {
    Described(t, curves) && Postorder(t) == s
  }

  // ---------------------------------------------------------------- evaluating one expression

  /** The floorplan placeholder for n units: one slot per unit and cut, and room for the rim if it is modelled. */
  ghost predicate Placeholder(flp: Flp, n: int, rim: bool)
    reads flp
  {
    && n >= 1 && flp.nUnits == 2 * n - 1
    && flp.units.Length >= (if rim then 3 * (2 * n - 1) + 2 else 2 * n - 1)
  }

  ghost predicate WellDescribed(shapes: seq<Shape>)
    reads ShapeRepr(shapes)
  {
    ShapesValid(shapes) && forall i :: 0 <= i < |shapes| ==> WellShaped(CurvesOf(shapes)[i])
  }

  /** The chip after evaluating the word s: for the tree of s and an entry pos of least area, the core is
      tiled by the n blocks and the counted dead blocks, every block has room for its orientation, and with
      the rim blocks the whole chip is tiled, point by point and in area; no block is empty. */
  ghost predicate ChipOf(units: seq<Rect>, s: seq<int>, curves: seq<Curve>, n: int, tiles: int, t: Tree, pos: nat,
                         rim: bool, thickness: real)
  {
    && TreeOf(t, s, curves) && Summed(t) && LeavesWellShaped(t) && IsMinArea(t.curve, pos)
    && n <= tiles <= |units| && tiles <= 2 * n - 1 && AllPositive(units)
    && var e := t.curve[pos];
       if rim then
         var core := Rect(thickness, thickness, e.x, e.y);
         && Tiling(units[..tiles], core) && TilesBox(units, Chip(core, thickness))
         && HoldsOrientations(units[..tiles], t, pos)
         && |units| <= tiles + (2 * tiles + 2)
       else
         && tiles == |units|
         && TilesBox(units, Rect(0.0, 0.0, e.x, e.y)) && HoldsOrientations(units, t, pos)
  }

  /** tree_to_flp, then the rim if it is modelled. */
  method PlaceTree(root: TreeNode, flp: Flp, cfg: Settings, ghost s: seq<int>, ghost curves: seq<Curve>, ghost n: int)
    returns (compacted: int, rimBlocks: int, ghost pos: nat)
    requires root.Valid() && TreeOf(root.Abs(), s, curves) && Summed(root.Abs()) && LeavesWellShaped(root.Abs())
    requires |Units(root.Abs())| == n && ListsAll(Units(root.Abs()), n)
    requires flp.units !in root.Repr && flp !in root.Repr
    requires Placeholder(flp, n, cfg.rim) && ValidSettings(cfg)
    modifies root.Repr, flp.units, flp`nUnits
    ensures 0 <= flp.nUnits <= flp.units.Length
    ensures flp.nUnits == old(flp.nUnits) - compacted + rimBlocks && (!cfg.rim ==> rimBlocks == 0)
    ensures ChipOf(flp.units[..flp.nUnits], s, curves, n, flp.nUnits - rimBlocks, old(root.Abs()), pos, cfg.rim, cfg.thickness)
    ensures FloorOfTree(flp.units[..flp.nUnits], old(root.Abs()), n, cfg)
  {
    hide TreeNode.Abs;
    hide TreeNode.Valid;
    hide ListsAll;
    hide Summed;
    hide LeavesWellShaped;
    hide Arrange;
    hide Units;
    hide TreeOf;
    hide TilesBox;
    hide Tiling;
    hide AllPositive;
    hide HoldsOrientations;
    hide IsMinArea;
    hide Written;
    hide Wrapped;
    ghost var t := root.Abs();
    compacted, pos := TreeToFlp(root, flp, true, cfg.ratio);
    rimBlocks := 0;
    ghost var us := flp.units[..flp.nUnits];
    WrappedOrNot(us, t.curve[pos], cfg.thickness);
    if cfg.rim {
      rimBlocks := WrapPlaced(flp, cfg.thickness, t, pos);
    }
    assert IsFirstMin(t.curve, pos);
    assert FloorBy(flp.units[..flp.nUnits], t, n, cfg, pos, us);
  }

  lemma WrappedOrNot(us: seq<Rect>, e: Entry, thickness: real)
    ensures Wrapped(us, e, false, thickness) == us
  {
  }

  /** The part of the annealing loop's body that turns an expression into a chip. */
  method PlaceExpression(shapes: seq<Shape>, stack: NodeStack, expr: NPE, flp: Flp, cfg: Settings)
    returns (status: BuildStatus, compacted: int, rimBlocks: int, ghost t: Tree, ghost pos: nat)
    requires WellDescribed(shapes) && stack.Valid() && stack.top == 0
    requires expr.Separate() && IsExpression(expr.Word(), |shapes|)
    requires Placeholder(flp, |shapes|, cfg.rim) && ValidSettings(cfg)
    requires stack !in ShapeRepr(shapes) && stack.slots !in ShapeRepr(shapes)
    requires flp !in ShapeRepr(shapes) && flp.units !in ShapeRepr(shapes)
    modifies stack`top, stack.slots, flp.units, flp`nUnits
    ensures stack.Valid()
    ensures |shapes| <= MAX_STACK ==> status == Built
    ensures status == Built ==>
      && stack.top == 0
      && 0 <= flp.nUnits <= flp.units.Length
      && flp.nUnits == old(flp.nUnits) - compacted + rimBlocks && (!cfg.rim ==> rimBlocks == 0)
      && ChipOf(flp.units[..flp.nUnits], old(expr.Word()), old(CurvesOf(shapes)), |shapes|, flp.nUnits - rimBlocks, t, pos,
                cfg.rim, cfg.thickness)
      && FloorOf(flp.units[..flp.nUnits], old(expr.Word()), old(CurvesOf(shapes)), |shapes|, cfg)
  {
    hide FloorOfTree;
    hide TreeNode.Abs;
    hide TreeNode.Valid;
    hide IsExpression;
    hide Run;
    hide ListsAll;
    hide Summed;
    hide LeavesWellShaped;
    hide Units;
    hide TreeOf;
    hide ChipOf;
    hide WellShaped;
    compacted, rimBlocks := 0, 0;
    t, pos := Tree.Leaf(0, []), 0;
    ghost var curves, s, n := CurvesOf(shapes), expr.Word(), |shapes|;
    ExpressionUnitsKnown(s, curves);
    if n <= MAX_STACK {
      ExpressionsParse(curves, s, n);
    }
    var root;
    root, status := TreeFromNPE(shapes, stack, expr);
    if status != Built {
      return;
    }
    ParsedTree(curves, s, n);
    t := root.Abs();
    assert Parsed(s, curves, n, t);
    compacted, rimBlocks, pos := PlaceTree(root, flp, cfg, s, curves, n);
  }

  lemma ExpressionUnitsKnown(s: seq<int>, curves: seq<Curve>)
    requires IsExpression(s, |curves|)
    ensures UnitsKnown(curves, s)
  {
  }

  /** When the evaluation of an expression succeeds, its one result is the expression's tree. */
  lemma ParsedTree(curves: seq<Curve>, s: seq<int>, n: nat)
    requires UnitsKnown(curves, s) && IsExpression(s, n) && Run(curves, s, |s|).Stack?
    requires forall i :: 0 <= i < |curves| ==> WellShaped(curves[i])
    ensures |Run(curves, s, |s|).nodes| == 1
    ensures var t := Run(curves, s, |s|).nodes[0];
            && TreeOf(t, s, curves) && Summed(t) && LeavesWellShaped(t)
            && |Units(t)| == n && ListsAll(Units(t), n)
  {
    hide Run;
    hide ListsAll;
    hide WellShaped;
    RunSucceeds(curves, s, |s|);
    PrintOfParse(curves, s);
    var t := Run(curves, s, |s|).nodes[0];
    DescribedIsSummed(t, curves);
    UnitsOfExpression(t, curves, n);
  }

  lemma ShiftHoldsOrientations(us: seq<Rect>, t: Tree, pos: nat, dx: real, dy: real)
    requires Summed(t) && pos < |t.curve| && HoldsOrientations(us, t, pos)
    ensures HoldsOrientations(ShiftAll(us, dx - 0.0, dy - 0.0), t, pos)
  {
    hide Summed;
    hide Units;
    hide Orientations;
  }

  /** Wrap the rim around a placed tree. */
  method WrapPlaced(flp: Flp, thickness: real, ghost t: Tree, ghost pos: nat) returns (rimBlocks: int)
    requires thickness > 0.0 && 1 <= flp.nUnits && 3 * flp.nUnits + 2 <= flp.units.Length
    requires Summed(t) && pos < |t.curve| && HoldsOrientations(flp.units[..flp.nUnits], t, pos)
    requires TilesBox(flp.units[..flp.nUnits], Rect(0.0, 0.0, t.curve[pos].x, t.curve[pos].y))
    requires AllPositive(flp.units[..flp.nUnits])
    modifies flp.units, flp`nUnits
    ensures 0 <= rimBlocks <= 2 * old(flp.nUnits) + 2 && flp.nUnits == old(flp.nUnits) + rimBlocks
    ensures flp.nUnits <= flp.units.Length
    ensures var core := Rect(thickness, thickness, t.curve[pos].x, t.curve[pos].y);
            && Tiling(flp.units[..flp.nUnits][..old(flp.nUnits)], core)
            && TilesBox(flp.units[..flp.nUnits], Chip(core, thickness)) && AllPositive(flp.units[..flp.nUnits])
            && HoldsOrientations(flp.units[..flp.nUnits][..old(flp.nUnits)], t, pos)
    ensures flp.units[..flp.nUnits] == Wrapped(old(flp.units[..flp.nUnits]), t.curve[pos], true, thickness)
  {
    hide Tiling;
    hide TilesBox;
    hide AllPositive;
    hide AllInside;
    hide SlotsNeeded;
    hide HoldsOrientations;
    hide ShiftAll;
    hide RimAll;
    hide RimSafe;
    hide Chip;
    hide Summed;
    ghost var n, us, box := flp.nUnits, flp.units[..flp.nUnits], Rect(0.0, 0.0, t.curve[pos].x, t.curve[pos].y);
    ShiftHoldsOrientations(us, t, pos, thickness, thickness);
    BoxIsTiled(us, box);
    PositiveTiling(us, box);
    PositiveSlots(us);
    ShiftedTiling(us, box, thickness - box.leftx, thickness - box.bottomy);
    rimBlocks := WrapRim(flp, thickness, box);
    assert flp.units[..flp.nUnits][..n] == flp.units[..n];
    ghost var core := Rect(thickness, thickness, box.width, box.height);
    assert flp.units[..flp.nUnits] == flp.units[..n] + RimAll(flp.units[..n], core, thickness);
    WrappedChip(flp.units[..n], core, thickness);
  }

  lemma BoxIsTiled(us: seq<Rect>, box: Rect)
    requires TilesBox(us, box)
    ensures Tiling(us, box)
  {
  }

  /** Tiles with area and their rim: all blocks have area, and their areas add up to the chip. */
  lemma WrappedChip(us: seq<Rect>, core: Rect, t: real)
    requires AllPositive(us) && Cored(core, t) && Tiling(us, core)
    ensures TilesBox(us + RimAll(us, core, t), Chip(core, t)) && AllPositive(us + RimAll(us, core, t))
    ensures RimSafe(us, core, t)
  {
    hide Tiling;
    hide RimAll;
    hide TotalArea;
    RimIsPositive(us, core, t);
    RimTilesFrame(us, core, t);
    TilingMeasure.TilingArea(us + RimAll(us, core, t), Chip(core, t));
  }

  // ---------------------------------------------------------------- the annealing loop

  /** restore_dead_blocks: forget the rim, bring the compacted dead blocks back and clear all dead blocks. */
  method RestoreDeadBlocks(flp: Flp, n: int, compacted: int, rim: bool, rimBlocks: int)
    requires n >= 1 && 2 * n - 1 <= flp.units.Length
    modifies flp.units, flp`nUnits
    ensures flp.nUnits == old(flp.nUnits) - (if rim then rimBlocks else 0) + compacted
    ensures forall i :: 0 <= i < flp.units.Length ==>
      flp.units[i] == if n <= i < 2 * n - 1 then Rect(0.0, 0.0, 0.0, 0.0) else old(flp.units[i])
  {
    if rim {
      flp.nUnits := flp.nUnits - rimBlocks;
    }
    flp.nUnits := flp.nUnits + compacted;
    for i := 0 to n - 1
      modifies flp.units
      invariant forall k :: 0 <= k < flp.units.Length ==>
        flp.units[k] == if n <= k < n + i then Rect(0.0, 0.0, 0.0, 0.0) else old(flp.units[k])
    {
      flp.units[n + i] := Rect(0.0, 0.0, 0.0, 0.0);
    }
  }

  datatype Outcome = Finished | GaveUp | Overflowed

  /** s is reached from the initial expression by a run of moves. */
  ghost predicate Reachable(s: seq<int>, n: nat)
    requires n >= 1
  {
    exists run: seq<seq<int>> :: IsRun(run, n) && run[|run| - 1] == s
  }

  lemma InitialReachable(n: nat)
    requires n >= 1
    ensures Reachable(Initial(n), n)
  {
    assert IsRun([Initial(n)], n);
  }

  lemma MoveReachable(s: seq<int>, t: seq<int>, n: nat)
    requires n >= 1 && Reachable(s, n) && Move(s, t)
    ensures Reachable(t, n)
  {
    hide Move;
    var run :| IsRun(run, n) && run[|run| - 1] == s;
    var longer := run + [t];
    forall i | 0 <= i < |longer| - 1 ensures Move(longer[i], longer[i + 1]) {
      if i < |run| - 1 {
        assert Move(run[i], run[i + 1]);
      }
    }
    assert IsRun(longer, n);
  }

  /** The description is well-formed and its curves are the given ones. */
  ghost predicate DescribedBy(shapes: seq<Shape>, curves: seq<Curve>)
    reads ShapeRepr(shapes)
  {
    WellDescribed(shapes) && CurvesOf(shapes) == curves
  }

  /** PlaceExpression in terms of the described curves. */
  method PlaceDescribed(shapes: seq<Shape>, stack: NodeStack, expr: NPE, flp: Flp, cfg: Settings, ghost curves: seq<Curve>)
    returns (status: BuildStatus, compacted: int, rimBlocks: int, ghost t: Tree, ghost pos: nat)
    requires DescribedBy(shapes, curves) && stack.Valid() && stack.top == 0
    requires expr.Separate() && IsExpression(expr.Word(), |shapes|)
    requires Placeholder(flp, |shapes|, cfg.rim) && ValidSettings(cfg)
    requires stack !in ShapeRepr(shapes) && stack.slots !in ShapeRepr(shapes)
    requires flp !in ShapeRepr(shapes) && flp.units !in ShapeRepr(shapes)
    modifies stack`top, stack.slots, flp.units, flp`nUnits
    ensures stack.Valid() && DescribedBy(shapes, curves)
    ensures |shapes| <= MAX_STACK ==> status == Built
    ensures status == Built ==>
      && stack.top == 0
      && 0 <= flp.nUnits <= flp.units.Length
      && flp.nUnits == old(flp.nUnits) - compacted + rimBlocks && (!cfg.rim ==> rimBlocks == 0)
      && ChipOf(flp.units[..flp.nUnits], old(expr.Word()), curves, |shapes|, flp.nUnits - rimBlocks, t, pos,
                cfg.rim, cfg.thickness)
      && FloorOf(flp.units[..flp.nUnits], old(expr.Word()), curves, |shapes|, cfg)
  {
    hide IsExpression;
    hide ChipOf;
    hide FloorOf;
    hide WellDescribed;
    status, compacted, rimBlocks, t, pos := PlaceExpression(shapes, stack, expr, flp, cfg);
  }

  /** Place an expression's chip, take its metric and restore the placeholder. */
  method EvaluateExpression(shapes: seq<Shape>, stack: NodeStack, expr: NPE, flp: Flp, cfg: Settings, ghost curves: seq<Curve>)
    returns (status: BuildStatus, cost: real)
    requires DescribedBy(shapes, curves) && stack.Valid() && stack.top == 0
    requires expr.Separate() && IsExpression(expr.Word(), |shapes|)
    requires Placeholder(flp, |shapes|, cfg.rim) && ValidSettings(cfg)
    requires stack !in ShapeRepr(shapes) && stack.slots !in ShapeRepr(shapes)
    requires flp !in ShapeRepr(shapes) && flp.units !in ShapeRepr(shapes)
    modifies stack`top, stack.slots, flp.units, flp`nUnits
    ensures |shapes| <= MAX_STACK ==> status == Built
    ensures DescribedBy(shapes, curves)
    ensures status == Built ==>
      && stack.Valid() && stack.top == 0 && Placeholder(flp, |shapes|, cfg.rim)
      && cost == Cost(old(expr.Word()), curves, |shapes|, cfg)
  {
    hide IsExpression;
    hide ChipOf;
    hide FloorOf;
    hide Cost;
    hide DescribedBy;
    var compacted, rimBlocks;
    ghost var t, pos;
    ghost var s := expr.Word();
    cost := 0.0;
    status, compacted, rimBlocks, t, pos := PlaceDescribed(shapes, stack, expr, flp, cfg, curves);
    if status == Built {
      CostIsMetric(flp.units[..flp.nUnits], s, curves, |shapes|, cfg);
      cost := cfg.metric(flp.units[..flp.nUnits]);
      RestoreDeadBlocks(flp, |shapes|, compacted, cfg.rim, rimBlocks);
    }
  }

  /** An expression object in a valid state whose word is reached by moves. */
  ghost predicate Reached(e: NPE, n: nat)
    requires n >= 1
    reads e, e.elements, e.unitPos, e.flipPos, e.chainPos, e.ballotCount
  {
    e.Valid() && e.nUnits == n && Reachable(e.Word(), n)
  }

  /** One trial of the annealing loop: the move drawn and the metric of its result. It gives up exactly when the move
      has used up its passes, nearly all of which were refused throughout. */
  method Trial(shapes: seq<Shape>, stack: NodeStack, expr: NPE, ghost best: NPE, flp: Flp, cfg: Settings, k: nat,
               ghost curves: seq<Curve>)
    returns (outcome: Outcome, next: NPE, cost: real, k': nat, ghost refused: seq<seq<int>>)
    requires DescribedBy(shapes, curves) && stack.Valid() && stack.top == 0 && |shapes| >= 2
    requires Reached(expr, |shapes|) && Reached(best, |shapes|)
    requires Placeholder(flp, |shapes|, cfg.rim) && ValidSettings(cfg)
    requires stack !in ShapeRepr(shapes) && stack.slots !in ShapeRepr(shapes)
    requires flp !in ShapeRepr(shapes) && flp.units !in ShapeRepr(shapes)
    modifies stack`top, stack.slots, flp.units, flp`nUnits
    ensures Choosable(old(expr.Word()), |shapes|)
    ensures outcome == GaveUp <==> Passes(old(expr.Word()), |shapes|, cfg.draw, k, 0).tries == MAX_MOVES
    ensures outcome == GaveUp ==> GivesUp(old(expr.Word()), refused)
    ensures |shapes| <= MAX_STACK && AllSwapsAllowed(old(expr.Word())) ==> outcome == Finished
    ensures |shapes| <= MAX_STACK ==> outcome != Overflowed
    ensures DescribedBy(shapes, curves) && Reached(expr, |shapes|) && Reached(best, |shapes|)
    ensures expr.Word() == old(expr.Word()) && best.Word() == old(best.Word())
    ensures outcome == Finished ==>
      && fresh(next) && Reached(next, |shapes|)
      && stack.Valid() && stack.top == 0 && Placeholder(flp, |shapes|, cfg.rim)
      && var r := Passes(old(expr.Word()), |shapes|, cfg.draw, k, 0);
         next.Word() == r.word && k' == r.next && cost == Cost(r.word, curves, |shapes|, cfg)
  {
    hide IsExpression;
    hide DescribedBy;
    hide Move;
    hide Reachable;
    hide IndexedBy;
    hide RefusedPass;
    hide AllSwapsAllowed;
    hide Passes;
    hide Cost;
    var ok, tries;
    next, ok, tries, k', refused := MakeRandomMove(expr, cfg.draw, k);
    cost := 0.0;
    if !ok {
      GivesUpNeedsRefusedFlips(expr.Word(), refused);
      return GaveUp, next, cost, k', refused;
    }
    MoveReachable(expr.Word(), next.Word(), |shapes|);
    var status;
    status, cost := EvaluateExpression(shapes, stack, next, flp, cfg, curves);
    outcome := if status == Built then Finished else Overflowed;
  }

  /** The acceptance step: a cheaper expression is always kept, a dearer one when it passes the Boltzmann test, and a
      cheaper one that beats the best so far is copied as the best. */
  method Choose(expr: NPE, cost: real, best: NPE, bestCost: real, next: NPE, newCost: real, passes: bool, ghost n: nat)
    returns (expr': NPE, cost': real, best': NPE, bestCost': real)
    requires n >= 1 && Reached(expr, n) && Reached(best, n) && Reached(next, n)
    ensures Reached(expr', n) && Reached(best', n)
    ensures var kept, better := newCost < cost || passes, newCost < cost && newCost < bestCost;
            && expr'.Word() == (if kept then next.Word() else expr.Word()) && cost' == (if kept then newCost else cost)
            && best'.Word() == (if better then next.Word() else best.Word()) && bestCost' == (if better then newCost else bestCost)
  {
    hide IsExpression;
    hide Reachable;
    hide IndexedBy;
    expr', cost', best', bestCost' := expr, cost, best, bestCost;
    if newCost < cost || passes {
      expr' := next;
      if newCost < cost {
        if newCost < bestCost {
          best' := next.Duplicate();
          bestCost' := newCost;
        }
      }
      cost' := newCost;
    }
  }

  /** The initial expression and its copy as the best one. */
  method Start(n: nat) returns (expr: NPE, best: NPE)
    requires n >= 1
    ensures fresh(expr) && Reached(expr, n) && fresh(best) && Reached(best, n)
    ensures expr.Word() == Initial(n) && best.Word() == Initial(n)
  {
    hide IsExpression;
    hide Reachable;
    hide IndexedBy;
    hide Initial;
    expr := NPE.GetInitial(n);
    InitialReachable(n);
    best := expr.Duplicate();
  }

  lemma AfterNext(k: nat, n: nat, curves: seq<Curve>, cfg: Settings)
    requires n >= 2
    ensures After(0, n, curves, cfg) == Begin(n)
    ensures After(k + 1, n, curves, cfg) == Try(After(k, n, curves, cfg), k, n, curves, cfg)
  {
    hide Try;
    hide Begin;
  }

  lemma StuckNow(k: nat, l: nat, n: nat, curves: seq<Curve>, cfg: Settings)
    requires n >= 2 && k < l && !After(k, n, curves, cfg).stuck
    requires Passes(After(k, n, curves, cfg).word, n, cfg.draw, After(k, n, curves, cfg).next, 0).tries == MAX_MOVES
    ensures After(l, n, curves, cfg).stuck
  {
    hide After;
    hide Cost;
    hide Passes;
    AfterNext(k, n, curves, cfg);
    StuckStays(k + 1, l, n, curves, cfg);
  }

  /** The variables of the annealing loop stand for the search after i trials. */
  ghost predicate InStep(i: nat, n: nat, curves: seq<Curve>, cfg: Settings, word: seq<int>, cost: real, best: seq<int>,
                         bestCost: real, k: nat)
    requires n >= 2
  {
    var a := After(i, n, curves, cfg);
    && !a.stuck && word == a.word && best == a.best && k == a.next
    && cost == Cost(word, curves, n, cfg) && bestCost == Cost(best, curves, n, cfg)
  }

  lemma StepsOn(i: nat, n: nat, curves: seq<Curve>, cfg: Settings, word: seq<int>, cost: real, best: seq<int>,
                bestCost: real, k: nat, r: MoveResult, newCost: real)
    requires n >= 2 && InStep(i, n, curves, cfg, word, cost, best, bestCost, k) && Choosable(word, n)
    requires r == Passes(word, n, cfg.draw, k, 0) && r.tries != MAX_MOVES && newCost == Cost(r.word, curves, n, cfg)
    ensures var kept, better := newCost < cost || cfg.uphill(i), newCost < cost && newCost < bestCost;
            InStep(i + 1, n, curves, cfg, if kept then r.word else word, if kept then newCost else cost,
                   if better then r.word else best, if better then newCost else bestCost, r.next)
  {
    hide After;
    hide Cost;
    hide Passes;
    hide Choosable;
    AfterNext(i, n, curves, cfg);
  }

  /** One pass of the annealing loop. */
  method Advance(shapes: seq<Shape>, stack: NodeStack, expr: NPE, cost: real, best: NPE, bestCost: real, flp: Flp,
                 cfg: Settings, i: nat, k: nat, ghost curves: seq<Curve>, ghost trials: nat)
    returns (outcome: Outcome, expr': NPE, cost': real, best': NPE, bestCost': real, k': nat, ghost refused: seq<seq<int>>)
    requires DescribedBy(shapes, curves) && stack.Valid() && stack.top == 0 && |shapes| >= 2
    requires Reached(expr, |shapes|) && Reached(best, |shapes|)
    requires Placeholder(flp, |shapes|, cfg.rim) && ValidSettings(cfg) && i < trials
    requires stack !in ShapeRepr(shapes) && stack.slots !in ShapeRepr(shapes)
    requires flp !in ShapeRepr(shapes) && flp.units !in ShapeRepr(shapes)
    requires InStep(i, |shapes|, curves, cfg, expr.Word(), cost, best.Word(), bestCost, k)
    modifies stack`top, stack.slots, flp.units, flp`nUnits
    ensures |shapes| <= MAX_STACK ==> outcome != Overflowed
    ensures outcome == GaveUp ==> GivesUp(old(expr.Word()), refused) && Reachable(old(expr.Word()), |shapes|)
    ensures outcome == GaveUp ==> After(trials, |shapes|, curves, cfg).stuck
    ensures DescribedBy(shapes, curves)
    ensures outcome == Finished ==>
      && Reached(expr', |shapes|) && Reached(best', |shapes|)
      && stack.Valid() && stack.top == 0 && Placeholder(flp, |shapes|, cfg.rim)
      && InStep(i + 1, |shapes|, curves, cfg, expr'.Word(), cost', best'.Word(), bestCost', k')
  {
    hide IsExpression;
    hide Cost;
    hide Passes;
    hide After;
    hide DescribedBy;
    hide Reached;
    hide Reachable;
    hide GivesUp;
    hide Choosable;
    hide AllSwapsAllowed;
    var n := |shapes|;
    ReachedIsExpression(expr, n);
    expr', cost', best', bestCost' := expr, cost, best, bestCost;
    ghost var s := expr.Word();
    var next, newCost;
    outcome, next, newCost, k', refused := Trial(shapes, stack, expr, best, flp, cfg, k, curves);
    if outcome == GaveUp {
      StuckNow(i, trials, n, curves, cfg);
    } else if outcome == Finished {
      StepsOn(i, n, curves, cfg, s, cost, best.Word(), bestCost, k, Passes(s, n, cfg.draw, k, 0), newCost);
      expr', cost', best', bestCost' := Choose(expr, cost, best, bestCost, next, newCost, cfg.uphill(i), n);
    }
  }

  lemma StartsThere(n: nat, curves: seq<Curve>, cfg: Settings, cost: real)
    requires n >= 2 && cost == Cost(Initial(n), curves, n, cfg)
    ensures InStep(0, n, curves, cfg, Initial(n), cost, Initial(n), cost, 0)
  {
    hide Cost;
    hide After;
    AfterNext(0, n, curves, cfg);
  }

  lemma EndsThere(i: nat, n: nat, curves: seq<Curve>, cfg: Settings, word: seq<int>, cost: real, best: seq<int>,
                  bestCost: real, k: nat)
    requires n >= 2 && InStep(i, n, curves, cfg, word, cost, best, bestCost, k)
    ensures var a := After(i, n, curves, cfg);
            && !a.stuck && best == a.best
            && forall w :: w in a.tried ==> Cost(best, curves, n, cfg) <= Cost(w, curves, n, cfg)
  {
    hide Cost;
    hide After;
    BestIsLeast(i, n, curves, cfg);
  }

  /** The annealing loop of floorplan, with the number of trials, the metric and the Boltzmann test left open. With at most
      MAX_STACK units it finishes exactly when no random move gives up, which takes an expression reached by moves at
      which the passes were refused until their number ran out. When it finishes, the floorplan is the chip of the best
      expression of the search, and none of the expressions tried has a floorplan of smaller metric. */
  method Anneal(shapes: seq<Shape>, flp: Flp, cfg: Settings, trials: nat, ghost curves: seq<Curve>)
    returns (outcome: Outcome, returned: int, ghost word: seq<int>, ghost t: Tree, ghost pos: nat)
    requires DescribedBy(shapes, curves) && |shapes| >= 2 && ValidSettings(cfg)
    requires flp.nUnits == flp.units.Length
          == (if cfg.rim then 3 * (2 * |shapes| - 1) + 2 else 2 * |shapes| - 1)
    requires flp !in ShapeRepr(shapes) && flp.units !in ShapeRepr(shapes)
    modifies flp.units, flp`nUnits
    ensures |shapes| <= MAX_STACK ==> outcome != Overflowed
    ensures outcome != Overflowed ==> (outcome == GaveUp <==> After(trials, |shapes|, curves, cfg).stuck)
    ensures outcome == GaveUp ==> trials > 0 && exists s, refused :: Reachable(s, |shapes|) && GivesUp(s, refused)
    ensures outcome == Finished ==>
      && 0 <= flp.nUnits <= flp.units.Length && returned == old(flp.nUnits) - flp.nUnits
      && word == After(trials, |shapes|, curves, cfg).best && Reachable(word, |shapes|)
      && FloorOf(flp.units[..flp.nUnits], word, curves, |shapes|, cfg)
      && (forall w :: w in After(trials, |shapes|, curves, cfg).tried ==>
            cfg.metric(flp.units[..flp.nUnits]) <= Cost(w, curves, |shapes|, cfg))
      && exists tiles :: ChipOf(flp.units[..flp.nUnits], word, curves, |shapes|, tiles, t, pos, cfg.rim, cfg.thickness)
  {
    hide IsExpression;
    hide ChipOf;
    hide FloorOf;
    hide Cost;
    hide Passes;
    hide After;
    hide DescribedBy;
    hide Reached;
    hide Reachable;
    hide GivesUp;
    hide Initial;
    hide InStep;
    var n, originalN := |shapes|, flp.nUnits;
    word, t, pos, returned := Initial(n), Tree.Leaf(0, []), 0, 0;
    if cfg.rim {
      flp.nUnits := (flp.nUnits - 2) / 3;
    }
    var expr, best := Start(n);
    var stack := new NodeStack();
    ReachedIsExpression(expr, n);
    var status, cost := EvaluateExpression(shapes, stack, expr, flp, cfg, curves);
    if status != Built {
      return Overflowed, 0, word, t, pos;
    }
    var bestCost, k := cost, 0;
    StartsThere(n, curves, cfg, cost);
    for i := 0 to trials
      invariant fresh(stack) && fresh(stack.slots) && DescribedBy(shapes, curves)
      invariant Reached(expr, n) && Reached(best, n)
      invariant stack.Valid() && stack.top == 0 && Placeholder(flp, n, cfg.rim)
      invariant InStep(i, n, curves, cfg, expr.Word(), cost, best.Word(), bestCost, k)
    {
      var trial;
      ghost var refused;
      trial, expr, cost, best, bestCost, k, refused :=
        Advance(shapes, stack, expr, cost, best, bestCost, flp, cfg, i, k, curves, trials);
      if trial != Finished {
        return trial, 0, word, t, pos;
      }
    }
    ReachedIsExpression(best, n);
    EndsThere(trials, n, curves, cfg, expr.Word(), cost, best.Word(), bestCost, k);
    word := best.Word();
    var compacted, rimBlocks;
    status, compacted, rimBlocks, t, pos := PlaceDescribed(shapes, stack, best, flp, cfg, curves);
    if status != Built {
      return Overflowed, 0, word, t, pos;
    }
    CostIsMetric(flp.units[..flp.nUnits], word, curves, n, cfg);
    return Finished, originalN - flp.nUnits, word, t, pos;
  }

  lemma ReachedIsExpression(e: NPE, n: nat)
    requires n >= 1 && Reached(e, n)
    ensures e.Separate() && IsExpression(e.Word(), n) && Reachable(e.Word(), n)
  {
  }
}
