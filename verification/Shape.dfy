/** Shape curves: the non-dominated bounding boxes of a sub-floorplan, and their addition (shape.c). */
module ShapeCurve {
  import opened RealArithmetic
  import opened PolishExpression

  /** One orientation. For a sum, left and right are the positions of the constituent orientations and
      median is the offset of the second constituent. */
  datatype Entry = Entry(x: real, y: real, left: int, right: int, median: real)

  type Curve = seq<Entry>

  /** Positive sizes, widths non-decreasing and heights non-increasing. */
  ghost predicate WellShaped(c: Curve) {
    && |c| >= 1
    && (forall i :: 0 <= i < |c| ==> c[i].x > 0.0 && c[i].y > 0.0)
    && (forall i, j :: 0 <= i < j < |c| ==> c[i].x <= c[j].x && c[i].y >= c[j].y)
  }

  // ---------------------------------------------------------------- the merging walk

  /** The index pairs visited when two key sequences are merged, always advancing past the larger key
      (past the first one on a tie) until one sequence is exhausted. */
  function Walk(p: seq<real>, q: seq<real>, i: nat, j: nat): (w: seq<(nat, nat)>)
    requires i <= |p| && j <= |q|
    ensures i < |p| && j < |q| ==> |w| > 0
    ensures forall k :: 0 <= k < |w| ==> i <= w[k].0 < |p| && j <= w[k].1 < |q|
    decreases |p| - i + |q| - j
  {
    if i == |p| || j == |q| then []
    else [(i, j)] + (if p[i] >= q[j] then Walk(p, q, i + 1, j) else Walk(p, q, i, j + 1))
  }

  lemma WalkUnfolds(p: seq<real>, q: seq<real>, i: nat, j: nat)
    requires i <= |p| && j <= |q|
    ensures Walk(p, q, i, j)
         == if i == |p| || j == |q| then []
            else [(i, j)] + (if p[i] >= q[j] then Walk(p, q, i + 1, j) else Walk(p, q, i, j + 1))
  {
  }

  ghost predicate Descending(p: seq<real>) {
    forall i, j :: 0 <= i < j < |p| ==> p[i] >= p[j]
  }

  lemma {:induction false} WalkAdvances(p: seq<real>, q: seq<real>, i: nat, j: nat, k: nat, k': nat)
    requires i <= |p| && j <= |q| && k < k' < |Walk(p, q, i, j)|
    ensures var w := Walk(p, q, i, j);
            w[k].0 <= w[k'].0 && w[k].1 <= w[k'].1
    decreases |p| - i + |q| - j
  {
    hide Walk;
    WalkUnfolds(p, q, i, j);
    if k > 0 {
      if p[i] >= q[j] {
        WalkAdvances(p, q, i + 1, j, k - 1, k' - 1);
      } else {
        WalkAdvances(p, q, i, j + 1, k - 1, k' - 1);
      }
    }
  }

  /** The walk visits a pair of no larger indices whose keys are within any bound that a and b keep. */
  lemma {:induction false} WalkKeeps(p: seq<real>, q: seq<real>, i: nat, j: nat, a: nat, b: nat, m: real)
    returns (c: nat, d: nat)
    requires i <= a < |p| && j <= b < |q| && p[a] <= m && q[b] <= m
    ensures (c, d) in Walk(p, q, i, j) && c <= a && d <= b && p[c] <= m && q[d] <= m
    decreases |p| - i + |q| - j
  {
    hide Walk;
    WalkUnfolds(p, q, i, j);
    if p[i] <= m && q[j] <= m {
      c, d := i, j;
    } else if p[i] >= q[j] {
      c, d := WalkKeeps(p, q, i + 1, j, a, b, m);
    } else {
      c, d := WalkKeeps(p, q, i, j + 1, a, b, m);
    }
  }

  /** For every pair (a, b) the walk visits a pair of no larger indices whose keys are no larger than the
      larger key of (a, b): skipping all other pairs loses nothing. */
  lemma WalkDominates(p: seq<real>, q: seq<real>, i: nat, j: nat, a: nat, b: nat) returns (k: nat)
    requires i <= a < |p| && j <= b < |q|
    ensures var w := Walk(p, q, i, j);
            && k < |w| && w[k].0 <= a && w[k].1 <= b
            && p[w[k].0] <= Max(p[a], q[b]) && q[w[k].1] <= Max(p[a], q[b])
  {
    hide Walk;
    var c, d := WalkKeeps(p, q, i, j, a, b, Max(p[a], q[b]));
    k :| 0 <= k < |Walk(p, q, i, j)| && Walk(p, q, i, j)[k] == (c, d);
  }

  /** Each step of the walk advances one index by one, so a walk is no longer than the sequences together. */
  lemma {:induction false} WalkSteps(p: seq<real>, q: seq<real>, i: nat, j: nat, k: nat)
    requires i <= |p| && j <= |q| && k < |Walk(p, q, i, j)|
    ensures Walk(p, q, i, j)[k].0 + Walk(p, q, i, j)[k].1 == i + j + k
    decreases |p| - i + |q| - j
  {
    hide Walk;
    WalkUnfolds(p, q, i, j);
    if k > 0 {
      if p[i] >= q[j] {
        WalkSteps(p, q, i + 1, j, k - 1);
      } else {
        WalkSteps(p, q, i, j + 1, k - 1);
      }
    }
  }

  /** The pair (a, b) is visited exactly when the key before a is at least that of b and the key before b is larger than
      that of a: neither index could be taken back without a larger key. */
  lemma {:induction false} WalkVisitsIff(p: seq<real>, q: seq<real>, i: nat, j: nat, a: nat, b: nat)
    requires Descending(p) && Descending(q) && i <= a < |p| && j <= b < |q|
    ensures (a, b) in Walk(p, q, i, j) <==> (a == i || p[a - 1] >= q[b]) && (b == j || q[b - 1] > p[a])
    decreases |p| - i + |q| - j
  {
    hide Walk;
    WalkUnfolds(p, q, i, j);
    if p[i] >= q[j] {
      var rest := Walk(p, q, i + 1, j);
      if a > i {
        WalkVisitsIff(p, q, i + 1, j, a, b);
      } else {
        assert (a, b) !in rest;
      }
    } else {
      var rest := Walk(p, q, i, j + 1);
      if b > j {
        WalkVisitsIff(p, q, i, j + 1, a, b);
      } else {
        assert (a, b) !in rest;
      }
    }
  }

  // ---------------------------------------------------------------- addition of curves

  function Heights(c: Curve): seq<real> {
    seq(|c|, i requires 0 <= i < |c| => c[i].y)
  }

  function WidthsReversed(c: Curve): seq<real> {
    seq(|c|, i requires 0 <= i < |c| => c[|c| - 1 - i].x)
  }

  /** Orientation i of a beside orientation j of b. */
  function Beside(a: Curve, b: Curve, i: int, j: int): Entry
    requires 0 <= i < |a| && 0 <= j < |b|
  {
    Entry(a[i].x + b[j].x, Max(a[i].y, b[j].y), i, j, a[i].x)
  }

  /** Orientation j of b on top of orientation i of a. */
  function Stacked(a: Curve, b: Curve, i: int, j: int): Entry
    requires 0 <= i < |a| && 0 <= j < |b|
  {
    Entry(Max(a[i].x, b[j].x), a[i].y + b[j].y, i, j, a[i].y)
  }

  /** A vertical cut merges the heights; a horizontal one merges the widths, both curves read backwards. */
  function Keys(c: Curve, cut: int): (p: seq<real>)
    ensures |p| == |c|
  {
    if cut == CUT_VERTICAL then Heights(c) else WidthsReversed(c)
  }

  function SumWalk(a: Curve, b: Curve, cut: int): (w: seq<(nat, nat)>)
    ensures forall k :: 0 <= k < |w| ==> w[k].0 < |a| && w[k].1 < |b|
  {
    Walk(Keys(a, cut), Keys(b, cut), 0, 0)
  }

  /** The orientation a visited pair stands for. */
  function Combine(a: Curve, b: Curve, cut: int, step: (nat, nat)): Entry
    requires step.0 < |a| && step.1 < |b|
  {
    if cut == CUT_VERTICAL then Beside(a, b, step.0, step.1)
    else Stacked(a, b, |a| - 1 - step.0, |b| - 1 - step.1)
  }

  /** The step that writes entry k, and the entry that step k writes, of a sum with total entries. */
  function SumIndex(cut: int, total: int, k: int): int {
    if cut == CUT_VERTICAL then k else total - 1 - k
  }

  /** The sum of two curves. A horizontal sum is written from its end. */
  function AddCurves(a: Curve, b: Curve, cut: int): (c: Curve)
    ensures |c| == |SumWalk(a, b, cut)|
  {
    var w := SumWalk(a, b, cut);
    seq(|w|, k requires 0 <= k < |w| =>
      Combine(a, b, cut, w[SumIndex(cut, |w|, k)]))
  }

  /** Where the pair visited at step h ends up in the sum. */
  lemma SumAt(a: Curve, b: Curve, cut: int, h: nat)
    requires h < |SumWalk(a, b, cut)|
    ensures AddCurves(a, b, cut)[SumIndex(cut, |SumWalk(a, b, cut)|, h)]
         == Combine(a, b, cut, SumWalk(a, b, cut)[h])
  {
    hide SumWalk;
  }

  /** A curve that holds what every step writes is the sum. */
  lemma SumFilled(c: Curve, a: Curve, b: Curve, cut: int)
    requires |c| == |SumWalk(a, b, cut)|
    requires forall h :: 0 <= h < |c| ==> c[SumIndex(cut, |c|, h)] == Combine(a, b, cut, SumWalk(a, b, cut)[h])
    ensures c == AddCurves(a, b, cut)
  {
    hide SumWalk;
    hide Combine;
    forall h | 0 <= h < |c| ensures c[h] == AddCurves(a, b, cut)[h] {
      SumAt(a, b, cut, SumIndex(cut, |c|, h));
      assert SumIndex(cut, |c|, SumIndex(cut, |c|, h)) == h;
    }
  }

  /** The bounding box of two boxes under a cut. */
  function BoxWidth(cut: int, x1: real, x2: real): real {
    if cut == CUT_VERTICAL then x1 + x2 else Max(x1, x2)
  }

  function BoxHeight(cut: int, y1: real, y2: real): real {
    if cut == CUT_VERTICAL then Max(y1, y2) else y1 + y2
  }

  /** Every entry of a sum is realised by the two orientations it names. */
  lemma SumIsRealised(a: Curve, b: Curve, cut: int, k: nat)
    requires k < |AddCurves(a, b, cut)|
    ensures var e := AddCurves(a, b, cut)[k];
            && 0 <= e.left < |a| && 0 <= e.right < |b|
            && e.x == BoxWidth(cut, a[e.left].x, b[e.right].x)
            && e.y == BoxHeight(cut, a[e.left].y, b[e.right].y)
            && e.median == (if cut == CUT_VERTICAL then a[e.left].x else a[e.left].y)
  {
    hide SumWalk;
    var w := SumWalk(a, b, cut);
    assert AddCurves(a, b, cut)[k] == Combine(a, b, cut, w[SumIndex(cut, |w|, k)]);
  }

  lemma KeysDescend(c: Curve, cut: int)
    requires WellShaped(c)
    ensures Descending(Keys(c, cut))
  {
  }

  lemma SumOrdered(a: Curve, b: Curve, cut: int, k: nat, k': nat)
    requires WellShaped(a) && WellShaped(b) && k < k' < |AddCurves(a, b, cut)|
    ensures AddCurves(a, b, cut)[k].x <= AddCurves(a, b, cut)[k'].x
    ensures AddCurves(a, b, cut)[k].y >= AddCurves(a, b, cut)[k'].y
  {
    hide Walk;
    hide Keys;
    hide AddCurves;
    var w := SumWalk(a, b, cut);
    var h, h' := SumIndex(cut, |w|, k), SumIndex(cut, |w|, k');
    SumAt(a, b, cut, h);
    SumAt(a, b, cut, h');
    if cut == CUT_VERTICAL {
      WalkAdvances(Keys(a, cut), Keys(b, cut), 0, 0, h, h');
    } else {
      WalkAdvances(Keys(a, cut), Keys(b, cut), 0, 0, h', h);
    }
  }

  /** The sum of well-shaped curves is well-shaped. */
  lemma SumIsWellShaped(a: Curve, b: Curve, cut: int)
    requires WellShaped(a) && WellShaped(b)
    ensures WellShaped(AddCurves(a, b, cut))
  {
    hide Walk;
    hide Keys;
    hide AddCurves;
    var s, w := AddCurves(a, b, cut), SumWalk(a, b, cut);
    forall k | 0 <= k < |s| ensures s[k].x > 0.0 && s[k].y > 0.0 {
      SumIsRealised(a, b, cut, k);
    }
    forall k, k' | 0 <= k < k' < |s| ensures s[k].x <= s[k'].x && s[k].y >= s[k'].y {
      SumOrdered(a, b, cut, k, k');
    }
  }

  /** No combination of orientations beats every entry of the sum. */
  lemma SumDominates(a: Curve, b: Curve, cut: int, i: nat, j: nat) returns (k: nat)
    requires WellShaped(a) && WellShaped(b) && i < |a| && j < |b|
    ensures k < |AddCurves(a, b, cut)|
    ensures AddCurves(a, b, cut)[k].x <= BoxWidth(cut, a[i].x, b[j].x)
    ensures AddCurves(a, b, cut)[k].y <= BoxHeight(cut, a[i].y, b[j].y)
  {
    hide AddCurves;
    hide SumWalk;
    hide WellShaped;
    hide Combine;
    hide Keys;
    var w := SumWalk(a, b, cut);
    var h := SumWalkDominates(a, b, cut, if cut == CUT_VERTICAL then i else |a| - 1 - i, if cut == CUT_VERTICAL then j else |b| - 1 - j);
    k := SumIndex(cut, |w|, h);
    SumAt(a, b, cut, h);
    StepDominates(a, b, cut, i, j, w[h]);
  }

  lemma KeyIs(c: Curve, cut: int, i: nat)
    requires i < |c|
    ensures Keys(c, cut)[i] == if cut == CUT_VERTICAL then c[i].y else c[|c| - 1 - i].x
  {
  }

  /** An earlier step with keys no larger than the larger key of (i, j) stands for a box no larger in either direction. */
  lemma StepDominates(a: Curve, b: Curve, cut: int, i: nat, j: nat, step: (nat, nat))
    requires WellShaped(a) && WellShaped(b) && i < |a| && j < |b|
    requires var p, q := Keys(a, cut), Keys(b, cut);
             var i', j' := if cut == CUT_VERTICAL then i else |a| - 1 - i, if cut == CUT_VERTICAL then j else |b| - 1 - j;
             && step.0 <= i' && step.1 <= j'
             && p[step.0] <= Max(p[i'], q[j']) && q[step.1] <= Max(p[i'], q[j'])
    ensures Combine(a, b, cut, step).x <= BoxWidth(cut, a[i].x, b[j].x)
    ensures Combine(a, b, cut, step).y <= BoxHeight(cut, a[i].y, b[j].y)
  {
    hide Keys;
    KeyIs(a, cut, step.0);
    KeyIs(b, cut, step.1);
    if cut == CUT_VERTICAL {
      KeyIs(a, cut, i);
      KeyIs(b, cut, j);
    } else {
      KeyIs(a, cut, |a| - 1 - i);
      KeyIs(b, cut, |b| - 1 - j);
    }
  }

  lemma SumWalkDominates(a: Curve, b: Curve, cut: int, i: nat, j: nat) returns (k: nat)
    requires WellShaped(a) && WellShaped(b) && i < |a| && j < |b|
    ensures var w, p, q := SumWalk(a, b, cut), Keys(a, cut), Keys(b, cut);
            && k < |w| && w[k].0 <= i && w[k].1 <= j
            && p[w[k].0] <= Max(p[i], q[j]) && q[w[k].1] <= Max(p[i], q[j])
  {
    hide Walk;
    hide Keys;
    k := WalkDominates(Keys(a, cut), Keys(b, cut), 0, 0, i, j);
  }
  /** Orientations i and j make an entry of a vertical sum exactly when neither can be exchanged for the next narrower one
      without making the pair taller than the other orientation is: the previous entry of a is at least as tall as j, and
      the previous entry of b is taller than i. */
  lemma BesideEntriesIff(a: Curve, b: Curve, i: nat, j: nat)
    requires WellShaped(a) && WellShaped(b) && i < |a| && j < |b|
    ensures Beside(a, b, i, j) in AddCurves(a, b, CUT_VERTICAL)
       <==> (i == 0 || a[i - 1].y >= b[j].y) && (j == 0 || b[j - 1].y > a[i].y)
  {
    hide Walk;
    var w := SumWalk(a, b, CUT_VERTICAL);
    KeysDescend(a, CUT_VERTICAL);
    KeysDescend(b, CUT_VERTICAL);
    WalkVisitsIff(Keys(a, CUT_VERTICAL), Keys(b, CUT_VERTICAL), 0, 0, i, j);
    VisitedIsEntry(a, b, CUT_VERTICAL, (i, j));
    assert Keys(a, CUT_VERTICAL) == Heights(a) && Keys(b, CUT_VERTICAL) == Heights(b);
  }

  /** The same for a horizontal sum, whose curves are read from their widest entries. */
  lemma StackedEntriesIff(a: Curve, b: Curve, i: nat, j: nat)
    requires WellShaped(a) && WellShaped(b) && i < |a| && j < |b|
    ensures Stacked(a, b, i, j) in AddCurves(a, b, CUT_HORIZONTAL)
       <==> (i == |a| - 1 || a[i + 1].x >= b[j].x) && (j == |b| - 1 || b[j + 1].x > a[i].x)
  {
    hide Walk;
    KeysDescend(a, CUT_HORIZONTAL);
    KeysDescend(b, CUT_HORIZONTAL);
    var p, q := |a| - 1 - i, |b| - 1 - j;
    WalkVisitsIff(Keys(a, CUT_HORIZONTAL), Keys(b, CUT_HORIZONTAL), 0, 0, p, q);
    VisitedIsEntry(a, b, CUT_HORIZONTAL, (p, q));
    assert Keys(a, CUT_HORIZONTAL) == WidthsReversed(a) && Keys(b, CUT_HORIZONTAL) == WidthsReversed(b);
  }

  lemma VisitedIsEntry(a: Curve, b: Curve, cut: int, step: (nat, nat))
    requires step.0 < |a| && step.1 < |b|
    ensures step in SumWalk(a, b, cut) <==> Combine(a, b, cut, step) in AddCurves(a, b, cut)
  {
    hide SumWalk;
    var w, c := SumWalk(a, b, cut), AddCurves(a, b, cut);
    if step in w {
      var h :| 0 <= h < |w| && w[h] == step;
      SumAt(a, b, cut, h);
    }
    if Combine(a, b, cut, step) in c {
      var k :| 0 <= k < |c| && c[k] == Combine(a, b, cut, step);
      assert c[k] == Combine(a, b, cut, w[SumIndex(cut, |w|, k)]);
    }
  }

  /** From one entry of a sum to the next exactly one of the two orientations moves on by one, so a sum has fewer entries
      than its parts together. */
  lemma SumSteps(a: Curve, b: Curve, cut: int, k: nat)
    requires k + 1 < |AddCurves(a, b, cut)|
    ensures var c := AddCurves(a, b, cut);
            && c[k].left <= c[k + 1].left && c[k].right <= c[k + 1].right
            && c[k].left + c[k].right + 1 == c[k + 1].left + c[k + 1].right
  {
    hide Walk;
    hide Keys;
    hide AddCurves;
    var w := SumWalk(a, b, cut);
    var h, h' := SumIndex(cut, |w|, k), SumIndex(cut, |w|, k + 1);
    SumAt(a, b, cut, h);
    SumAt(a, b, cut, h');
    WalkSteps(Keys(a, cut), Keys(b, cut), 0, 0, h);
    WalkSteps(Keys(a, cut), Keys(b, cut), 0, 0, h');
    if cut == CUT_VERTICAL {
      WalkAdvances(Keys(a, cut), Keys(b, cut), 0, 0, h, h');
    } else {
      WalkAdvances(Keys(a, cut), Keys(b, cut), 0, 0, h', h);
    }
  }

  lemma SumIsShort(a: Curve, b: Curve, cut: int)
    requires a != [] && b != []
    ensures 1 <= |AddCurves(a, b, cut)| < |a| + |b|
  {
    var w := SumWalk(a, b, cut);
    assert |w| > 0;
    WalkSteps(Keys(a, cut), Keys(b, cut), 0, 0, |w| - 1);
  }

  function Area(e: Entry): real {
    e.x * e.y
  }

  // ---------------------------------------------------------------- curves as objects

  /** shape_t. The three arrays of a sum are empty in a leaf curve (where the original leaves them NULL). */
  class Shape {
    const size: int
    const isSum: bool
    const x: array<real>
    const y: array<real>
    const leftPos: array<int>
    const rightPos: array<int>
    const median: array<real>

    ghost predicate Valid() {
      && size == x.Length == y.Length
      && leftPos.Length == rightPos.Length == median.Length == (if isSum then size else 0)
      && x != y && leftPos != rightPos && median != x && median != y
    }

    ghost const Footprint: set<object> := {x, y, leftPos, rightPos, median}

    ghost function EntryAt(i: int): Entry
      requires Valid() && 0 <= i < size
      reads Footprint
    {
      if isSum then Entry(x[i], y[i], leftPos[i], rightPos[i], median[i]) else Entry(x[i], y[i], 0, 0, 0.0)
    }

    ghost function View(): (c: Curve)
      requires Valid()
      reads Footprint
      ensures |c| == size
      ensures forall i :: 0 <= i < size ==> c[i] == EntryAt(i)
    {
      seq(size, i requires 0 <= i < size reads Footprint => EntryAt(i))
    }

    constructor (n: int, sum: bool)
      requires n >= 0
      ensures Valid() && size == n && isSum == sum
      ensures fresh(Footprint)
    {
      size := n;
      isSum := sum;
      x := new real[n];
      y := new real[n];
      leftPos := new int[if sum then n else 0];
      rightPos := new int[if sum then n else 0];
      median := new real[if sum then n else 0];
    }

    /** shape_duplicate: a copy that shares no array with the original. */
    method Duplicate() returns (copy: Shape)
      requires Valid()
      ensures fresh(copy) && fresh(copy.Footprint) && copy.Valid()
      ensures copy.isSum == isSum && copy.View() == View()
    {
      copy := new Shape(size, isSum);
      var i := 0;
      while i < size
        invariant 0 <= i <= size
        invariant forall k :: 0 <= k < i ==> copy.EntryAt(k) == EntryAt(k)
      {
        copy.x[i] := x[i];
        copy.y[i] := y[i];
        if isSum {
          copy.leftPos[i] := leftPos[i];
          copy.rightPos[i] := rightPos[i];
          copy.median[i] := median[i];
        }
        i := i + 1;
      }
    }

    /** min_area_pos: the first orientation of least area. */
    method MinAreaPos() returns (pos: int)
      requires Valid() && size >= 1
      ensures 0 <= pos < size
      ensures forall i :: 0 <= i < size ==> Area(View()[pos]) <= Area(View()[i])
      ensures forall i :: 0 <= i < pos ==> Area(View()[pos]) < Area(View()[i])
    {
      var i := 1;
      pos := 0;
      var min := x[0] * y[0];
      while i < size
        invariant 0 <= pos < i <= size
        invariant min == Area(View()[pos])
        invariant forall k :: 0 <= k < i ==> Area(View()[pos]) <= Area(View()[k])
        invariant forall k :: 0 <= k < pos ==> Area(View()[pos]) < Area(View()[k])
      {
        if min > x[i] * y[i] {
          min := x[i] * y[i];
          pos := i;
        }
        i := i + 1;
      }
    }

    lemma KeyAt(cut: int, i: int)
      requires Valid() && 0 <= i < size
      ensures Keys(View(), cut)[i] == if cut == CUT_VERTICAL then y[i] else x[size - 1 - i]
    {
    }

    /** The comparison that steers both loops of shape_add. */
    static method FirstIsLarger(s1: Shape, s2: Shape, cut: int, i: int, j: int) returns (larger: bool)
      requires s1.Valid() && s2.Valid() && 0 <= i < s1.size && 0 <= j < s2.size
      ensures larger == (Keys(s1.View(), cut)[i] >= Keys(s2.View(), cut)[j])
    {
      s1.KeyAt(cut, i);
      s2.KeyAt(cut, j);
      larger := if cut == CUT_VERTICAL then s1.y[i] >= s2.y[j]
                else s1.x[s1.size - 1 - i] >= s2.x[s2.size - 1 - j];
    }

    /** The loop of shape_add that determines the result size. */
    static method CountSteps(s1: Shape, s2: Shape, cut: int) returns (total: int)
      requires s1.Valid() && s2.Valid()
      ensures total == |AddCurves(s1.View(), s2.View(), cut)|
    {
      hide Walk;
      hide AddCurves;
      hide Keys;
      hide Shape.Valid;
      hide Shape.View;
      ghost var p, q := Keys(s1.View(), cut), Keys(s2.View(), cut);
      var i, j, m, n := 0, 0, s1.size, s2.size;
      total := 0;
      while i < m && j < n
        invariant 0 <= i <= m && 0 <= j <= n
        invariant total + |Walk(p, q, i, j)| == |Walk(p, q, 0, 0)|
        decreases m - i + n - j
      {
        WalkUnfolds(p, q, i, j);
        var advanceFirst := FirstIsLarger(s1, s2, cut, i, j);
        if advanceFirst {
          i := i + 1;
        } else {
          j := j + 1;
        }
        total := total + 1;
      }
      WalkUnfolds(p, q, i, j);
    }

    /** shape_add. */
    static method Add(s1: Shape, s2: Shape, cut: int) returns (sum: Shape)
      requires s1.Valid() && s2.Valid()
      ensures fresh(sum) && fresh(sum.Footprint) && sum.Valid() && sum.isSum
      ensures sum.View() == AddCurves(s1.View(), s2.View(), cut)
    {
      hide AddCurves;
      hide Walk;
      hide Keys;
      hide Combine;
      hide Shape.Valid;
      hide Shape.View;
      hide Shape.EntryAt;
      var total := CountSteps(s1, s2, cut);
      sum := new Shape(total, true);
      ghost var a, b, w := s1.View(), s2.View(), SumWalk(s1.View(), s2.View(), cut);
      ghost var p, q := Keys(a, cut), Keys(b, cut);
      var i, j, k, m, n := 0, 0, 0, s1.size, s2.size;
      while i < m && j < n
        invariant 0 <= i <= m && 0 <= j <= n && 0 <= k <= |w|
        invariant s1.View() == a && s2.View() == b
        invariant Walk(p, q, i, j) == w[k..]
        invariant forall h :: 0 <= h < k ==> sum.View()[SumIndex(cut, total, h)] == Combine(a, b, cut, w[h])
        decreases m - i + n - j
        modifies sum.Footprint
      {
        WalkUnfolds(p, q, i, j);
        assert w[k] == (i, j) by { assert w[k] == w[k..][0]; }
        var advanceFirst := FirstIsLarger(s1, s2, cut, i, j);
        sum.Put(s1, s2, cut, i, j, SumIndex(cut, total, k));
        if advanceFirst {
          i := i + 1;
        } else {
          j := j + 1;
        }
        k := k + 1;
      }
      WalkUnfolds(p, q, i, j);
      SumFilled(sum.View(), a, b, cut);
    }

    /** Store the combination of step (i, j) as entry k: side by side for a vertical cut, and otherwise the
        curves are read backwards and stacked. */
    method Put(s1: Shape, s2: Shape, cut: int, i: int, j: int, k: int)
      requires s1.Valid() && s2.Valid() && Valid() && isSum && 0 <= k < size
      requires 0 <= i < s1.size && 0 <= j < s2.size
      requires Footprint !! s1.Footprint && Footprint !! s2.Footprint
      modifies Footprint
      ensures View() == old(View())[k := Combine(s1.View(), s2.View(), cut, (i, j))]
    {
      hide View;
      hide Beside;
      hide Stacked;
      if cut == CUT_VERTICAL {
        PutBeside(s1, s2, i, j, k);
      } else {
        PutStacked(s1, s2, s1.size - 1 - i, s2.size - 1 - j, k);
      }
    }

    /** Store orientation j of s2 beside orientation i of s1 as entry k. */
    method PutBeside(s1: Shape, s2: Shape, i: int, j: int, k: int)
      requires s1.Valid() && s2.Valid() && Valid() && isSum && 0 <= k < size
      requires 0 <= i < s1.size && 0 <= j < s2.size
      requires Footprint !! s1.Footprint && Footprint !! s2.Footprint
      modifies Footprint
      ensures View() == old(View())[k := Beside(s1.View(), s2.View(), i, j)]
    {
      x[k] := s1.x[i] + s2.x[j];
      y[k] := if s1.y[i] > s2.y[j] then s1.y[i] else s2.y[j];
      leftPos[k] := i;
      rightPos[k] := j;
      median[k] := s1.x[i];
    }

    /** Store orientation j of s2 on top of orientation i of s1 as entry k. */
    method PutStacked(s1: Shape, s2: Shape, i: int, j: int, k: int)
      requires s1.Valid() && s2.Valid() && Valid() && isSum && 0 <= k < size
      requires 0 <= i < s1.size && 0 <= j < s2.size
      requires Footprint !! s1.Footprint && Footprint !! s2.Footprint
      modifies Footprint
      ensures View() == old(View())[k := Stacked(s1.View(), s2.View(), i, j)]
    {
      x[k] := if s1.x[i] > s2.x[j] then s1.x[i] else s2.x[j];
      y[k] := s1.y[i] + s2.y[j];
      leftPos[k] := i;
      rightPos[k] := j;
      median[k] := s1.y[i];
    }
  }
}
