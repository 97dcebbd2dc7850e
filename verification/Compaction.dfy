/** When placement lets blocks absorb dead space, how much they grow by it, and where the operands of a cut lie
    (shape.c). */
module Compaction {
  import opened RealArithmetic
  import opened PolishExpression
  import opened ShapeCurve
  import opened SlicingTree
  import opened Sizing
  import Rim

  // ---------------------------------------------------------------- one cut

  /** The dead space d lies at the upper end of child c's column, over it or inside it. */
  ghost predicate OverColumn(d: Rect, c: Rect, inside: bool) {
    && d.leftx == c.leftx && d.width == c.width
    && (if inside then Rim.Top(c) == Rim.Top(d) else Rim.Top(c) == d.bottomy)
  }

  ghost predicate BesideRow(d: Rect, c: Rect, inside: bool) {
    && d.bottomy == c.bottomy && d.height == c.height
    && (if inside then Rim.Right(c) == Rim.Right(d) else Rim.Right(c) == d.leftx)
  }

  /** The area of a child without the dead space it may have absorbed. */
  function Bare(c: Rect, s: Split): real {
    if s.counted then RectArea(c) else RectArea(c) - RectArea(s.dead)
  }

  /** What becomes of the dead space d over or beside child c: it is counted as a block exactly when it is larger than
      the given share of the child. */
  ghost predicate AbsorbsRightly(s: Split, c: Rect, compact: bool, ratio: real) {
    Bare(c, s) > 0.0 && (s.counted <==> !compact || RectArea(s.dead) > ratio * Bare(c, s))
  }

  lemma SameRatio(d: real, h: real, w: real, ratio: real)
    requires h > 0.0 && w > 0.0
    ensures w * h > 0.0 && (d / h <= ratio <==> w * d <= ratio * (w * h))
  {
    PositiveProduct(w, h);
    var q := d / h;
    Quotient(d, h);
    assert w * d == q * (w * h);
    Cancel(q, ratio, w * h);
  }

  lemma Cancel(x: real, y: real, a: real)
    requires a > 0.0
    ensures x <= y <==> x * a <= y * a
  {
    if x > y {
      PositiveProduct(x - y, a);
    } else {
      SignOfProduct(y - x, a);
    }
  }

  /** A vertical cut: the dead space reaches up to the top of the box, over the lower child. It is left out exactly
      when compaction is on and its area is at most ratio times that child's. */
  lemma BesideAbsorbs(box: Rect, a: Entry, b: Entry, compact: bool, ratio: real)
    requires a.x > 0.0 && a.y > 0.0 && b.x > 0.0 && b.y > 0.0
    requires box.width >= a.x + b.x && box.height >= Max(a.y, b.y)
    ensures var s := SplitBeside(box, a.x, a.y, b.x, b.y, a.x, compact, ratio);
            var c := if a.y <= b.y then s.first else s.second;
            && OverColumn(s.dead, c, !s.counted) && Rim.Top(s.dead) == Rim.Top(box)
            && AbsorbsRightly(s, c, compact, ratio)
  {
    var s := SplitBeside(box, a.x, a.y, b.x, b.y, a.x, compact, ratio);
    var c := if a.y <= b.y then s.first else s.second;
    var h := if s.counted then c.height else c.height - s.dead.height;
    SameRatio(s.dead.height, h, c.width, ratio);
    Distribute(h, s.dead.height, c.width);
  }

  /** A horizontal cut: the dead space reaches to the right edge of the box, beside the narrower child. */
  lemma StackedAbsorbs(box: Rect, a: Entry, b: Entry, compact: bool, ratio: real)
    requires a.x > 0.0 && a.y > 0.0 && b.x > 0.0 && b.y > 0.0
    requires box.height >= a.y + b.y && box.width >= Max(a.x, b.x)
    ensures var s := SplitStacked(box, a.x, a.y, b.x, b.y, a.y, compact, ratio);
            var c := if a.x <= b.x then s.first else s.second;
            && BesideRow(s.dead, c, !s.counted) && Rim.Right(s.dead) == Rim.Right(box)
            && AbsorbsRightly(s, c, compact, ratio)
  {
    var s := SplitStacked(box, a.x, a.y, b.x, b.y, a.y, compact, ratio);
    var c := if a.x <= b.x then s.first else s.second;
    var w := if s.counted then c.width else c.width - s.dead.width;
    SameRatio(s.dead.width, w, c.height, ratio);
    Distribute(w, s.dead.width, c.height);
  }

  // ---------------------------------------------------------------- growth

  /** How much of a side a child may gain at one cut by absorbing. */
  function Share(compact: bool, ratio: real): (r: real)
    requires ratio >= 0.0
    ensures r >= 0.0
  {
    if compact then ratio else 0.0
  }

  /** A part exceeds its entry by no more than the box exceeds what it holds, and a share of the box's side. */
  ghost predicate GrowsBy(part: Rect, e: Entry, dw: real, dh: real, cw: real, ch: real) {
    part.width <= e.x + dw + cw && part.height <= e.y + dh + ch
  }

  lemma ShareBound(d: real, h: real, ratio: real, limit: real)
    requires h > 0.0 && h <= limit && ratio >= 0.0 && d / h <= ratio
    ensures d <= ratio * limit
  {
    var q := d / h;
    Quotient(d, h);
    SignOfProduct(ratio - q, h);
    SignOfProduct(ratio, limit - h);
  }

  lemma SignOfProduct(x: real, y: real)
    requires x >= 0.0 && y >= 0.0
    ensures x * y >= 0.0
  {
  }

  lemma BesideGrowth(box: Rect, a: Entry, b: Entry, compact: bool, ratio: real, w: real, h: real)
    requires a.x > 0.0 && a.y > 0.0 && b.x > 0.0 && b.y > 0.0 && ratio >= 0.0
    requires w >= box.width >= a.x + b.x && h >= box.height >= Max(a.y, b.y)
    ensures var s := SplitBeside(box, a.x, a.y, b.x, b.y, a.x, compact, ratio);
            var dw, dh := box.width - (a.x + b.x), box.height - Max(a.y, b.y);
            var ch := Share(compact, ratio) * h;
            && GrowsBy(s.first, a, 0.0, dh, 0.0, ch) && GrowsBy(s.second, b, dw, dh, 0.0, ch)
            && s.first.width <= w && s.first.height <= h && s.second.width <= w && s.second.height <= h
  {
    var s := SplitBeside(box, a.x, a.y, b.x, b.y, a.x, compact, ratio);
    var low := Min(a.y, b.y) + (box.height - Max(a.y, b.y));
    SignOfProduct(Share(compact, ratio), h);
    if !s.counted {
      ShareBound(s.dead.height, low, ratio, h);
    }
  }

  lemma StackedGrowth(box: Rect, a: Entry, b: Entry, compact: bool, ratio: real, w: real, h: real)
    requires a.x > 0.0 && a.y > 0.0 && b.x > 0.0 && b.y > 0.0 && ratio >= 0.0
    requires h >= box.height >= a.y + b.y && w >= box.width >= Max(a.x, b.x)
    ensures var s := SplitStacked(box, a.x, a.y, b.x, b.y, a.y, compact, ratio);
            var dw, dh := box.width - Max(a.x, b.x), box.height - (a.y + b.y);
            var cw := Share(compact, ratio) * w;
            && GrowsBy(s.first, a, dw, 0.0, cw, 0.0) && GrowsBy(s.second, b, dw, dh, cw, 0.0)
            && s.first.width <= w && s.first.height <= h && s.second.width <= w && s.second.height <= h
  {
    var s := SplitStacked(box, a.x, a.y, b.x, b.y, a.y, compact, ratio);
    var low := Min(a.x, b.x) + (box.width - Max(a.x, b.x));
    SignOfProduct(Share(compact, ratio), w);
    if !s.counted {
      ShareBound(s.dead.width, low, ratio, w);
    }
  }

  /** How a cut is divided, by its kind, and what its entry needs. */
  lemma SplitAtIs(t: Tree, pos: nat, box: Rect, compact: bool, ratio: real)
    requires t.Cut? && Summed(t) && LeavesWellShaped(t) && pos < |t.curve|
    ensures var a, b, e := LeftEntry(t, pos), RightEntry(t, pos), t.curve[pos];
            && (t.cut == CUT_VERTICAL ==>
                  && SplitAt(t, pos, box, compact, ratio) == SplitBeside(box, a.x, a.y, b.x, b.y, a.x, compact, ratio)
                  && e.x == a.x + b.x && e.y == Max(a.y, b.y))
            && (t.cut != CUT_VERTICAL ==>
                  && SplitAt(t, pos, box, compact, ratio) == SplitStacked(box, a.x, a.y, b.x, b.y, a.y, compact, ratio)
                  && e.x == Max(a.x, b.x) && e.y == a.y + b.y)
  {
    hide AddCurves;
    hide SplitBeside;
    hide SplitStacked;
    hide Max;
    hide WellShaped;
    SumIsRealised(t.left.curve, t.right.curve, t.cut, pos);
  }

  /** Either way, with the entry the box was made for. */
  lemma CutGrowth(t: Tree, pos: nat, box: Rect, compact: bool, ratio: real, w: real, h: real)
    requires t.Cut? && Summed(t) && LeavesWellShaped(t) && pos < |t.curve| && Holds(box, t.curve[pos]) && ratio >= 0.0
    requires w >= box.width && h >= box.height
    ensures var s, e := SplitAt(t, pos, box, compact, ratio), t.curve[pos];
            var dw, dh, cw, ch := box.width - e.x, box.height - e.y, Share(compact, ratio) * w, Share(compact, ratio) * h;
            && GrowsBy(s.first, LeftEntry(t, pos), dw, dh, cw, ch) && GrowsBy(s.second, RightEntry(t, pos), dw, dh, cw, ch)
            && s.first.width <= w && s.first.height <= h && s.second.width <= w && s.second.height <= h
  {
    hide SplitBeside;
    hide SplitStacked;
    hide SplitAt;
    hide Share;
    hide Summed;
    hide LeavesWellShaped;
    hide LeftEntry;
    hide RightEntry;
    SplitAtIs(t, pos, box, compact, ratio);
    var a, b := LeftEntry(t, pos), RightEntry(t, pos);
    EntryIsPositive(t, pos);
    ShareSign(compact, ratio, w);
    ShareSign(compact, ratio, h);
    if t.cut == CUT_VERTICAL {
      BesideGrowth(box, a, b, compact, ratio, w, h);
    } else {
      StackedGrowth(box, a, b, compact, ratio, w, h);
    }
  }

  lemma ShareSign(compact: bool, ratio: real, w: real)
    requires ratio >= 0.0 && w >= 0.0
    ensures Share(compact, ratio) * w >= 0.0
  {
  }

  /** The number of cuts above each leaf. */
  function Depths(t: Tree): (d: seq<nat>)
    ensures |d| == |Units(t)|
  {
    match t
    case Leaf(_, _) => [0]
    case Cut(_, _, l, r) => Deeper(Depths(l)) + Deeper(Depths(r))
  }

  function Deeper(d: seq<nat>): (e: seq<nat>)
    ensures |e| == |d| && forall k :: 0 <= k < |d| ==> e[k] == d[k] + 1
  {
    seq(|d|, k requires 0 <= k < |d| => d[k] + 1)
  }

  function Times(n: nat, c: real): real {
    n as real * c
  }

  /** Each block exceeds its orientation by at most dw (dh) and, for every cut above it, cw (ch). */
  ghost predicate EachGrowsBy(blocks: seq<Placement>, es: seq<Entry>, ds: seq<nat>, dw: real, dh: real, cw: real, ch: real) {
    && |blocks| == |es| == |ds|
    && forall k :: 0 <= k < |blocks| ==> GrowsBy(blocks[k].rect, es[k], dw, dh, Times(ds[k], cw), Times(ds[k], ch))
  }

  lemma OneGrowsBy(unit: int, box: Rect, e: Entry, cw: real, ch: real)
    ensures EachGrowsBy([Placement(unit, box)], [e], [0], box.width - e.x, box.height - e.y, cw, ch)
  {
    var ds: seq<nat> := [0];
    NoCuts(ds[0], cw);
    NoCuts(ds[0], ch);
    assert GrowsBy(box, e, box.width - e.x, box.height - e.y, Times(ds[0], cw), Times(ds[0], ch));
  }

  lemma NoCuts(n: nat, c: real)
    requires n == 0
    ensures Times(n, c) == 0.0
  {
    assert n as real == 0.0;
  }

  lemma GrowsDeeper(blocks: seq<Placement>, es: seq<Entry>, ds: seq<nat>, dw: real, dh: real, dw': real, dh': real,
                    cw: real, ch: real)
    requires EachGrowsBy(blocks, es, ds, dw', dh', cw, ch) && dw' <= dw + cw && dh' <= dh + ch
    ensures EachGrowsBy(blocks, es, Deeper(ds), dw, dh, cw, ch)
  {
    hide Times;
    forall k | 0 <= k < |blocks|
      ensures GrowsBy(blocks[k].rect, es[k], dw, dh, Times(Deeper(ds)[k], cw), Times(Deeper(ds)[k], ch))
    {
      OneMore(ds[k], cw);
      OneMore(ds[k], ch);
    }
  }

  lemma OneMore(n: nat, c: real)
    ensures Times(n + 1, c) == Times(n, c) + c
  {
  }

  lemma GrowthJoin(p: seq<Placement>, q: seq<Placement>, es: seq<Entry>, fs: seq<Entry>, ds: seq<nat>, gs: seq<nat>,
                   dw: real, dh: real, cw: real, ch: real)
    requires EachGrowsBy(p, es, ds, dw, dh, cw, ch) && EachGrowsBy(q, fs, gs, dw, dh, cw, ch)
    ensures EachGrowsBy(p + q, es + fs, ds + gs, dw, dh, cw, ch)
  {
    hide GrowsBy;
    hide Times;
  }

  /** Each block exceeds its orientation by no more than the box exceeds its entry and, for every cut above the block,
      the compaction ratio's share of the whole side. */
  lemma {:induction false} GrowthIsBounded(t: Tree, pos: nat, box: Rect, compact: bool, ratio: real, w: real, h: real)
    requires Summed(t) && LeavesWellShaped(t) && pos < |t.curve| && Holds(box, t.curve[pos]) && ratio >= 0.0
    requires w >= box.width && h >= box.height
    ensures EachGrowsBy(Arrange(t, pos, box, compact, ratio).blocks, Orientations(t, pos), Depths(t),
                        box.width - t.curve[pos].x, box.height - t.curve[pos].y,
                        Share(compact, ratio) * w, Share(compact, ratio) * h)
    decreases t
  {
    hide SplitAt;
    hide AddCurves;
    hide WellShaped;
    hide Share;
    hide EachGrowsBy;
    hide Deeper;
    var e := t.curve[pos];
    var cw, ch := Share(compact, ratio) * w, Share(compact, ratio) * h;
    match t
    case Leaf(unit, curve) =>
      OneGrowsBy(unit, box, e, cw, ch);
    case Cut(cut, curve, l, r) =>
      SumIsRealised(l.curve, r.curve, cut, pos);
      SplitAtIsExact(t, pos, box, compact, ratio);
      CutGrowth(t, pos, box, compact, ratio, w, h);
      var i, j, s := curve[pos].left, curve[pos].right, SplitAt(t, pos, box, compact, ratio);
      var a, b := l.curve[i], r.curve[j];
      GrowthIsBounded(l, i, s.first, compact, ratio, w, h);
      GrowthIsBounded(r, j, s.second, compact, ratio, w, h);
      var p, q := Arrange(l, i, s.first, compact, ratio).blocks, Arrange(r, j, s.second, compact, ratio).blocks;
      var dw, dh := box.width - e.x, box.height - e.y;
      GrowsDeeper(p, Orientations(l, i), Depths(l), dw, dh, s.first.width - a.x, s.first.height - a.y, cw, ch);
      GrowsDeeper(q, Orientations(r, j), Depths(r), dw, dh, s.second.width - b.x, s.second.height - b.y, cw, ch);
      GrowthJoin(p, q, Orientations(l, i), Orientations(r, j), Deeper(Depths(l)), Deeper(Depths(r)), dw, dh, cw, ch);
  }

  /** Without compaction, or with ratio zero, a box of exactly the entry's size gives every block exactly the size of
      its orientation. */
  lemma ExactWithoutCompaction(t: Tree, pos: nat, box: Rect, compact: bool, ratio: real, k: nat)
    requires Summed(t) && LeavesWellShaped(t) && pos < |t.curve| && ratio >= 0.0 && (compact ==> ratio == 0.0)
    requires box.width == t.curve[pos].x && box.height == t.curve[pos].y && k < |Units(t)|
    ensures var lay := Arrange(t, pos, box, compact, ratio);
            && k < |lay.blocks| && lay.blocks[k].unit == Units(t)[k]
            && lay.blocks[k].rect.width == Orientations(t, pos)[k].x
            && lay.blocks[k].rect.height == Orientations(t, pos)[k].y
  {
    hide Arrange;
    hide Summed;
    hide LeavesWellShaped;
    hide Orientations;
    ArrangeCounts(t, pos, box, compact, ratio);
    BlocksHoldOrientations(t, pos, box, compact, ratio);
    GrowthIsBounded(t, pos, box, compact, ratio, box.width, box.height);
    NoShare(Depths(t)[k], Share(compact, ratio), box.width);
    NoShare(Depths(t)[k], Share(compact, ratio), box.height);
    var b, e := Arrange(t, pos, box, compact, ratio).blocks[k].rect, Orientations(t, pos)[k];
    assert Holds(b, e);
    assert GrowsBy(b, e, 0.0, 0.0, Times(Depths(t)[k], Share(compact, ratio) * box.width),
                   Times(Depths(t)[k], Share(compact, ratio) * box.height));
  }

  lemma NoShare(n: nat, share: real, side: real)
    requires share == 0.0
    ensures Times(n, share * side) == 0.0
  {
  }

  // ---------------------------------------------------------------- left and right, below and above

  lemma BlocksInside(t: Tree, pos: nat, box: Rect, compact: bool, ratio: real, k: nat)
    requires Summed(t) && LeavesWellShaped(t) && pos < |t.curve| && Holds(box, t.curve[pos]) && k < |Units(t)|
    ensures var lay := Arrange(t, pos, box, compact, ratio); k < |lay.blocks| && Rim.Inside(lay.blocks[k].rect, box)
  {
    hide Arrange;
    hide Summed;
    hide LeavesWellShaped;
    hide Orientations;
    hide Tiling;
    hide Rim.Inside;
    var lay := Arrange(t, pos, box, compact, ratio);
    ArrangeCounts(t, pos, box, compact, ratio);
    ArrangeTiles(t, pos, box, compact, ratio);
    BlocksHoldOrientations(t, pos, box, compact, ratio);
    OrientationsArePositive(t, pos);
    assert Holds(lay.blocks[k].rect, Orientations(t, pos)[k]);
    assert Tiles(lay)[k] == lay.blocks[k].rect;
    Rim.TileInside(Tiles(lay), box, k);
  }

  ghost predicate AllSized(es: seq<Entry>) {
    forall k :: 0 <= k < |es| ==> es[k].x > 0.0 && es[k].y > 0.0
  }

  lemma {:induction false} OrientationsArePositive(t: Tree, pos: nat)
    requires Summed(t) && LeavesWellShaped(t) && pos < |t.curve|
    ensures AllSized(Orientations(t, pos))
    decreases t
  {
    hide AddCurves;
    hide WellShaped;
    hide AllSized;
    match t
    case Leaf(_, curve) =>
      EntryIsPositive(t, pos);
      OneSized(curve[pos]);
    case Cut(cut, curve, l, r) =>
      SumIsRealised(l.curve, r.curve, cut, pos);
      OrientationsArePositive(l, curve[pos].left);
      OrientationsArePositive(r, curve[pos].right);
      SizedJoin(Orientations(l, curve[pos].left), Orientations(r, curve[pos].right));
  }

  lemma OneSized(e: Entry)
    requires e.x > 0.0 && e.y > 0.0
    ensures AllSized([e])
  {
  }

  lemma SizedJoin(es: seq<Entry>, fs: seq<Entry>)
    requires AllSized(es) && AllSized(fs)
    ensures AllSized(es + fs)
  {
  }

  /** The blocks of the first operand lie to the left of those of the second under a vertical cut, and below them under
      a horizontal one. */
  lemma OperandsInOrder(t: Tree, pos: nat, box: Rect, compact: bool, ratio: real, k: nat, m: nat)
    requires t.Cut? && Summed(t) && LeavesWellShaped(t) && pos < |t.curve| && Holds(box, t.curve[pos])
    requires k < |Units(t.left)| <= m < |Units(t)|
    ensures var lay := Arrange(t, pos, box, compact, ratio);
            && m < |lay.blocks|
            && if t.cut == CUT_VERTICAL then Rim.Right(lay.blocks[k].rect) <= lay.blocks[m].rect.leftx
               else Rim.Top(lay.blocks[k].rect) <= lay.blocks[m].rect.bottomy
  {
    hide SplitAt;
    hide AddCurves;
    hide WellShaped;
    hide Tiles;
    SumIsRealised(t.left.curve, t.right.curve, t.cut, pos);
    SplitAtIsExact(t, pos, box, compact, ratio);
    SplitInOrder(t, pos, box, compact, ratio);
    var i, j, s := t.curve[pos].left, t.curve[pos].right, SplitAt(t, pos, box, compact, ratio);
    ArrangeCounts(t.left, i, s.first, compact, ratio);
    ArrangeCounts(t.right, j, s.second, compact, ratio);
    BlocksInside(t.left, i, s.first, compact, ratio, k);
    BlocksInside(t.right, j, s.second, compact, ratio, m - |Units(t.left)|);
  }

  lemma SplitInOrder(t: Tree, pos: nat, box: Rect, compact: bool, ratio: real)
    requires t.Cut? && Summed(t) && LeavesWellShaped(t) && pos < |t.curve| && Holds(box, t.curve[pos])
    ensures var s := SplitAt(t, pos, box, compact, ratio);
            if t.cut == CUT_VERTICAL then Rim.Right(s.first) == s.second.leftx else Rim.Top(s.first) == s.second.bottomy
  {
    hide SplitAt;
    hide Summed;
    hide LeavesWellShaped;
    hide LeftEntry;
    hide RightEntry;
    SplitAtIs(t, pos, box, compact, ratio);
  }
}
