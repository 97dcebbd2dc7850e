/** What a tiling measures: rectangles that cover a box point by point also fill every window of it. */
module TilingMeasure {
  import opened RealArithmetic
  import opened Sizing
  import Rim

  // ---------------------------------------------------------------- weighted intervals on a line

  /** A half-open interval with a weight. */
  datatype Bar = Bar(lo: real, hi: real, weight: real)

  /** The weights of the intervals that contain x. */
  function Load(bars: seq<Bar>, x: real): real {
    if bars == [] then 0.0
    else (if bars[0].lo <= x < bars[0].hi then bars[0].weight else 0.0) + Load(bars[1..], x)
  }

  /** The length of the part of an interval inside another. */
  function Clip(lo: real, hi: real, a: real, b: real): real {
    Max(0.0, Min(hi, b) - Max(lo, a))
  }

  /** The weighted lengths of the intervals inside a window: the integral of Load over it. */
  function Mass(bars: seq<Bar>, a: real, b: real): real {
    if bars == [] then 0.0 else bars[0].weight * Clip(bars[0].lo, bars[0].hi, a, b) + Mass(bars[1..], a, b)
  }

  predicate Within(e: real, a: real, b: real) {
    a < e < b
  }

  /** How many interval ends lie strictly inside the window. */
  function Ends(bars: seq<Bar>, a: real, b: real): nat {
    if bars == [] then 0
    else (if Within(bars[0].lo, a, b) then 1 else 0) + (if Within(bars[0].hi, a, b) then 1 else 0) + Ends(bars[1..], a, b)
  }

  lemma ClipAdds(lo: real, hi: real, a: real, e: real, b: real)
    requires a <= e <= b
    ensures Clip(lo, hi, a, e) + Clip(lo, hi, e, b) == Clip(lo, hi, a, b)
  {
  }

  lemma {:induction false} MassAdds(bars: seq<Bar>, a: real, e: real, b: real)
    requires a <= e <= b
    ensures Mass(bars, a, e) + Mass(bars, e, b) == Mass(bars, a, b)
  {
    hide Clip;
    if bars != [] {
      var bar := bars[0];
      ClipAdds(bar.lo, bar.hi, a, e, b);
      Distribute(Clip(bar.lo, bar.hi, a, e), Clip(bar.lo, bar.hi, e, b), bar.weight);
      MassAdds(bars[1..], a, e, b);
    }
  }

  /** A part of the window has no more ends inside it. */
  lemma {:induction false} EndsShrink(bars: seq<Bar>, a: real, b: real, a': real, b': real)
    requires a <= a' && b' <= b
    ensures Ends(bars, a', b') <= Ends(bars, a, b)
  {
    if bars != [] {
      EndsShrink(bars[1..], a, b, a', b');
    }
  }

  /** A window that has ends inside can be cut at one of them, which then lies inside neither part. */
  lemma {:induction false} SomeEnd(bars: seq<Bar>, a: real, b: real) returns (e: real)
    requires Ends(bars, a, b) > 0
    ensures a < e < b && Ends(bars, a, e) < Ends(bars, a, b) && Ends(bars, e, b) < Ends(bars, a, b)
  {
    var bar := bars[0];
    if Within(bar.lo, a, b) || Within(bar.hi, a, b) {
      e := if Within(bar.lo, a, b) then bar.lo else bar.hi;
      EndsShrink(bars[1..], a, b, a, e);
      EndsShrink(bars[1..], a, b, e, b);
    } else {
      e := SomeEnd(bars[1..], a, b);
    }
  }

  function Share(bar: Bar, x: real): real {
    if bar.lo <= x < bar.hi then bar.weight else 0.0
  }

  lemma UniformClip(bar: Bar, a: real, b: real)
    requires a < b && !Within(bar.lo, a, b) && !Within(bar.hi, a, b)
    ensures bar.weight * Clip(bar.lo, bar.hi, a, b) == Share(bar, a) * (b - a)
  {
    assert Clip(bar.lo, bar.hi, a, b) == if bar.lo <= a < bar.hi then b - a else 0.0;
  }

  lemma FirstBar(bars: seq<Bar>, a: real, b: real)
    requires bars != []
    ensures Load(bars, a) == Share(bars[0], a) + Load(bars[1..], a)
    ensures Mass(bars, a, b) == bars[0].weight * Clip(bars[0].lo, bars[0].hi, a, b) + Mass(bars[1..], a, b)
  {
    hide Clip;
  }

  /** Where no interval begins or ends, the load does not change. */
  lemma {:induction false} UniformMass(bars: seq<Bar>, a: real, b: real)
    requires a < b && Ends(bars, a, b) == 0
    ensures Mass(bars, a, b) == Load(bars, a) * (b - a)
  {
    hide Load;
    hide Mass;
    hide Clip;
    hide Share;
    if bars == [] {
      NoBars(a, b);
    } else {
      FirstBar(bars, a, b);
      UniformMass(bars[1..], a, b);
      UniformClip(bars[0], a, b);
      Distribute(Share(bars[0], a), Load(bars[1..], a), b - a);
    }
  }

  lemma NoBars(a: real, b: real)
    ensures Mass([], a, b) == 0.0 && Load([], a) * (b - a) == 0.0
  {
  }

  /** Intervals whose weights cancel at every point cancel over every window. */
  lemma {:induction false} NoLoadNoMass(bars: seq<Bar>, a: real, b: real)
    requires a <= b && forall x :: Load(bars, x) == 0.0
    ensures Mass(bars, a, b) == 0.0
    decreases Ends(bars, a, b)
  {
    hide Load;
    hide Mass;
    hide Ends;
    if a == b {
      EmptyWindow(bars, a);
    } else if Ends(bars, a, b) == 0 {
      UniformMass(bars, a, b);
      assert Load(bars, a) == 0.0;
    } else {
      var e := SomeEnd(bars, a, b);
      NoLoadNoMass(bars, a, e);
      NoLoadNoMass(bars, e, b);
      MassAdds(bars, a, e, b);
    }
  }

  lemma {:induction false} EmptyWindow(bars: seq<Bar>, a: real)
    ensures Mass(bars, a, a) == 0.0
  {
    if bars != [] {
      EmptyWindow(bars[1..], a);
    }
  }

  // ---------------------------------------------------------------- rectangles in a window

  /** The area of a rectangle inside a window. */
  function Inside(r: Rect, a: real, b: real, c: real, d: real): real {
    Clip(r.leftx, r.leftx + r.width, a, b) * Clip(r.bottomy, r.bottomy + r.height, c, d)
  }

  function TotalInside(rs: seq<Rect>, a: real, b: real, c: real, d: real): real {
    if rs == [] then 0.0 else Inside(rs[0], a, b, c, d) + TotalInside(rs[1..], a, b, c, d)
  }

  predicate AtHeight(r: Rect, y: real) {
    r.bottomy <= y < r.bottomy + r.height
  }

  /** The rectangles met at height y, as intervals across, and the box as an interval that cancels them. */
  function Across(rs: seq<Rect>, box: Rect, y: real): seq<Bar> {
    if rs == [] then [Bar(box.leftx, box.leftx + box.width, if AtHeight(box, y) then -1.0 else 0.0)]
    else [Bar(rs[0].leftx, rs[0].leftx + rs[0].width, if AtHeight(rs[0], y) then 1.0 else 0.0)] + Across(rs[1..], box, y)
  }

  /** The rectangles as intervals upwards, weighted with their widths in the window, against the box. */
  function Upwards(rs: seq<Rect>, box: Rect, a: real, b: real): seq<Bar> {
    if rs == [] then [Bar(box.bottomy, box.bottomy + box.height, -Clip(box.leftx, box.leftx + box.width, a, b))]
    else [Bar(rs[0].bottomy, rs[0].bottomy + rs[0].height, Clip(rs[0].leftx, rs[0].leftx + rs[0].width, a, b))]
         + Upwards(rs[1..], box, a, b)
  }

  lemma {:induction false} AcrossLoad(rs: seq<Rect>, box: Rect, y: real, x: real)
    ensures Load(Across(rs, box, y), x) == Cover(rs, x, y) as real - Covers(box, x, y) as real
  {
    var bars := Across(rs, box, y);
    if rs == [] {
      assert bars[1..] == [];
    } else {
      assert bars[1..] == Across(rs[1..], box, y);
      AcrossLoad(rs[1..], box, y, x);
    }
  }

  /** Adding up across at height y is the load of the upward intervals there. */
  lemma {:induction false} AcrossIsUpwardLoad(rs: seq<Rect>, box: Rect, y: real, a: real, b: real)
    ensures Mass(Across(rs, box, y), a, b) == Load(Upwards(rs, box, a, b), y)
  {
    hide Clip;
    var bars, ups := Across(rs, box, y), Upwards(rs, box, a, b);
    if rs == [] {
      assert bars[1..] == [] && ups[1..] == [];
    } else {
      assert bars[1..] == Across(rs[1..], box, y) && ups[1..] == Upwards(rs[1..], box, a, b);
      AcrossIsUpwardLoad(rs[1..], box, y, a, b);
    }
  }

  lemma {:induction false} UpwardsMass(rs: seq<Rect>, box: Rect, a: real, b: real, c: real, d: real)
    ensures Mass(Upwards(rs, box, a, b), c, d) == TotalInside(rs, a, b, c, d) - Inside(box, a, b, c, d)
  {
    hide Clip;
    var ups := Upwards(rs, box, a, b);
    if rs == [] {
      assert ups[1..] == [];
    } else {
      assert ups[1..] == Upwards(rs[1..], box, a, b);
      UpwardsMass(rs[1..], box, a, b, c, d);
    }
  }

  /** The parts of the tiles inside any window add up to the part of the box inside it, for every tiling. */
  lemma TilingFillsWindow(rs: seq<Rect>, box: Rect, a: real, b: real, c: real, d: real)
    requires Tiling(rs, box) && a <= b && c <= d
    ensures TotalInside(rs, a, b, c, d) == Inside(box, a, b, c, d)
  {
    hide Load;
    hide Mass;
    hide Across;
    hide Upwards;
    hide TotalInside;
    hide Inside;
    var ups := Upwards(rs, box, a, b);
    forall y ensures Load(ups, y) == 0.0 {
      var bars := Across(rs, box, y);
      forall x ensures Load(bars, x) == 0.0 {
        AcrossLoad(rs, box, y, x);
        assert Cover(rs, x, y) == Covers(box, x, y);
      }
      NoLoadNoMass(bars, a, b);
      AcrossIsUpwardLoad(rs, box, y, a, b);
    }
    NoLoadNoMass(ups, c, d);
    UpwardsMass(rs, box, a, b, c, d);
  }

  lemma {:induction false} InsideConcat(p: seq<Rect>, q: seq<Rect>, a: real, b: real, c: real, d: real)
    ensures TotalInside(p + q, a, b, c, d) == TotalInside(p, a, b, c, d) + TotalInside(q, a, b, c, d)
  {
    hide Inside;
    if p == [] {
      assert p + q == q;
    } else {
      assert (p + q)[1..] == p[1..] + q;
      InsideConcat(p[1..], q, a, b, c, d);
    }
  }

  lemma InsideOne(r: Rect, a: real, b: real, c: real, d: real)
    ensures TotalInside([r], a, b, c, d) == Inside(r, a, b, c, d) && TotalInside([], a, b, c, d) == 0.0
  {
    assert [r][1..] == [];
  }

  // ---------------------------------------------------------------- areas

  ghost predicate NonNegative(rs: seq<Rect>) {
    forall i :: 0 <= i < |rs| ==> rs[i].width >= 0.0 && rs[i].height >= 0.0
  }

  /** Rectangles without area may lie anywhere; the others lie in the box. */
  ghost predicate SolidsInside(rs: seq<Rect>, box: Rect) {
    forall i :: 0 <= i < |rs| ==> Rim.Solid(rs[i]) ==> Rim.Inside(rs[i], box)
  }

  lemma InsideIsRectArea(r: Rect, box: Rect)
    requires r.width >= 0.0 && r.height >= 0.0 && (Rim.Solid(r) ==> Rim.Inside(r, box))
    ensures Inside(r, box.leftx, Rim.Right(box), box.bottomy, Rim.Top(box)) == RectArea(r)
  {
    var w := Clip(r.leftx, r.leftx + r.width, box.leftx, Rim.Right(box));
    var h := Clip(r.bottomy, r.bottomy + r.height, box.bottomy, Rim.Top(box));
    assert r.width == 0.0 ==> w == 0.0;
    assert r.height == 0.0 ==> h == 0.0;
    assert Rim.Solid(r) ==> w == r.width && h == r.height;
  }

  lemma {:induction false} InsideIsArea(rs: seq<Rect>, box: Rect)
    requires NonNegative(rs) && SolidsInside(rs, box)
    ensures TotalInside(rs, box.leftx, Rim.Right(box), box.bottomy, Rim.Top(box)) == TotalArea(rs)
  {
    hide Inside;
    hide RectArea;
    if rs != [] {
      InsideIsRectArea(rs[0], box);
      assert forall i :: 0 <= i < |rs[1..]| ==> rs[1..][i] == rs[i + 1];
      InsideIsArea(rs[1..], box);
    }
  }

  /** The areas of the tiles of any tiling add up to the area of the box. */
  lemma TilingArea(rs: seq<Rect>, box: Rect)
    requires Tiling(rs, box) && NonNegative(rs) && box.width >= 0.0 && box.height >= 0.0
    ensures TotalArea(rs) == RectArea(box)
  {
    hide Tiling;
    hide Inside;
    hide RectArea;
    forall i | 0 <= i < |rs| && Rim.Solid(rs[i]) ensures Rim.Inside(rs[i], box) {
      Rim.TileInside(rs, box, i);
    }
    InsideIsArea(rs, box);
    TilingFillsWindow(rs, box, box.leftx, Rim.Right(box), box.bottomy, Rim.Top(box));
    InsideIsRectArea(box, box);
  }
}
