/** Extent queries, translation and rim wrapping on the floorplan's unit array (flp.c). */
module RimState {
  import opened ShapeCurve
  import opened Sizing
  import opened SizingState
  import opened Rim

  /** rs[i] reaches furthest to the left and rs[j] furthest to the right. */
  ghost predicate SpansX(rs: seq<Rect>, i: int, j: int) {
    && 0 <= i < |rs| && 0 <= j < |rs|
    && forall k :: 0 <= k < |rs| ==> rs[i].leftx <= rs[k].leftx && Right(rs[k]) <= Right(rs[j])
  }

  ghost predicate SpansY(rs: seq<Rect>, i: int, j: int) {
    && 0 <= i < |rs| && 0 <= j < |rs|
    && forall k :: 0 <= k < |rs| ==> rs[i].bottomy <= rs[k].bottomy && Top(rs[k]) <= Top(rs[j])
  }

  /** get_total_width */
  method TotalWidth(flp: Flp) returns (w: real)
    requires 1 <= flp.nUnits <= flp.units.Length
    ensures exists i, j :: SpansX(flp.units[..flp.nUnits], i, j)
                           && w == Right(flp.units[j]) - flp.units[i].leftx
  {
    var minX, maxX := flp.units[0].leftx, flp.units[0].leftx + flp.units[0].width;
    ghost var i, j := 0, 0;
    for k := 1 to flp.nUnits
      invariant 0 <= i < k && 0 <= j < k
      invariant minX == flp.units[i].leftx && maxX == Right(flp.units[j])
      invariant forall m :: 0 <= m < k ==> minX <= flp.units[m].leftx && Right(flp.units[m]) <= maxX
    {
      if flp.units[k].leftx < minX {
        minX := flp.units[k].leftx;
        i := k;
      }
      if flp.units[k].leftx + flp.units[k].width > maxX {
        maxX := flp.units[k].leftx + flp.units[k].width;
        j := k;
      }
    }
    w := maxX - minX;
    assert SpansX(flp.units[..flp.nUnits], i, j);
  }

  /** get_total_height */
  method TotalHeight(flp: Flp) returns (h: real)
    requires 1 <= flp.nUnits <= flp.units.Length
    ensures exists i, j :: SpansY(flp.units[..flp.nUnits], i, j)
                           && h == Top(flp.units[j]) - flp.units[i].bottomy
  {
    var minY, maxY := flp.units[0].bottomy, flp.units[0].bottomy + flp.units[0].height;
    ghost var i, j := 0, 0;
    for k := 1 to flp.nUnits
      invariant 0 <= i < k && 0 <= j < k
      invariant minY == flp.units[i].bottomy && maxY == Top(flp.units[j])
      invariant forall m :: 0 <= m < k ==> minY <= flp.units[m].bottomy && Top(flp.units[m]) <= maxY
    {
      if flp.units[k].bottomy < minY {
        minY := flp.units[k].bottomy;
        i := k;
      }
      if flp.units[k].bottomy + flp.units[k].height > maxY {
        maxY := flp.units[k].bottomy + flp.units[k].height;
        j := k;
      }
    }
    h := maxY - minY;
    assert SpansY(flp.units[..flp.nUnits], i, j);
  }

  /** flp_translate: move the floorplan so that its lower left extent is (x, y). */
  method Translate(flp: Flp, x: real, y: real) returns (ghost minX: real, ghost minY: real)
    requires 1 <= flp.nUnits <= flp.units.Length
    modifies flp.units
    ensures var rs := old(flp.units[..flp.nUnits]);
            && (exists i :: 0 <= i < |rs| && rs[i].leftx == minX)
            && (exists i :: 0 <= i < |rs| && rs[i].bottomy == minY)
            && (forall i :: 0 <= i < |rs| ==> minX <= rs[i].leftx && minY <= rs[i].bottomy)
            && flp.units[..flp.nUnits] == ShiftAll(rs, x - minX, y - minY)
    ensures flp.units[flp.nUnits..] == old(flp.units[flp.nUnits..])
  {
    var minx, miny := flp.units[0].leftx, flp.units[0].bottomy;
    for k := 1 to flp.nUnits
      invariant exists i :: 0 <= i < k && flp.units[i].leftx == minx
      invariant exists i :: 0 <= i < k && flp.units[i].bottomy == miny
      invariant forall i :: 0 <= i < k ==> minx <= flp.units[i].leftx && miny <= flp.units[i].bottomy
    {
      if minx > flp.units[k].leftx {
        minx := flp.units[k].leftx;
      }
      if miny > flp.units[k].bottomy {
        miny := flp.units[k].bottomy;
      }
    }
    minX, minY := minx, miny;
    ghost var rs := flp.units[..flp.nUnits];
    for k := 0 to flp.nUnits
      invariant forall i :: 0 <= i < k ==> flp.units[i] == Shift(rs[i], x - minx, y - miny)
      invariant forall i :: k <= i < flp.nUnits ==> flp.units[i] == rs[i]
      invariant flp.units[flp.nUnits..] == old(flp.units[flp.nUnits..])
    {
      flp.units[k] := flp.units[k].(leftx := flp.units[k].leftx + (x - minx),
                                    bottomy := flp.units[k].bottomy + (y - miny));
    }
    assert flp.units[..flp.nUnits] == ShiftAll(rs, x - minx, y - miny);
  }

  /** The rim block of a block on the western border, with the northwest corner. */
  method EmitWest(units: array<Rect>, r: Rect, at: int, width: real, height: real, t: real, ghost core: Rect)
    returns (next: int)
    requires core == Rect(t, t, width - 2.0 * t, height - 2.0 * t)
    requires 0 <= at <= at + |West(r, core, t)| <= units.Length
    modifies units
    ensures next == at + |West(r, core, t)|
    ensures units[..next] == old(units[..at]) + West(r, core, t)
    ensures forall k :: next <= k < units.Length ==> units[k] == old(units[k])
  {
    next := at;
    if r.leftx == t {
      units[next] := Rect(0.0, r.bottomy, t, r.height);
      if r.bottomy + r.height == height - t {
        units[next] := units[next].(height := units[next].height + t);
      }
      next := next + 1;
    }
  }

  /** The rim block of a block on the eastern border, with the southeast corner. */
  method EmitEast(units: array<Rect>, r: Rect, at: int, width: real, height: real, t: real, ghost core: Rect)
    returns (next: int)
    requires core == Rect(t, t, width - 2.0 * t, height - 2.0 * t)
    requires 0 <= at <= at + |East(r, core, t)| <= units.Length
    modifies units
    ensures next == at + |East(r, core, t)|
    ensures units[..next] == old(units[..at]) + East(r, core, t)
    ensures forall k :: next <= k < units.Length ==> units[k] == old(units[k])
  {
    next := at;
    if r.leftx + r.width == width - t {
      units[next] := Rect(r.leftx + r.width, r.bottomy, t, r.height);
      if r.bottomy == t {
        units[next] := units[next].(height := units[next].height + t);
        units[next] := units[next].(bottomy := 0.0);
      }
      next := next + 1;
    }
  }

  /** The rim block of a block on the northern border, with the northeast corner. */
  method EmitNorth(units: array<Rect>, r: Rect, at: int, width: real, height: real, t: real, ghost core: Rect)
    returns (next: int)
    requires core == Rect(t, t, width - 2.0 * t, height - 2.0 * t)
    requires 0 <= at <= at + |North(r, core, t)| <= units.Length
    modifies units
    ensures next == at + |North(r, core, t)|
    ensures units[..next] == old(units[..at]) + North(r, core, t)
    ensures forall k :: next <= k < units.Length ==> units[k] == old(units[k])
  {
    next := at;
    if r.bottomy + r.height == height - t {
      units[next] := Rect(r.leftx, r.bottomy + r.height, r.width, t);
      if r.leftx + r.width == width - t {
        units[next] := units[next].(width := units[next].width + t);
      }
      next := next + 1;
    }
  }

  /** The rim block of a block on the southern border, with the southwest corner. */
  method EmitSouth(units: array<Rect>, r: Rect, at: int, width: real, height: real, t: real, ghost core: Rect)
    returns (next: int)
    requires core == Rect(t, t, width - 2.0 * t, height - 2.0 * t)
    requires 0 <= at <= at + |South(r, core, t)| <= units.Length
    modifies units
    ensures next == at + |South(r, core, t)|
    ensures units[..next] == old(units[..at]) + South(r, core, t)
    ensures forall k :: next <= k < units.Length ==> units[k] == old(units[k])
  {
    next := at;
    if r.bottomy == t {
      units[next] := Rect(r.leftx, 0.0, r.width, t);
      if r.leftx == t {
        units[next] := units[next].(width := units[next].width + t);
        units[next] := units[next].(leftx := 0.0);
      }
      next := next + 1;
    }
  }

  /** The body of the loop of flp_wrap_rim. */
  method EmitRim(units: array<Rect>, r: Rect, at: int, width: real, height: real, t: real, ghost core: Rect)
    returns (next: int)
    requires core == Rect(t, t, width - 2.0 * t, height - 2.0 * t)
    requires 0 <= at <= at + |RimOf(r, core, t)| <= units.Length
    modifies units
    ensures next == at + |RimOf(r, core, t)|
    ensures units[..next] == old(units[..at]) + RimOf(r, core, t)
    ensures forall k :: next <= k < units.Length ==> units[k] == old(units[k])
  {
    hide West;
    hide East;
    hide North;
    hide South;
    next := EmitWest(units, r, at, width, height, t, core);
    next := EmitEast(units, r, next, width, height, t, core);
    next := EmitNorth(units, r, next, width, height, t, core);
    next := EmitSouth(units, r, next, width, height, t, core);
  }

  /** The extents of a tiling are the extents of its box. */
  lemma ExtentsOfTiling(rs: seq<Rect>, box: Rect, i: int, j: int, k: int, l: int)
    requires Tiling(rs, box) && AllInside(rs, box) && box.width > 0.0 && box.height > 0.0
    requires SpansX(rs, i, j) && SpansY(rs, k, l)
    ensures Right(rs[j]) - rs[i].leftx == box.width && Top(rs[l]) - rs[k].bottomy == box.height
  {
    hide Tiling;
    var sw, ne := TilingTouchesSides(rs, box);
    assert Inside(rs[i], box) && Inside(rs[j], box) && Inside(rs[k], box) && Inside(rs[l], box);
    assert rs[i].leftx <= rs[sw].leftx && Right(rs[ne]) <= Right(rs[j]);
    assert rs[k].bottomy <= rs[sw].bottomy && Top(rs[ne]) <= Top(rs[l]);
  }

  /** The least coordinates of a tiling are those of its box. */
  lemma CornerOfTiling(rs: seq<Rect>, box: Rect, minX: real, minY: real)
    requires Tiling(rs, box) && AllInside(rs, box) && box.width > 0.0 && box.height > 0.0
    requires exists m :: 0 <= m < |rs| && rs[m].leftx == minX
    requires exists m :: 0 <= m < |rs| && rs[m].bottomy == minY
    requires forall m :: 0 <= m < |rs| ==> minX <= rs[m].leftx && minY <= rs[m].bottomy
    ensures minX == box.leftx && minY == box.bottomy
  {
    hide Tiling;
    var sw, ne := TilingTouchesSides(rs, box);
    assert minX <= rs[sw].leftx && minY <= rs[sw].bottomy;
  }

  /** The size of the chip: the extents of the core with the rim on both sides. */
  method ChipSize(flp: Flp, t: real, ghost box: Rect) returns (width: real, height: real)
    requires 1 <= flp.nUnits <= flp.units.Length && box.width > 0.0 && box.height > 0.0
    requires Tiling(flp.units[..flp.nUnits], box) && AllInside(flp.units[..flp.nUnits], box)
    ensures width == box.width + 2.0 * t && height == box.height + 2.0 * t
  {
    hide Tiling;
    hide AllInside;
    hide Right;
    hide Top;
    width := TotalWidth(flp);
    height := TotalHeight(flp);
    ghost var i, j :| SpansX(flp.units[..flp.nUnits], i, j) && width == Right(flp.units[j]) - flp.units[i].leftx;
    ghost var k, l :| SpansY(flp.units[..flp.nUnits], k, l) && height == Top(flp.units[l]) - flp.units[k].bottomy;
    ExtentsOfTiling(flp.units[..flp.nUnits], box, i, j, k, l);
    width, height := width + 2.0 * t, height + 2.0 * t;
  }

  /** The slots wrapping may need: the reserve of 3n + 2, and two more for each tile without area. */
  function SlotsNeeded(rs: seq<Rect>): int {
    3 * |rs| + 2 + 2 * (|rs| - |Solids(rs)|)
  }

  lemma PositiveSlots(rs: seq<Rect>)
    requires AllPositive(rs)
    ensures SlotsNeeded(rs) == 3 * |rs| + 2
  {
    AllSolid(rs);
  }

  /** What wrapping the shifted tiles amounts to. */
  lemma WrappedTiles(rs: seq<Rect>, us: seq<Rect>, box: Rect, core: Rect, t: real)
    requires Tiling(rs, box) && box.width > 0.0 && box.height > 0.0 && t > 0.0
    requires us == ShiftAll(rs, t - box.leftx, t - box.bottomy) && core == Rect(t, t, box.width, box.height)
    ensures Tiling(us, core) && |us| + |RimAll(us, core, t)| <= SlotsNeeded(rs)
    ensures Tiling(us + RimAll(us, core, t), Chip(core, t)) <==> RimSafe(us, core, t)
  {
    hide Tiling;
    hide RimAll;
    hide RimSafe;
    hide Chip;
    ShiftedTiling(rs, box, t - box.leftx, t - box.bottomy);
    SolidsOfShift(rs, t - box.leftx, t - box.bottomy);
    RimRoom(us, core, t);
    RimTilesChipIff(us, core, t);
  }

  /** flp_wrap_rim on a tiled floorplan: never needs more than 2n + 2 further slots when all tiles have area, and
      afterwards the tiles and the rim blocks together tile the chip exactly when tiles without area have got no
      blocks with area. */
  method WrapRim(flp: Flp, t: real, ghost box: Rect) returns (rimBlocks: int)
    requires t > 0.0 && 1 <= flp.nUnits <= flp.units.Length && SlotsNeeded(flp.units[..flp.nUnits]) <= flp.units.Length
    requires Tiling(flp.units[..flp.nUnits], box) && AllInside(flp.units[..flp.nUnits], box)
    requires box.width > 0.0 && box.height > 0.0
    modifies flp.units, flp`nUnits
    ensures 0 <= rimBlocks <= SlotsNeeded(old(flp.units[..flp.nUnits])) - old(flp.nUnits)
    ensures flp.nUnits == old(flp.nUnits) + rimBlocks
    ensures var n := old(flp.nUnits);
            var core := Rect(t, t, box.width, box.height);
            && flp.units[..n] == ShiftAll(old(flp.units[..flp.nUnits]), t - box.leftx, t - box.bottomy)
            && Tiling(flp.units[..n], core)
            && flp.units[n..flp.nUnits] == RimAll(flp.units[..n], core, t)
            && (Tiling(flp.units[..flp.nUnits], Chip(core, t)) <==> RimSafe(flp.units[..n], core, t))
  {
    hide Tiling;
    hide AllInside;
    hide SlotsNeeded;
    hide RimSafe;
    hide Right;
    hide Top;
    hide Chip;
    hide RimAll;
    hide RimOf;
    hide ShiftAll;
    ghost var rs := flp.units[..flp.nUnits];
    var n := flp.nUnits;
    var width, height := ChipSize(flp, t, box);
    ghost var minX, minY := Translate(flp, t, t);
    CornerOfTiling(rs, box, minX, minY);
    ghost var us := flp.units[..n];
    ghost var core := Rect(t, t, box.width, box.height);
    WrappedTiles(rs, us, box, core, t);
    var at := EmitAll(flp, us, n, width, height, t, core);
    flp.nUnits := at;
    rimBlocks := at - n;
    assert flp.units[..at] == us + RimAll(us, core, t);
  }

  /** The loop of flp_wrap_rim. */
  method EmitAll(flp: Flp, ghost us: seq<Rect>, n: int, width: real, height: real, t: real, ghost core: Rect)
    returns (at: int)
    requires core == Rect(t, t, width - 2.0 * t, height - 2.0 * t)
    requires 0 <= n == |us| && n + |RimAll(us, core, t)| <= flp.units.Length && flp.units[..n] == us
    modifies flp.units
    ensures n <= at <= flp.units.Length
    ensures flp.units[..n] == us && flp.units[n..at] == RimAll(us, core, t)
  {
    hide RimAll;
    NoRim(core, t);
    assert us[..0] == [];
    at := n;
    for i := 0 to n
      invariant flp.units[..n] == us && n <= at <= flp.units.Length
      invariant flp.units[n..at] == RimAll(us[..i], core, t)
    {
      at := EmitNext(flp, us, i, n, at, width, height, t, core);
    }
    assert us[..n] == us;
  }

  lemma NoRim(core: Rect, t: real)
    ensures RimAll([], core, t) == []
  {
  }

  /** One pass of the loop of flp_wrap_rim. */
  method EmitNext(flp: Flp, ghost us: seq<Rect>, i: int, n: int, at: int, width: real, height: real, t: real,
                  ghost core: Rect) returns (next: int)
    requires core == Rect(t, t, width - 2.0 * t, height - 2.0 * t)
    requires 0 <= i < n == |us| && n <= at <= flp.units.Length && n + |RimAll(us, core, t)| <= flp.units.Length
    requires flp.units[..n] == us && flp.units[n..at] == RimAll(us[..i], core, t)
    modifies flp.units
    ensures n <= next <= flp.units.Length
    ensures flp.units[..n] == us && flp.units[n..next] == RimAll(us[..i + 1], core, t)
  {
    hide RimOf;
    RimAllPrefix(us, core, t, i + 1);
    assert us[..i + 1][..i] == us[..i];
    assert RimAll(us[..i + 1], core, t) == RimAll(us[..i], core, t) + RimOf(us[i], core, t);
    next := EmitRim(flp.units, flp.units[i], at, width, height, t, core);
    assert flp.units[..next] == us + RimAll(us[..i], core, t) + RimOf(us[i], core, t);
  }
}
