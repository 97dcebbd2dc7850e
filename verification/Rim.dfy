/** Wrapping rim blocks around a tiled floorplan, on values: the rim tiles exactly the frame between the
    core and the chip, and there are never more rim blocks than the placeholder has room for (flp.c). */
module Rim {
  import opened RealArithmetic
  import opened Sizing
  import opened ShapeCurve

  // ---------------------------------------------------------------- edges of a tiling

  function Right(r: Rect): real {
    r.leftx + r.width
  }

  function Top(r: Rect): real {
    r.bottomy + r.height
  }

  ghost predicate Inside(r: Rect, box: Rect) {
    box.leftx <= r.leftx && Right(r) <= Right(box) && box.bottomy <= r.bottomy && Top(r) <= Top(box)
  }

  ghost predicate AllInside(rs: seq<Rect>, box: Rect) {
    forall i :: 0 <= i < |rs| ==> Inside(rs[i], box)
  }

  lemma {:induction false} CoverCounts(rs: seq<Rect>, i: int, x: real, y: real)
    requires 0 <= i < |rs| && Contains(rs[i], x, y)
    ensures Cover(rs, x, y) >= 1
  {
    if i > 0 {
      CoverCounts(rs[1..], i - 1, x, y);
    }
  }

  /** A rectangle that contains a point. */
  predicate Solid(r: Rect) {
    r.width > 0.0 && r.height > 0.0
  }

  /** A tile of a box that contains any point lies inside the box. */
  lemma TileInside(rs: seq<Rect>, box: Rect, i: int)
    requires Tiling(rs, box) && 0 <= i < |rs| && Solid(rs[i])
    ensures Inside(rs[i], box)
  {
    hide Cover;
    var r := rs[i];
    var x := if r.leftx < Right(box) < Right(r) then Right(box) else r.leftx;
    var y := if r.bottomy < Top(box) < Top(r) then Top(box) else r.bottomy;
    CoverCounts(rs, i, r.leftx, r.bottomy);
    CoverCounts(rs, i, x, y);
    assert Cover(rs, r.leftx, r.bottomy) == Covers(box, r.leftx, r.bottomy);
    assert Cover(rs, x, y) == Covers(box, x, y);
  }

  /** The tiles of a box lie inside it. */
  lemma TilesInside(rs: seq<Rect>, box: Rect)
    requires Tiling(rs, box) && AllPositive(rs)
    ensures AllInside(rs, box)
  {
    hide Tiling;
    hide Inside;
    forall i | 0 <= i < |rs| ensures Inside(rs[i], box) {
      TileInside(rs, box, i);
    }
  }

  /** The largest vertical tile edge left of hi (lo when there is none): between it and hi there is no edge. */
  function NearX(rs: seq<Rect>, lo: real, hi: real): real {
    if rs == [] then lo
    else
      var m := NearX(rs[1..], lo, hi);
      var m1 := if rs[0].leftx < hi then Max(m, rs[0].leftx) else m;
      if Right(rs[0]) < hi then Max(m1, Right(rs[0])) else m1
  }

  function NearY(rs: seq<Rect>, lo: real, hi: real): real {
    if rs == [] then lo
    else
      var m := NearY(rs[1..], lo, hi);
      var m1 := if rs[0].bottomy < hi then Max(m, rs[0].bottomy) else m;
      if Top(rs[0]) < hi then Max(m1, Top(rs[0])) else m1
  }

  lemma {:induction false} NearXBounds(rs: seq<Rect>, lo: real, hi: real)
    requires lo < hi
    ensures lo <= NearX(rs, lo, hi) < hi
    ensures forall i :: 0 <= i < |rs| ==>
      && (rs[i].leftx < hi ==> rs[i].leftx <= NearX(rs, lo, hi))
      && (Right(rs[i]) < hi ==> Right(rs[i]) <= NearX(rs, lo, hi))
  {
    if rs != [] {
      NearXBounds(rs[1..], lo, hi);
      assert forall i :: 1 <= i < |rs| ==> rs[i] == rs[1..][i - 1];
    }
  }

  lemma {:induction false} NearYBounds(rs: seq<Rect>, lo: real, hi: real)
    requires lo < hi
    ensures lo <= NearY(rs, lo, hi) < hi
    ensures forall i :: 0 <= i < |rs| ==>
      && (rs[i].bottomy < hi ==> rs[i].bottomy <= NearY(rs, lo, hi))
      && (Top(rs[i]) < hi ==> Top(rs[i]) <= NearY(rs, lo, hi))
  {
    if rs != [] {
      NearYBounds(rs[1..], lo, hi);
      assert forall i :: 1 <= i < |rs| ==> rs[i] == rs[1..][i - 1];
    }
  }

  // ---------------------------------------------------------------- the rim blocks

  /** The rim block of a tile on one border, extended over the corner that follows it clockwise. core is
      the tiled box, whose lower left corner is (t, t). */
  function West(r: Rect, core: Rect, t: real): seq<Rect> {
    if r.leftx == t then [Rect(0.0, r.bottomy, t, r.height + (if Top(r) == Top(core) then t else 0.0))] else []
  }

  function East(r: Rect, core: Rect, t: real): seq<Rect> {
    if Right(r) == Right(core) then
      [Rect(Right(r), if r.bottomy == t then 0.0 else r.bottomy, t, r.height + (if r.bottomy == t then t else 0.0))]
    else []
  }

  function North(r: Rect, core: Rect, t: real): seq<Rect> {
    if Top(r) == Top(core) then
      [Rect(r.leftx, Top(r), r.width + (if Right(r) == Right(core) then t else 0.0), t)]
    else []
  }

  function South(r: Rect, core: Rect, t: real): seq<Rect> {
    if r.bottomy == t then
      [Rect(if r.leftx == t then 0.0 else r.leftx, 0.0, r.width + (if r.leftx == t then t else 0.0), t)]
    else []
  }

  /** The rim blocks of one tile, in the order in which they are emitted. */
  function RimOf(r: Rect, core: Rect, t: real): seq<Rect> {
    West(r, core, t) + East(r, core, t) + North(r, core, t) + South(r, core, t)
  }

  function RimAll(rs: seq<Rect>, core: Rect, t: real): seq<Rect> {
    if rs == [] then [] else RimAll(rs[..|rs| - 1], core, t) + RimOf(rs[|rs| - 1], core, t)
  }

  function Chip(core: Rect, t: real): Rect {
    Rect(0.0, 0.0, core.width + 2.0 * t, core.height + 2.0 * t)
  }

  // ---------------------------------------------------------------- the rim tiles the frame

  /** The four strips of the frame. */
  function WestStrip(core: Rect, t: real): Rect { Rect(0.0, t, t, core.height + t) }
  function EastStrip(core: Rect, t: real): Rect { Rect(Right(core), 0.0, t, core.height + t) }
  function NorthStrip(core: Rect, t: real): Rect { Rect(t, Top(core), core.width + t, t) }
  function SouthStrip(core: Rect, t: real): Rect { Rect(0.0, 0.0, core.width + t, t) }

  ghost predicate Cored(core: Rect, t: real) {
    t > 0.0 && core.leftx == t && core.bottomy == t && core.width > 0.0 && core.height > 0.0
  }

  /** A point of the core beside the point (x, y) of the frame, chosen so that a tile contains it exactly when
      the tile's rim block contains (x, y). */
  function BesideX(core: Rect, t: real, nx: real, x: real): real {
    if x < t then t else if x >= Right(core) then nx else x
  }

  function BesideY(core: Rect, t: real, ny: real, y: real): real {
    if y < t then t else if y >= Top(core) then ny else y
  }

  ghost predicate NoEdgeAfter(r: Rect, core: Rect, nx: real, ny: real) {
    && core.leftx <= nx < Right(core) && core.bottomy <= ny < Top(core)
    && (r.leftx < Right(core) ==> r.leftx <= nx) && (Right(r) < Right(core) ==> Right(r) <= nx)
    && (r.bottomy < Top(core) ==> r.bottomy <= ny) && (Top(r) < Top(core) ==> Top(r) <= ny)
  }

  /** The part of a tile's rim on each side covers a frame point exactly when the point lies in that side's
      strip and the tile covers the core point beside it. */
  lemma RimOfCovers(r: Rect, core: Rect, t: real, nx: real, ny: real, x: real, y: real)
    requires Cored(core, t) && Inside(r, core) && r.width > 0.0 && r.height > 0.0
    requires NoEdgeAfter(r, core, nx, ny)
    ensures var c := Covers(r, BesideX(core, t, nx, x), BesideY(core, t, ny, y));
            && Cover(West(r, core, t), x, y) == (if Contains(WestStrip(core, t), x, y) then c else 0)
            && Cover(East(r, core, t), x, y) == (if Contains(EastStrip(core, t), x, y) then c else 0)
            && Cover(North(r, core, t), x, y) == (if Contains(NorthStrip(core, t), x, y) then c else 0)
            && Cover(South(r, core, t), x, y) == (if Contains(SouthStrip(core, t), x, y) then c else 0)
  {
  }

  ghost predicate InFrame(core: Rect, t: real, x: real, y: real) {
    Contains(Chip(core, t), x, y) && !Contains(core, x, y)
  }

  /** Every frame point lies in exactly one strip, so every corner is in exactly one. */
  lemma StripsPartitionFrame(core: Rect, t: real, x: real, y: real)
    requires Cored(core, t)
    ensures Covers(WestStrip(core, t), x, y) + Covers(EastStrip(core, t), x, y)
            + Covers(NorthStrip(core, t), x, y) + Covers(SouthStrip(core, t), x, y)
         == if InFrame(core, t, x, y) then 1 else 0
  {
  }

  lemma RimOfFrame(r: Rect, core: Rect, t: real, nx: real, ny: real, x: real, y: real)
    requires Cored(core, t) && Inside(r, core) && r.width > 0.0 && r.height > 0.0
    requires NoEdgeAfter(r, core, nx, ny)
    ensures Cover(RimOf(r, core, t), x, y)
         == if InFrame(core, t, x, y) then Covers(r, BesideX(core, t, nx, x), BesideY(core, t, ny, y)) else 0
  {
    hide West;
    hide East;
    hide North;
    hide South;
    hide Contains;
    hide Inside;
    hide NoEdgeAfter;
    hide InFrame;
    hide BesideX;
    hide BesideY;
    var w, e, n, s := West(r, core, t), East(r, core, t), North(r, core, t), South(r, core, t);
    RimOfCovers(r, core, t, nx, ny, x, y);
    StripsPartitionFrame(core, t, x, y);
    CoverConcat(w + e + n, s, x, y);
    CoverConcat(w + e, n, x, y);
    CoverConcat(w, e, x, y);
  }

  ghost predicate RimReady(rs: seq<Rect>, core: Rect, t: real, nx: real, ny: real) {
    && Cored(core, t) && AllInside(rs, core) && AllPositive(rs)
    && forall i :: 0 <= i < |rs| ==> NoEdgeAfter(rs[i], core, nx, ny)
  }

  lemma {:induction false} RimAllFrame(rs: seq<Rect>, core: Rect, t: real, nx: real, ny: real, x: real, y: real)
    requires RimReady(rs, core, t, nx, ny)
    ensures Cover(RimAll(rs, core, t), x, y)
         == if InFrame(core, t, x, y) then Cover(rs, BesideX(core, t, nx, x), BesideY(core, t, ny, y)) else 0
  {
    hide NoEdgeAfter;
    hide Inside;
    hide RimOf;
    hide InFrame;
    hide Contains;
    hide BesideX;
    hide BesideY;
    if rs != [] {
      var init, r := rs[..|rs| - 1], rs[|rs| - 1];
      var cx, cy := BesideX(core, t, nx, x), BesideY(core, t, ny, y);
      RimAllFrame(init, core, t, nx, ny, x, y);
      RimOfFrame(r, core, t, nx, ny, x, y);
      CoverConcat(RimAll(init, core, t), RimOf(r, core, t), x, y);
      CoverConcat(init, [r], cx, cy);
      assert rs == init + [r];
      assert [r][1..] == [];
    }
  }

  lemma TilingIsRimReady(rs: seq<Rect>, core: Rect, t: real)
    requires Tiling(rs, core) && AllPositive(rs) && Cored(core, t)
    ensures RimReady(rs, core, t, NearX(rs, core.leftx, Right(core)), NearY(rs, core.bottomy, Top(core)))
  {
    TilesInside(rs, core);
    NearXBounds(rs, core.leftx, Right(core));
    NearYBounds(rs, core.bottomy, Top(core));
  }

  /** The rim blocks tile the frame: every point of the chip outside the core is in exactly one rim block,
      and no other point is in any. With the tiles of the core they tile the whole chip. */
  lemma RimTilesFrame(rs: seq<Rect>, core: Rect, t: real)
    requires Tiling(rs, core) && AllPositive(rs) && Cored(core, t)
    ensures forall x, y ::
      Cover(RimAll(rs, core, t), x, y) == if InFrame(core, t, x, y) then 1 else 0
    ensures Tiling(rs + RimAll(rs, core, t), Chip(core, t))
  {
    hide RimAll;
    hide RimReady;
    hide Cover;
    hide NearX;
    hide NearY;
    var nx, ny := NearX(rs, core.leftx, Right(core)), NearY(rs, core.bottomy, Top(core));
    TilingIsRimReady(rs, core, t);
    NearXBounds(rs, core.leftx, Right(core));
    NearYBounds(rs, core.bottomy, Top(core));
    forall x, y
      ensures Cover(RimAll(rs, core, t), x, y) == if InFrame(core, t, x, y) then 1 else 0
      ensures Cover(rs + RimAll(rs, core, t), x, y) == Covers(Chip(core, t), x, y)
    {
      RimAllFrame(rs, core, t, nx, ny, x, y);
      var cx, cy := BesideX(core, t, nx, x), BesideY(core, t, ny, y);
      assert Cover(rs, cx, cy) == Covers(core, cx, cy);
      assert Cover(rs, x, y) == Covers(core, x, y);
      CoverConcat(rs, RimAll(rs, core, t), x, y);
    }
  }

  // ---------------------------------------------------------------- how many rim blocks

  /** How many corners of the core the tile covers. */
  function CornersOf(r: Rect, t: real, nx: real, ny: real): nat {
    Covers(r, t, t) + Covers(r, nx, t) + Covers(r, t, ny) + Covers(r, nx, ny)
  }

  /** A tile with more than two rim blocks pays for them with corners. */
  lemma RimOfCount(r: Rect, core: Rect, t: real, nx: real, ny: real)
    requires Cored(core, t) && Inside(r, core) && r.width > 0.0 && r.height > 0.0
    requires NoEdgeAfter(r, core, nx, ny)
    ensures 2 * |RimOf(r, core, t)| <= 4 + CornersOf(r, t, nx, ny)
  {
  }

  lemma {:induction false} RimAllCount(rs: seq<Rect>, core: Rect, t: real, nx: real, ny: real)
    requires RimReady(rs, core, t, nx, ny)
    ensures 2 * |RimAll(rs, core, t)|
         <= 4 * |rs| + Cover(rs, t, t) + Cover(rs, nx, t) + Cover(rs, t, ny) + Cover(rs, nx, ny)
  {
    hide NoEdgeAfter;
    hide Inside;
    hide RimOf;
    hide Contains;
    if rs != [] {
      var init, r := rs[..|rs| - 1], rs[|rs| - 1];
      RimAllCount(init, core, t, nx, ny);
      RimOfCount(r, core, t, nx, ny);
      assert rs == init + [r];
      CoverConcat(init, [r], t, t);
      CoverConcat(init, [r], nx, t);
      CoverConcat(init, [r], t, ny);
      CoverConcat(init, [r], nx, ny);
      assert [r][1..] == [];
    }
  }

  /** A tiling of n tiles gets at most 2n + 2 rim blocks, the room the placeholder reserves. */
  lemma RimFits(rs: seq<Rect>, core: Rect, t: real)
    requires Tiling(rs, core) && AllPositive(rs) && Cored(core, t)
    ensures |RimAll(rs, core, t)| <= 2 * |rs| + 2
  {
    hide RimAll;
    hide RimReady;
    hide Cover;
    var nx, ny := NearX(rs, core.leftx, Right(core)), NearY(rs, core.bottomy, Top(core));
    TilingIsRimReady(rs, core, t);
    NearXBounds(rs, core.leftx, Right(core));
    NearYBounds(rs, core.bottomy, Top(core));
    RimAllCount(rs, core, t, nx, ny);
    assert Cover(rs, t, t) == Covers(core, t, t) && Cover(rs, nx, t) == Covers(core, nx, t);
    assert Cover(rs, t, ny) == Covers(core, t, ny) && Cover(rs, nx, ny) == Covers(core, nx, ny);
  }

  lemma {:induction false} RimAllPrefix(rs: seq<Rect>, core: Rect, t: real, i: nat)
    requires i <= |rs|
    ensures |RimAll(rs[..i], core, t)| <= |RimAll(rs, core, t)|
    decreases |rs|
  {
    if i < |rs| {
      RimAllPrefix(rs[..|rs| - 1], core, t, i);
      assert rs[..|rs| - 1][..i] == rs[..i];
    } else {
      assert rs[..i] == rs;
    }
  }

  // ---------------------------------------------------------------- tiles without area

  /** The tiles that contain points. */
  function Solids(rs: seq<Rect>): (ss: seq<Rect>)
    ensures AllPositive(ss) && |ss| <= |rs|
  {
    if rs == [] then []
    else Solids(rs[..|rs| - 1]) + (if Solid(rs[|rs| - 1]) then [rs[|rs| - 1]] else [])
  }

  /** The blocks around tiles without area have no area either: this is what wrapping relies on. */
  ghost predicate RimSafe(rs: seq<Rect>, core: Rect, t: real) {
    forall i :: 0 <= i < |rs| && !Solid(rs[i]) ==> NoneSolid(RimOf(rs[i], core, t))
  }

  ghost predicate NoneSolid(rs: seq<Rect>) {
    forall k :: 0 <= k < |rs| ==> !Solid(rs[k])
  }

  lemma {:induction false} CoverOfSolids(rs: seq<Rect>, x: real, y: real)
    ensures Cover(rs, x, y) == Cover(Solids(rs), x, y)
  {
    if rs != [] {
      var init, r := rs[..|rs| - 1], rs[|rs| - 1];
      CoverOfSolids(init, x, y);
      assert rs == init + [r] && [r][1..] == [];
      CoverConcat(init, [r], x, y);
      CoverConcat(Solids(init), if Solid(r) then [r] else [], x, y);
    }
  }

  lemma {:induction false} NoneSolidCovers(rs: seq<Rect>, x: real, y: real)
    requires NoneSolid(rs)
    ensures Cover(rs, x, y) == 0
  {
    if rs != [] {
      assert forall k :: 0 <= k < |rs[1..]| ==> rs[1..][k] == rs[k + 1];
      NoneSolidCovers(rs[1..], x, y);
    }
  }

  /** Blocks around tiles without area only add to the rim of the others. */
  lemma {:induction false} RimSplit(rs: seq<Rect>, core: Rect, t: real, x: real, y: real)
    ensures Cover(RimAll(rs, core, t), x, y) >= Cover(RimAll(Solids(rs), core, t), x, y)
    ensures RimSafe(rs, core, t) ==> Cover(RimAll(rs, core, t), x, y) == Cover(RimAll(Solids(rs), core, t), x, y)
    ensures |RimAll(rs, core, t)| <= |RimAll(Solids(rs), core, t)| + 4 * (|rs| - |Solids(rs)|)
  {
    hide RimOf;
    hide Solid;
    hide NoneSolid;
    hide Cover;
    if rs != [] {
      var init, r := rs[..|rs| - 1], rs[|rs| - 1];
      RimSplit(init, core, t, x, y);
      CoverConcat(RimAll(init, core, t), RimOf(r, core, t), x, y);
      RimOfLength(r, core, t);
      assert forall i :: 0 <= i < |init| ==> init[i] == rs[i];
      if Solid(r) {
        var ss := Solids(init);
        assert (ss + [r])[..|ss|] == ss;
        CoverConcat(RimAll(ss, core, t), RimOf(r, core, t), x, y);
      } else {
        assert Solids(rs) == Solids(init);
        if RimSafe(rs, core, t) {
          NoneSolidCovers(RimOf(r, core, t), x, y);
        }
      }
    }
  }

  lemma RimOfLength(r: Rect, core: Rect, t: real)
    ensures |RimOf(r, core, t)| <= 4
  {
  }

  /** A block with area around a tile without area is one too many somewhere. */
  lemma {:induction false} RimExtra(rs: seq<Rect>, core: Rect, t: real, i: int, k: int)
    requires 0 <= i < |rs| && !Solid(rs[i]) && 0 <= k < |RimOf(rs[i], core, t)| && Solid(RimOf(rs[i], core, t)[k])
    ensures var b := RimOf(rs[i], core, t)[k];
            Cover(RimAll(rs, core, t), b.leftx, b.bottomy) >= Cover(RimAll(Solids(rs), core, t), b.leftx, b.bottomy) + 1
  {
    hide RimOf;
    hide Cover;
    var init, r, b := rs[..|rs| - 1], rs[|rs| - 1], RimOf(rs[i], core, t)[k];
    var x, y := b.leftx, b.bottomy;
    CoverConcat(RimAll(init, core, t), RimOf(r, core, t), x, y);
    if i == |rs| - 1 {
      RimSplit(init, core, t, x, y);
      CoverCounts(RimOf(r, core, t), k, x, y);
      assert Solids(rs) == Solids(init);
    } else {
      RimExtra(init, core, t, i, k);
      var ss := Solids(init);
      if Solid(r) {
        assert Solids(rs) == ss + [r] && (ss + [r])[..|ss|] == ss;
        CoverConcat(RimAll(ss, core, t), RimOf(r, core, t), x, y);
      } else {
        assert Solids(rs) == ss;
      }
    }
  }

  lemma SolidsTile(rs: seq<Rect>, box: Rect)
    requires Tiling(rs, box)
    ensures Tiling(Solids(rs), box)
  {
    hide Cover;
    forall x, y ensures Cover(Solids(rs), x, y) == Covers(box, x, y) {
      CoverOfSolids(rs, x, y);
    }
  }

  /** For every tiling of the core, wrapping tiles the chip exactly when tiles without area get no blocks with area. */
  lemma RimTilesChipIff(rs: seq<Rect>, core: Rect, t: real)
    requires Tiling(rs, core) && Cored(core, t)
    ensures Tiling(rs + RimAll(rs, core, t), Chip(core, t)) <==> RimSafe(rs, core, t)
  {
    hide RimAll;
    hide RimOf;
    hide Solid;
    hide Cover;
    var ss, rim, chip := Solids(rs), RimAll(rs, core, t), Chip(core, t);
    SolidsTile(rs, core);
    RimTilesFrame(ss, core, t);
    forall x, y
      ensures Cover(rs + rim, x, y) == Covers(chip, x, y) + Cover(rim, x, y) - Cover(RimAll(ss, core, t), x, y)
      ensures RimSafe(rs, core, t) ==> Cover(rs + rim, x, y) == Covers(chip, x, y)
    {
      CoverConcat(rs, rim, x, y);
      CoverConcat(ss, RimAll(ss, core, t), x, y);
      CoverOfSolids(rs, x, y);
      RimSplit(rs, core, t, x, y);
      assert Cover(ss + RimAll(ss, core, t), x, y) == Covers(chip, x, y);
    }
    if !RimSafe(rs, core, t) {
      var i :| 0 <= i < |rs| && !Solid(rs[i]) && !NoneSolid(RimOf(rs[i], core, t));
      var k :| 0 <= k < |RimOf(rs[i], core, t)| && Solid(RimOf(rs[i], core, t)[k]);
      RimExtra(rs, core, t, i, k);
      var b := RimOf(rs[i], core, t)[k];
      assert Cover(rs + rim, b.leftx, b.bottomy) > Covers(chip, b.leftx, b.bottomy);
    }
  }

  /** Each tile without area may take up to two slots more than the reserve counts for it. */
  lemma RimRoom(rs: seq<Rect>, core: Rect, t: real)
    requires Tiling(rs, core) && Cored(core, t)
    ensures |RimAll(rs, core, t)| <= 2 * |rs| + 2 + 2 * (|rs| - |Solids(rs)|)
  {
    hide RimAll;
    hide Tiling;
    SolidsTile(rs, core);
    RimFits(Solids(rs), core, t);
    RimSplit(rs, core, t, 0.0, 0.0);
  }

  lemma CoverOfOne(r: Rect, x: real, y: real)
    ensures Cover([r], x, y) == Covers(r, x, y)
  {
    assert [r][1..] == [];
  }

  /** Without compaction such tiles arise: two blocks of equal height leave a dead block of height zero, which
      on the upper edge of the core gets rim blocks of its own over those of the blocks below. */
  lemma FlatTileBreaksRim()
    ensures var core := Rect(1.0, 1.0, 2.0, 2.0);
            var rs := Parts(SplitBeside(core, 1.0, 2.0, 1.0, 2.0, 1.0, false, 0.0));
            && rs == [Rect(1.0, 1.0, 1.0, 2.0), Rect(2.0, 1.0, 1.0, 2.0), Rect(1.0, 3.0, 1.0, 0.0)]
            && Tiling(rs, core) && !Tiling(rs + RimAll(rs, core, 1.0), Chip(core, 1.0))
  {
    var core := Rect(1.0, 1.0, 2.0, 2.0);
    var rs := Parts(SplitBeside(core, 1.0, 2.0, 1.0, 2.0, 1.0, false, 0.0));
    var a, b, c := Rect(1.0, 1.0, 1.0, 2.0), Rect(2.0, 1.0, 1.0, 2.0), Rect(1.0, 3.0, 1.0, 0.0);
    assert rs == [a] + [b] + [c];
    forall x, y ensures Cover(rs, x, y) == Covers(core, x, y) {
      CoverConcat([a] + [b], [c], x, y);
      CoverConcat([a], [b], x, y);
      CoverOfOne(a, x, y);
      CoverOfOne(b, x, y);
      CoverOfOne(c, x, y);
    }
    assert RimOf(rs[2], core, 1.0)[0] == Rect(0.0, 3.0, 1.0, 1.0);
    RimTilesChipIff(rs, core, 1.0);
    assert !NoneSolid(RimOf(rs[2], core, 1.0));
  }

  /** Tiles with area only: the extra conditions hold. */
  lemma {:induction false} AllSolid(rs: seq<Rect>)
    requires AllPositive(rs)
    ensures Solids(rs) == rs
  {
    if rs != [] {
      assert forall i :: 0 <= i < |rs| - 1 ==> rs[..|rs| - 1][i] == rs[i];
      AllSolid(rs[..|rs| - 1]);
    }
  }

  lemma PositiveTiling(rs: seq<Rect>, box: Rect)
    requires Tiling(rs, box) && AllPositive(rs) && |rs| > 0
    ensures AllInside(rs, box) && box.width > 0.0 && box.height > 0.0
    ensures |Solids(rs)| == |rs|
  {
    hide Tiling;
    TilesInside(rs, box);
    AllSolid(rs);
    assert Inside(rs[0], box);
  }

  lemma RimOfIsPositive(r: Rect, core: Rect, t: real)
    requires Solid(r) && t > 0.0
    ensures AllPositive(RimOf(r, core, t))
  {
  }

  lemma {:induction false} RimIsPositive(rs: seq<Rect>, core: Rect, t: real)
    requires AllPositive(rs) && t > 0.0
    ensures AllPositive(RimAll(rs, core, t)) && RimSafe(rs, core, t)
  {
    hide RimOf;
    if rs != [] {
      RimOfIsPositive(rs[|rs| - 1], core, t);
      assert forall i :: 0 <= i < |rs| - 1 ==> rs[..|rs| - 1][i] == rs[i];
      RimIsPositive(rs[..|rs| - 1], core, t);
    }
  }

  // ---------------------------------------------------------------- translation and extent

  function Shift(r: Rect, dx: real, dy: real): Rect {
    r.(leftx := r.leftx + dx, bottomy := r.bottomy + dy)
  }

  function ShiftAll(rs: seq<Rect>, dx: real, dy: real): seq<Rect> {
    seq(|rs|, i requires 0 <= i < |rs| => Shift(rs[i], dx, dy))
  }

  lemma {:induction false} CoverOfShift(rs: seq<Rect>, dx: real, dy: real, x: real, y: real)
    ensures Cover(ShiftAll(rs, dx, dy), x, y) == Cover(rs, x - dx, y - dy)
  {
    if rs != [] {
      assert ShiftAll(rs, dx, dy)[1..] == ShiftAll(rs[1..], dx, dy);
      CoverOfShift(rs[1..], dx, dy, x, y);
    }
  }

  lemma ShiftedTiling(rs: seq<Rect>, box: Rect, dx: real, dy: real)
    requires Tiling(rs, box)
    ensures Tiling(ShiftAll(rs, dx, dy), Shift(box, dx, dy))
    ensures AllPositive(rs) ==> AllPositive(ShiftAll(rs, dx, dy))
  {
    forall x, y ensures Cover(ShiftAll(rs, dx, dy), x, y) == Covers(Shift(box, dx, dy), x, y) {
      CoverOfShift(rs, dx, dy, x, y);
      assert Cover(rs, x - dx, y - dy) == Covers(box, x - dx, y - dy);
    }
  }

  lemma {:induction false} SolidsOfShift(rs: seq<Rect>, dx: real, dy: real)
    ensures |Solids(ShiftAll(rs, dx, dy))| == |Solids(rs)|
  {
    if rs != [] {
      assert ShiftAll(rs, dx, dy)[..|rs| - 1] == ShiftAll(rs[..|rs| - 1], dx, dy);
      SolidsOfShift(rs[..|rs| - 1], dx, dy);
    }
  }

  lemma {:induction false} CoveredBySome(rs: seq<Rect>, x: real, y: real) returns (i: nat)
    requires Cover(rs, x, y) >= 1
    ensures i < |rs| && Contains(rs[i], x, y)
  {
    if Contains(rs[0], x, y) {
      i := 0;
    } else {
      i := CoveredBySome(rs[1..], x, y);
      i := i + 1;
    }
  }

  /** Some tile touches each side of a tiled box, so the extent of the tiles is the box. */
  lemma TilingTouchesSides(rs: seq<Rect>, box: Rect) returns (sw: nat, ne: nat)
    requires Tiling(rs, box) && AllInside(rs, box) && box.width > 0.0 && box.height > 0.0
    ensures sw < |rs| && rs[sw].leftx == box.leftx && rs[sw].bottomy == box.bottomy
    ensures ne < |rs| && Right(rs[ne]) == Right(box) && Top(rs[ne]) == Top(box)
  {
    var nx, ny := NearX(rs, box.leftx, Right(box)), NearY(rs, box.bottomy, Top(box));
    NearXBounds(rs, box.leftx, Right(box));
    NearYBounds(rs, box.bottomy, Top(box));
    assert Cover(rs, box.leftx, box.bottomy) == Covers(box, box.leftx, box.bottomy);
    sw := CoveredBySome(rs, box.leftx, box.bottomy);
    assert Cover(rs, nx, ny) == Covers(box, nx, ny);
    ne := CoveredBySome(rs, nx, ny);
    assert Inside(rs[sw], box) && Inside(rs[ne], box);
  }
}
