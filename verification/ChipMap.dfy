/** From the annealed floorplan to the grid: what the floorplanner leaves is what the mapping needs (flp.c,
    temperature_grid.c). */
module ChipMapping {
  import opened RealArithmetic
  import opened RealMatrix
  import opened PolishExpression
  import opened ShapeCurve
  import opened SlicingTree
  import opened Sizing
  import opened SizingState
  import opened Rim
  import opened Floorplan
  import GridMapping
  import GridState
  import TilingMeasure

  /** The outline of the evaluated chip, with or without its rim. */
  function Outline(e: Entry, rim: bool, thickness: real): Rect {
    if rim then Chip(Rect(thickness, thickness, e.x, e.y), thickness) else Rect(0.0, 0.0, e.x, e.y)
  }

  lemma ChipTilesOutline(units: seq<Rect>, s: seq<int>, curves: seq<Curve>, n: int, tiles: int, t: Tree, pos: nat,
                         rim: bool, thickness: real)
    requires ChipOf(units, s, curves, n, tiles, t, pos, rim, thickness)
    ensures pos < |t.curve| && AllPositive(units) && TilesBox(units, Outline(t.curve[pos], rim, thickness))
  {
    hide TilesBox;
    hide AllPositive;
    hide Summed;
    hide LeavesWellShaped;
    hide TreeOf;
    hide HoldsOrientations;
    hide Chip;
  }

  /** On a grid over the annealed chip, rim included, every unit passes the checks of set_bgmap and every cell is
      filled exactly. */
  lemma ChipFillsGrid(units: seq<Rect>, s: seq<int>, curves: seq<Curve>, n: int, tiles: int, t: Tree, pos: nat,
                      rim: bool, thickness: real, m: GridMapping.Grid)
    requires ChipOf(units, s, curves, n, tiles, t, pos, rim, thickness)
    requires m.rows > 0 && m.cols > 0 && (rim ==> thickness > 0.0)
    requires var box := Outline(t.curve[pos], rim, thickness); m.width == box.width && m.height == box.height
    ensures GridMapping.Ready(m) && GridMapping.AllPass(m, units) && AllPositive(units)
    ensures forall i, j :: 0 <= i < m.rows && 0 <= j < m.cols ==>
      GridMapping.OccupancySum(GridMapping.CellList(m, units, i, j)) == 1.0
  {
    hide GridMapping.CellList;
    hide GridMapping.OccupancySum;
    hide GridMapping.RangeOf;
    hide GridMapping.Ready;
    hide ChipOf;
    hide Tiling;
    ChipTilesOutline(units, s, curves, n, tiles, t, pos, rim, thickness);
    var box := Outline(t.curve[pos], rim, thickness);
    ChipHasSize(units, s, curves, n, tiles, t, pos, rim, thickness);
    GridMapping.GridIsReady(m);
    assert box == Rect(0.0, 0.0, m.width, m.height);
    GridMapping.TilesPass(m, units);
    forall i, j | 0 <= i < m.rows && 0 <= j < m.cols
      ensures GridMapping.OccupancySum(GridMapping.CellList(m, units, i, j)) == 1.0
    {
      GridMapping.CellsAreFull(m, units, i, j);
    }
  }

  lemma ChipHasSize(units: seq<Rect>, s: seq<int>, curves: seq<Curve>, n: int, tiles: int, t: Tree, pos: nat,
                    rim: bool, thickness: real)
    requires ChipOf(units, s, curves, n, tiles, t, pos, rim, thickness) && (rim ==> thickness > 0.0)
    ensures var box := Outline(t.curve[pos], rim, thickness); box.width > 0.0 && box.height > 0.0
  {
    hide TreeOf;
    hide HoldsOrientations;
    hide TilesBox;
    hide Summed;
    hide LeavesWellShaped;
    EntryIsPositive(t, pos);
  }

  /** Mapping the annealed chip and translating the powers of its units: no abort, and all power arrives. */
  method MapChip(flp: Flp, m: GridMapping.Grid, v: Vector, rim: bool, thickness: real, ghost s: seq<int>,
                 ghost curves: seq<Curve>, ghost n: int, ghost tiles: int, ghost t: Tree, ghost pos: nat)
    returns (ok: bool, cuboid: array3<real>)
    requires 0 <= flp.nUnits <= flp.units.Length && |v| == flp.nUnits
    requires ChipOf(flp.units[..flp.nUnits], s, curves, n, tiles, t, pos, rim, thickness)
    requires m.rows > 0 && m.cols > 0 && (rim ==> thickness > 0.0)
    requires var box := Outline(t.curve[pos], rim, thickness); m.width == box.width && m.height == box.height
    ensures ok && cuboid.Length0 == 1 && cuboid.Length1 == m.rows && cuboid.Length2 == m.cols
    ensures GridState.Total(GridState.LayerOf(cuboid, 0), m.rows, m.cols) == Sum(0, |v|, u => Elem(v, u))
  {
    hide ChipOf;
    hide GridMapping.CellList;
    hide GridMapping.AllPass;
    hide GridMapping.Ready;
    hide GridState.Total;
    hide GridState.LayerOf;
    hide Sum;
    hide AllPositive;
    var us := flp.units[..flp.nUnits];
    ChipFillsGrid(us, s, curves, n, tiles, t, pos, rim, thickness, m);
    PositiveIsNonNegative(us);
    ValidOutline(us, s, curves, n, tiles, t, pos, rim, thickness, m);
    var b2g, g2b := new seq<GridMapping.Occ>[m.rows, m.cols], new GridMapping.Range[|us|];
    cuboid := new real[1, m.rows, m.cols];
    var extra := new real[0];
    ok := GridState.SetBgmap(m, us, b2g, g2b);
    OneLayer(us, v);
    GridState.XlateVectorB2G(m, [us], [b2g], v, cuboid, extra, GridMapping.Power);
  }

  lemma PositiveIsNonNegative(us: seq<Rect>)
    requires AllPositive(us)
    ensures TilingMeasure.NonNegative(us)
  {
  }

  lemma ValidOutline(units: seq<Rect>, s: seq<int>, curves: seq<Curve>, n: int, tiles: int, t: Tree, pos: nat,
                     rim: bool, thickness: real, m: GridMapping.Grid)
    requires ChipOf(units, s, curves, n, tiles, t, pos, rim, thickness)
    requires m.rows > 0 && m.cols > 0 && (rim ==> thickness > 0.0)
    requires var box := Outline(t.curve[pos], rim, thickness); m.width == box.width && m.height == box.height
    ensures GridMapping.ValidGrid(m)
  {
    hide ChipOf;
    ChipHasSize(units, s, curves, n, tiles, t, pos, rim, thickness);
  }

  lemma OneLayer(us: seq<Rect>, v: Vector)
    requires |v| == |us|
    ensures GridState.Base([us], 1) == |us| && GridState.LayerVector([us], v, 0) == v
  {
  }
}
