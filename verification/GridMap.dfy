/** Mapping blocks to grid cells, and translating block power to cell power (temperature_grid.c). */
module GridMapping {
  import opened RealArithmetic
  import opened RealMatrix
  import opened Sizing
  import Rim
  import TilingMeasure

  // ---------------------------------------------------------------- one axis

  function Ceil(x: real): int {
    -((-x).Floor)
  }

  /** The lower border of cell k. */
  function Border(k: int, c: real): real {
    k as real * c
  }

  /** The signed overlap of the interval from lo to hi with cell k of width c. */
  function Overlap(lo: real, hi: real, c: real, k: int): real {
    Min(hi, Border(k + 1, c)) - Max(lo, Border(k, c))
  }

  /** The first cell the interval reaches into, and one past the last. */
  function First(lo: real, c: real): int
    requires c > 0.0
  {
    (lo / c).Floor
  }

  function Last(hi: real, c: real): int
    requires c > 0.0
  {
    Ceil(hi / c)
  }

  lemma Scaled(x: real, c: real, n: int)
    requires c > 0.0
    ensures n as real <= x / c ==> Border(n, c) <= x
    ensures x / c <= n as real ==> x <= Border(n, c)
    ensures x / c < n as real ==> x < Border(n, c)
    ensures n as real < x / c ==> Border(n, c) < x
  {
    var q := x / c;
    Quotient(x, c);
  }

  lemma FirstBounds(lo: real, c: real)
    requires c > 0.0
    ensures Border(First(lo, c), c) <= lo < Border(First(lo, c) + 1, c)
  {
    hide Border;
    Scaled(lo, c, First(lo, c));
    Scaled(lo, c, First(lo, c) + 1);
  }

  lemma LastBounds(hi: real, c: real)
    requires c > 0.0
    ensures Border(Last(hi, c) - 1, c) < hi <= Border(Last(hi, c), c)
  {
    hide Border;
    Scaled(hi, c, Last(hi, c) - 1);
    Scaled(hi, c, Last(hi, c));
  }

  lemma BorderOrder(j: int, k: int, c: real)
    requires c > 0.0 && j <= k
    ensures Border(j, c) <= Border(k, c)
  {
  }

  lemma NextBorder(k: int, c: real)
    ensures Border(k + 1, c) == Border(k, c) + c
  {
  }

  /** Within the index range no overlap is negative, and cells strictly inside it are covered completely: the
      branch that stores occupancy 1 agrees with the general formula. */
  lemma OverlapSign(lo: real, hi: real, c: real, k: int)
    requires c > 0.0 && lo <= hi && First(lo, c) <= k < Last(hi, c)
    ensures 0.0 <= Overlap(lo, hi, c, k) <= c
    ensures First(lo, c) < k < Last(hi, c) - 1 ==> Overlap(lo, hi, c, k) == c
  {
    hide Border;
    FirstBounds(lo, c);
    LastBounds(hi, c);
    NextBorder(k, c);
    BorderOrder(First(lo, c), k, c);
    BorderOrder(First(lo, c) + 1, k + 1, c);
    BorderOrder(k, Last(hi, c) - 1, c);
    if First(lo, c) < k {
      BorderOrder(First(lo, c) + 1, k, c);
    }
    if k < Last(hi, c) - 1 {
      BorderOrder(k + 1, Last(hi, c) - 1, c);
    }
  }

  /** The overlaps of the cells from the first up to k cover the interval up to the border of cell k. */
  lemma {:induction false} OverlapsUpTo(lo: real, hi: real, c: real, k: int)
    requires c > 0.0 && lo <= hi && First(lo, c) < k <= Last(hi, c)
    ensures Sum(First(lo, c), k, q => Overlap(lo, hi, c, q)) == Min(hi, Border(k, c)) - lo
    decreases k - First(lo, c)
  {
    hide Border;
    hide Sum;
    hide First;
    hide Last;
    var a := First(lo, c);
    var f := q => Overlap(lo, hi, c, q);
    FirstBounds(lo, c);
    LastBounds(hi, c);
    SumLast(a, k, f);
    BorderOrder(k - 1, Last(hi, c) - 1, c);
    if k - 1 > a {
      BorderOrder(a + 1, k - 1, c);
      OverlapsUpTo(lo, hi, c, k - 1);
    } else {
      SumEmpty(a, a, f);
    }
  }

  /** An interval reaches some cell unless it is a single border point. */
  lemma ReachesCell(lo: real, hi: real, c: real)
    requires c > 0.0 && lo < hi
    ensures First(lo, c) < Last(hi, c)
  {
    hide Border;
    hide First;
    hide Last;
    FirstBounds(lo, c);
    LastBounds(hi, c);
    if Last(hi, c) <= First(lo, c) {
      BorderOrder(Last(hi, c), First(lo, c), c);
    }
  }

  /** An interval is the sum of its overlaps with the cells it reaches. */
  lemma AxisSum(lo: real, hi: real, c: real)
    requires c > 0.0 && lo <= hi && First(lo, c) < Last(hi, c)
    ensures Sum(First(lo, c), Last(hi, c), q => Overlap(lo, hi, c, q)) == hi - lo
  {
    hide Border;
    hide Sum;
    hide First;
    hide Last;
    LastBounds(hi, c);
    OverlapsUpTo(lo, hi, c, Last(hi, c));
  }

  /** Summing a range backwards. */
  lemma {:induction false} SumReversed(a: int, b: int, r: int, f: int -> real)
    ensures Sum(a, b, i => f(r - 1 - i)) == Sum(r - b, r - a, f)
    decreases b - a
  {
    if a < b {
      SumReversed(a, b - 1, r, f);
      SumSplit(r - b, r - b + 1, r - a, f);
      SumLast(r - b, r - b + 1, f);
      SumEmpty(r - b, r - b, f);
    }
  }

  // ---------------------------------------------------------------- cells and occupancies

  datatype Grid = Grid(width: real, height: real, rows: int, cols: int)

  ghost predicate ValidGrid(m: Grid) {
    m.width > 0.0 && m.height > 0.0 && m.rows > 0 && m.cols > 0
  }

  function CellWidth(m: Grid): (w: real)
    requires m.cols > 0
  {
    m.width / m.cols as real
  }

  function CellHeight(m: Grid): (h: real)
    requires m.rows > 0
  {
    m.height / m.rows as real
  }

  lemma CellSizes(m: Grid)
    requires ValidGrid(m)
    ensures CellWidth(m) > 0.0 && CellHeight(m) > 0.0
    ensures Border(m.cols, CellWidth(m)) == m.width && Border(m.rows, CellHeight(m)) == m.height
  {
    Quotient(m.width, m.cols as real);
    Quotient(m.height, m.rows as real);
    PositiveProduct(m.width, m.cols as real);
    PositiveProduct(m.height, m.rows as real);
  }

  /** glist_t: the rows and columns of the cells a unit reaches. */
  datatype Range = Range(i1: int, i2: int, j1: int, j2: int)

  function RangeOf(m: Grid, r: Rect): Range
    requires ValidGrid(m) && CellWidth(m) > 0.0 && CellHeight(m) > 0.0
  {
    Range(m.rows - Last(r.bottomy + r.height, CellHeight(m)), m.rows - First(r.bottomy, CellHeight(m)),
          First(r.leftx, CellWidth(m)), Last(r.leftx + r.width, CellWidth(m)))
  }

  /** The fatal checks of set_bgmap. */
  predicate RangeOk(m: Grid, g: Range) {
    0 <= g.i1 < g.i2 <= m.rows && 0 <= g.j1 < g.j2 <= m.cols
  }

  predicate InRange(g: Range, i: int, j: int) {
    g.i1 <= i < g.i2 && g.j1 <= j < g.j2
  }

  /** The area of unit r inside cell (i, j): row 0 is the topmost. */
  function Shared(m: Grid, r: Rect, i: int, j: int): real
    requires ValidGrid(m) && CellWidth(m) > 0.0 && CellHeight(m) > 0.0
  {
    if InRange(RangeOf(m, r), i, j) then
      Overlap(r.bottomy, r.bottomy + r.height, CellHeight(m), m.rows - 1 - i)
      * Overlap(r.leftx, r.leftx + r.width, CellWidth(m), j)
    else 0.0
  }

  function CellArea(m: Grid): real
    requires ValidGrid(m)
  {
    CellHeight(m) * CellWidth(m)
  }

  function Occupancy(m: Grid, r: Rect, i: int, j: int): real
    requires ValidGrid(m) && CellWidth(m) > 0.0 && CellHeight(m) > 0.0 && CellArea(m) > 0.0
  {
    Shared(m, r, i, j) / CellArea(m)
  }

  /** Everything the mapping needs of a grid. */
  ghost predicate Ready(m: Grid) {
    ValidGrid(m) && CellWidth(m) > 0.0 && CellHeight(m) > 0.0 && CellArea(m) > 0.0
  }

  lemma GridIsReady(m: Grid)
    requires ValidGrid(m)
    ensures Ready(m)
  {
    CellSizes(m);
    PositiveProduct(CellHeight(m), CellWidth(m));
  }

  ghost predicate Fits(m: Grid, r: Rect) {
    && r.width > 0.0 && r.height > 0.0 && r.leftx >= 0.0 && r.bottomy >= 0.0
    && r.leftx + r.width <= m.width && r.bottomy + r.height <= m.height
  }

  lemma FirstNonNegative(lo: real, c: real)
    requires c > 0.0 && lo >= 0.0
    ensures First(lo, c) >= 0
  {
    hide First;
    FirstBounds(lo, c);
    if First(lo, c) < 0 {
      BorderOrder(First(lo, c) + 1, 0, c);
    }
  }

  lemma LastWithin(hi: real, c: real, n: int)
    requires c > 0.0 && hi <= Border(n, c)
    ensures Last(hi, c) <= n
  {
    hide Last;
    hide Border;
    LastBounds(hi, c);
    if Last(hi, c) > n {
      BorderOrder(n, Last(hi, c) - 1, c);
    }
  }

  /** Units inside the chip pass all checks. */
  lemma FittingUnitPasses(m: Grid, r: Rect)
    requires ValidGrid(m) && Fits(m, r) && CellWidth(m) > 0.0 && CellHeight(m) > 0.0
    ensures RangeOk(m, RangeOf(m, r))
  {
    hide First;
    hide Last;
    hide Border;
    hide CellWidth;
    hide CellHeight;
    CellSizes(m);
    FirstNonNegative(r.leftx, CellWidth(m));
    FirstNonNegative(r.bottomy, CellHeight(m));
    LastWithin(r.leftx + r.width, CellWidth(m), m.cols);
    LastWithin(r.bottomy + r.height, CellHeight(m), m.rows);
    ReachesCell(r.leftx, r.leftx + r.width, CellWidth(m));
    ReachesCell(r.bottomy, r.bottomy + r.height, CellHeight(m));
  }

  /** A unit is the sum of its parts in the cells. */
  lemma UnitArea(m: Grid, r: Rect)
    requires ValidGrid(m) && r.width >= 0.0 && r.height >= 0.0 && CellWidth(m) > 0.0 && CellHeight(m) > 0.0
    requires RangeOk(m, RangeOf(m, r))
    ensures Sum(0, m.rows, i => Sum(0, m.cols, j => Shared(m, r, i, j))) == r.width * r.height
  {
    hide First;
    hide Last;
    hide Overlap;
    hide CellWidth;
    hide CellHeight;
    hide Sum;
    var g := RangeOf(m, r);
    var w, h := CellWidth(m), CellHeight(m);
    var across := j => Overlap(r.leftx, r.leftx + r.width, w, j);
    var up := k => Overlap(r.bottomy, r.bottomy + r.height, h, k);
    var row := i => Sum(0, m.cols, j => Shared(m, r, i, j));
    var rows := i => r.width * up(m.rows - 1 - i);
    AxisSum(r.leftx, r.leftx + r.width, w);
    AxisSum(r.bottomy, r.bottomy + r.height, h);
    forall i | 0 <= i < m.rows ensures row(i) == if g.i1 <= i < g.i2 then rows(i) else 0.0 {
      RowArea(m, r, i, across);
    }
    SumSplit(0, g.i1, m.rows, row);
    SumSplit(g.i1, g.i2, m.rows, row);
    SumZero(0, g.i1, row);
    SumZero(g.i2, m.rows, row);
    SumEqual(g.i1, g.i2, row, rows);
    var flipped := i => up(m.rows - 1 - i);
    SumScale(g.i1, g.i2, r.width, flipped);
    SumEqual(g.i1, g.i2, rows, i => r.width * flipped(i));
    SumReversed(g.i1, g.i2, m.rows, up);
    SumEqual(g.i1, g.i2, flipped, i => up(m.rows - 1 - i));
  }

  /** The area of unit r inside row i. */
  function RowShare(m: Grid, r: Rect, i: int): real
    requires ValidGrid(m) && CellWidth(m) > 0.0 && CellHeight(m) > 0.0
  {
    if RangeOf(m, r).i1 <= i < RangeOf(m, r).i2
    then r.width * Overlap(r.bottomy, r.bottomy + r.height, CellHeight(m), m.rows - 1 - i) else 0.0
  }

  lemma RowArea(m: Grid, r: Rect, i: int, across: int -> real)
    requires ValidGrid(m) && CellWidth(m) > 0.0 && CellHeight(m) > 0.0 && RangeOk(m, RangeOf(m, r))
    requires forall j :: across(j) == Overlap(r.leftx, r.leftx + r.width, CellWidth(m), j)
    requires Sum(RangeOf(m, r).j1, RangeOf(m, r).j2, across) == r.width
    ensures Sum(0, m.cols, j => Shared(m, r, i, j)) == RowShare(m, r, i)
  {
    hide First;
    hide Last;
    hide Overlap;
    hide CellWidth;
    hide CellHeight;
    hide Sum;
    var g := RangeOf(m, r);
    var f := j => Shared(m, r, i, j);
    var oh := Overlap(r.bottomy, r.bottomy + r.height, CellHeight(m), m.rows - 1 - i);
    if g.i1 <= i < g.i2 {
      SumSplit(0, g.j1, m.cols, f);
      SumSplit(g.j1, g.j2, m.cols, f);
      SumZero(0, g.j1, f);
      SumZero(g.j2, m.cols, f);
      SumScale(g.j1, g.j2, oh, across);
      SumEqual(g.j1, g.j2, f, j => oh * across(j));
    } else {
      SumZero(0, m.cols, f);
    }
  }

  // ---------------------------------------------------------------- lists and averages

  /** blist_t: a unit and the part of the cell it takes. */
  datatype Occ = Occ(unit: int, occupancy: real)

  /** The list of one cell: the units that reach it, in their order. */
  function CellList(m: Grid, us: seq<Rect>, i: int, j: int): seq<Occ>
    requires Ready(m)
  {
    if us == [] then []
    else
      var k := |us| - 1;
      CellList(m, us[..k], i, j) + (if InRange(RangeOf(m, us[k]), i, j) then [Occ(k, Occupancy(m, us[k], i, j))] else [])
  }

  /** blist_avg for power: densities weighted by occupancy. */
  function PowerDensity(l: seq<Occ>, us: seq<Rect>, v: Vector): real {
    if l == [] then 0.0
    else
      var o := l[|l| - 1];
      PowerDensity(l[..|l| - 1], us, v) + DensityOf(us, v, o.unit, o.occupancy)
  }

  function DensityOf(us: seq<Rect>, v: Vector, u: int, occupancy: real): real {
    if 0 <= u < |us| && us[u].width * us[u].height != 0.0 then occupancy * Elem(v, u) / (us[u].width * us[u].height) else 0.0
  }

  /** The power xlate_vector_b2g gives to a cell. */
  function CellPower(m: Grid, us: seq<Rect>, v: Vector, i: int, j: int): real
    requires Ready(m)
  {
    PowerDensity(CellList(m, us, i, j), us, v) * CellArea(m)
  }

  /** What unit u contributes to the power of a cell. */
  function Contribution(m: Grid, us: seq<Rect>, v: Vector, u: int, i: int, j: int): real
    requires Ready(m)
  {
    if 0 <= u < |us| && us[u].width * us[u].height != 0.0
    then Elem(v, u) / (us[u].width * us[u].height) * Shared(m, us[u], i, j) else 0.0
  }

  lemma {:induction false} PrefixDensity(m: Grid, us: seq<Rect>, n: nat, v: Vector, i: int, j: int)
    requires Ready(m) && n <= |us|
    ensures PowerDensity(CellList(m, us[..n], i, j), us, v) * CellArea(m)
         == Sum(0, n, u => Contribution(m, us, v, u, i, j))
    decreases n
  {
    hide Shared;
    hide CellArea;
    hide Sum;
    hide CellList;
    hide PowerDensity;
    hide Contribution;
    hide DensityOf;
    hide Occupancy;
    hide RangeOf;
    var f := u => Contribution(m, us, v, u, i, j);
    if n == 0 {
      SumEmpty(0, 0, f);
      EmptyDensity(m, us, v, i, j);
    } else {
      var k := n - 1;
      PrefixDensity(m, us, k, v, i, j);
      SumLast(0, n, f);
      var before := CellList(m, us[..k], i, j);
      ListUnfold(m, us, n, i, j);
      if InRange(RangeOf(m, us[k]), i, j) {
        var o := Occ(k, Occupancy(m, us[k], i, j));
        DensityAppend(before, o, us, v);
        OccupiedPower(m, us, v, k, i, j);
        Distribute(PowerDensity(before, us, v), DensityOf(us, v, k, o.occupancy), CellArea(m));
      } else {
        NoContribution(m, us, v, k, i, j);
        assert before + [] == before;
      }
    }
  }

  lemma EmptyDensity(m: Grid, us: seq<Rect>, v: Vector, i: int, j: int)
    requires Ready(m)
    ensures PowerDensity(CellList(m, us[..0], i, j), us, v) * CellArea(m) == 0.0
  {
  }

  lemma ListUnfold(m: Grid, us: seq<Rect>, n: nat, i: int, j: int)
    requires Ready(m) && 0 < n <= |us|
    ensures CellList(m, us[..n], i, j) == CellList(m, us[..n - 1], i, j)
              + (if InRange(RangeOf(m, us[n - 1]), i, j) then [Occ(n - 1, Occupancy(m, us[n - 1], i, j))] else [])
  {
    assert us[..n][..n - 1] == us[..n - 1];
  }

  lemma DensityAppend(l: seq<Occ>, o: Occ, us: seq<Rect>, v: Vector)
    ensures PowerDensity(l + [o], us, v) == PowerDensity(l, us, v) + DensityOf(us, v, o.unit, o.occupancy)
  {
    assert (l + [o])[..|l|] == l;
  }

  lemma NoContribution(m: Grid, us: seq<Rect>, v: Vector, k: int, i: int, j: int)
    requires Ready(m) && 0 <= k < |us| && !InRange(RangeOf(m, us[k]), i, j)
    ensures Contribution(m, us, v, k, i, j) == 0.0
  {
    NotShared(m, us[k], i, j);
  }

  lemma NotShared(m: Grid, r: Rect, i: int, j: int)
    requires Ready(m) && !InRange(RangeOf(m, r), i, j)
    ensures Shared(m, r, i, j) == 0.0
  {
  }

  lemma OccupiedPower(m: Grid, us: seq<Rect>, v: Vector, k: int, i: int, j: int)
    requires Ready(m) && 0 <= k < |us|
    ensures DensityOf(us, v, k, Occupancy(m, us[k], i, j)) * CellArea(m) == Contribution(m, us, v, k, i, j)
  {
    hide Shared;
    hide CellArea;
    if us[k].width * us[k].height != 0.0 {
    }
  }

  /** blist_avg for temperature: values weighted by occupancies. */
  function Average(l: seq<Occ>, v: Vector): real {
    if l == [] then 0.0
    else Average(l[..|l| - 1], v) + l[|l| - 1].occupancy * Elem(v, l[|l| - 1].unit)
  }

  lemma AverageAppend(l: seq<Occ>, o: Occ, v: Vector)
    ensures Average(l + [o], v) == Average(l, v) + o.occupancy * Elem(v, o.unit)
  {
    assert (l + [o])[..|l|] == l;
  }

  /** xlate_vector_b2g translates powers and temperatures. */
  datatype VectorType = Power | Temperature

  function CellValue(m: Grid, us: seq<Rect>, v: Vector, i: int, j: int, kind: VectorType): real
    requires Ready(m)
  {
    if kind.Power? then CellPower(m, us, v, i, j) else Average(CellList(m, us, i, j), v)
  }

  // ---------------------------------------------------------------- conservation

  /** Adding up the contributions of one unit over all cells gives its power back. */
  lemma UnitPower(m: Grid, us: seq<Rect>, v: Vector, u: int)
    requires Ready(m) && 0 <= u < |us| && us[u].width > 0.0 && us[u].height > 0.0 && RangeOk(m, RangeOf(m, us[u]))
    ensures Sum(0, m.rows, i => Sum(0, m.cols, j => Contribution(m, us, v, u, i, j))) == Elem(v, u)
  {
    hide Sum;
    hide Shared;
    hide RangeOf;
    var r := us[u];
    var area := r.width * r.height;
    PositiveProduct(r.width, r.height);
    var d := Elem(v, u) / area;
    UnitArea(m, r);
    var row := i => Sum(0, m.cols, j => Shared(m, r, i, j));
    var powers := i => Sum(0, m.cols, j => Contribution(m, us, v, u, i, j));
    forall i | 0 <= i < m.rows ensures powers(i) == d * row(i) {
      var f := j => Shared(m, r, i, j);
      SumScale(0, m.cols, d, f);
      SumEqual(0, m.cols, j => Contribution(m, us, v, u, i, j), j => d * f(j));
    }
    SumEqual(0, m.rows, powers, i => d * row(i));
    SumScale(0, m.rows, d, row);
    SumEqual(0, m.rows, row, i => Sum(0, m.cols, j => Shared(m, r, i, j)));
    Quotient(Elem(v, u), area);
  }

  /** The translation conserves power: the cells of a layer receive exactly what its units dissipate. */
  lemma PowerIsConserved(m: Grid, us: seq<Rect>, v: Vector)
    requires Ready(m)
    requires forall u :: 0 <= u < |us| ==> us[u].width > 0.0 && us[u].height > 0.0 && RangeOk(m, RangeOf(m, us[u]))
    ensures Sum(0, m.rows, i => Sum(0, m.cols, j => CellPower(m, us, v, i, j))) == Sum(0, |us|, u => Elem(v, u))
  {
    hide Sum;
    hide Contribution;
    hide RangeOf;
    hide PowerDensity;
    hide CellList;
    hide Elem;
    hide Ready;
    var n := |us|;
    var cells := i => Sum(0, m.cols, j => CellPower(m, us, v, i, j));
    var byUnit := i => Sum(0, n, u => Sum(0, m.cols, j => Contribution(m, us, v, u, i, j)));
    forall i | 0 <= i < m.rows ensures cells(i) == byUnit(i) {
      CellsOfRow(m, us, v, i);
    }
    SumEqual(0, m.rows, cells, byUnit);
    var f := (i: int, u: int) => Sum(0, m.cols, j => Contribution(m, us, v, u, i, j));
    SumSwap(0, m.rows, 0, n, f);
    SumEqual(0, m.rows, byUnit, i => Sum(0, n, u => f(i, u))) by {
      forall i | 0 <= i < m.rows ensures byUnit(i) == Sum(0, n, u => f(i, u)) {
        SumEqual(0, n, u => Sum(0, m.cols, j => Contribution(m, us, v, u, i, j)), u => f(i, u));
      }
    }
    var totals := u => Sum(0, m.rows, i => f(i, u));
    forall u | 0 <= u < n ensures totals(u) == Elem(v, u) {
      UnitPower(m, us, v, u);
      SumEqual(0, m.rows, i => f(i, u), i => Sum(0, m.cols, j => Contribution(m, us, v, u, i, j)));
    }
    SumEqual(0, n, totals, u => Elem(v, u));
  }

  lemma CellsOfRow(m: Grid, us: seq<Rect>, v: Vector, i: int)
    requires Ready(m)
    ensures Sum(0, m.cols, j => CellPower(m, us, v, i, j))
         == Sum(0, |us|, u => Sum(0, m.cols, j => Contribution(m, us, v, u, i, j)))
  {
    hide Sum;
    hide Contribution;
    hide PowerDensity;
    hide CellList;
    var n := |us|;
    var f := (j: int, u: int) => Contribution(m, us, v, u, i, j);
    var cells, sums := j => CellPower(m, us, v, i, j), j => Sum(0, n, u => f(j, u));
    forall j | 0 <= j < m.cols ensures cells(j) == sums(j) {
      assert us[..n] == us;
      PrefixDensity(m, us, n, v, i, j);
      SumEqual(0, n, u => Contribution(m, us, v, u, i, j), u => f(j, u));
    }
    SumEqual(0, m.cols, cells, sums);
    SumSwap(0, m.cols, 0, n, f);
    var byUnit, swapped := u => Sum(0, m.cols, j => Contribution(m, us, v, u, i, j)), u => Sum(0, m.cols, j => f(j, u));
    forall u | 0 <= u < n ensures byUnit(u) == swapped(u) {
      SumEqual(0, m.cols, j => Contribution(m, us, v, u, i, j), j => f(j, u));
    }
    SumEqual(0, n, byUnit, swapped);
  }

  // ---------------------------------------------------------------- cells are filled exactly

  /** The area of a rectangle inside a cell, wherever the rectangle lies. */
  function CellPart(m: Grid, r: Rect, i: int, j: int): real
    requires ValidGrid(m)
  {
    var k := m.rows - 1 - i;
    TilingMeasure.Inside(r, Border(j, CellWidth(m)), Border(j + 1, CellWidth(m)),
                         Border(k, CellHeight(m)), Border(k + 1, CellHeight(m)))
  }

  function CellParts(m: Grid, rs: seq<Rect>, i: int, j: int): real
    requires ValidGrid(m)
  {
    var k := m.rows - 1 - i;
    TilingMeasure.TotalInside(rs, Border(j, CellWidth(m)), Border(j + 1, CellWidth(m)),
                              Border(k, CellHeight(m)), Border(k + 1, CellHeight(m)))
  }

  lemma CellPartsPush(m: Grid, rs: seq<Rect>, r: Rect, i: int, j: int)
    requires ValidGrid(m)
    ensures CellParts(m, rs + [r], i, j) == CellParts(m, rs, i, j) + CellPart(m, r, i, j)
    ensures CellParts(m, [], i, j) == 0.0
  {
    hide Border;
    hide CellWidth;
    hide CellHeight;
    hide TilingMeasure.Inside;
    hide TilingMeasure.TotalInside;
    var k := m.rows - 1 - i;
    var a, b := Border(j, CellWidth(m)), Border(j + 1, CellWidth(m));
    var c, d := Border(k, CellHeight(m)), Border(k + 1, CellHeight(m));
    TilingMeasure.InsideConcat(rs, [r], a, b, c, d);
    TilingMeasure.InsideOne(r, a, b, c, d);
  }

  /** Outside the index range there is no overlap. */
  lemma ClipIsOverlap(lo: real, hi: real, c: real, k: int)
    requires c > 0.0 && lo <= hi
    ensures TilingMeasure.Clip(lo, hi, Border(k, c), Border(k + 1, c))
         == if First(lo, c) <= k < Last(hi, c) then Overlap(lo, hi, c, k) else 0.0
  {
    hide Border;
    hide First;
    hide Last;
    FirstBounds(lo, c);
    LastBounds(hi, c);
    if First(lo, c) <= k < Last(hi, c) {
      OverlapSign(lo, hi, c, k);
    } else if k < First(lo, c) {
      BorderOrder(k + 1, First(lo, c), c);
    } else {
      BorderOrder(Last(hi, c), k, c);
    }
  }

  lemma SharedIsPart(m: Grid, r: Rect, i: int, j: int)
    requires Ready(m) && r.width >= 0.0 && r.height >= 0.0
    ensures Shared(m, r, i, j) == CellPart(m, r, i, j)
  {
    hide TilingMeasure.Clip;
    hide Overlap;
    hide Border;
    hide First;
    hide Last;
    hide CellWidth;
    hide CellHeight;
    ClipIsOverlap(r.leftx, r.leftx + r.width, CellWidth(m), j);
    ClipIsOverlap(r.bottomy, r.bottomy + r.height, CellHeight(m), m.rows - 1 - i);
  }

  /** Cell (i, j) of the chip: columns run from the left, rows from the top. */
  function CellRect(m: Grid, i: int, j: int): Rect
    requires ValidGrid(m)
  {
    var cw, ch := m.width / m.cols as real, m.height / m.rows as real;
    Rect(j as real * cw, m.height - (i + 1) as real * ch, cw, ch)
  }

  /** The area that two rectangles have in common. */
  function CommonArea(r: Rect, s: Rect): real {
    Max(0.0, Min(r.leftx + r.width, s.leftx + s.width) - Max(r.leftx, s.leftx))
    * Max(0.0, Min(r.bottomy + r.height, s.bottomy + s.height) - Max(r.bottomy, s.bottomy))
  }

  lemma CellBorders(m: Grid, i: int, j: int)
    requires ValidGrid(m)
    ensures var s, k := CellRect(m, i, j), m.rows - 1 - i;
            && s.leftx == Border(j, CellWidth(m)) && s.leftx + s.width == Border(j + 1, CellWidth(m))
            && s.bottomy == Border(k, CellHeight(m)) && s.bottomy + s.height == Border(k + 1, CellHeight(m))
  {
    CellSizes(m);
  }

  /** What is stored for a unit and a cell is the area they have in common, whatever the index ranges say. */
  lemma SharedIsCommonArea(m: Grid, r: Rect, i: int, j: int)
    requires Ready(m) && r.width >= 0.0 && r.height >= 0.0
    ensures Shared(m, r, i, j) == CommonArea(r, CellRect(m, i, j))
  {
    hide Shared;
    hide CellRect;
    hide Border;
    hide CellWidth;
    hide CellHeight;
    hide Min;
    hide Max;
    SharedIsPart(m, r, i, j);
    CellBorders(m, i, j);
  }

  /** The power of a cell: from each unit, its power density times the area it has in common with the cell. */
  lemma CellPowerIs(m: Grid, us: seq<Rect>, v: Vector, i: int, j: int)
    requires Ready(m) && AllPositive(us)
    ensures CellPower(m, us, v, i, j)
         == Sum(0, |us|, u => if 0 <= u < |us| && us[u].width * us[u].height != 0.0
                              then Elem(v, u) / (us[u].width * us[u].height) * CommonArea(us[u], CellRect(m, i, j)) else 0.0)
  {
    hide Sum;
    hide Shared;
    hide CommonArea;
    hide CellRect;
    hide CellList;
    hide PowerDensity;
    assert us[..|us|] == us;
    PrefixDensity(m, us, |us|, v, i, j);
    var f, g := u => Contribution(m, us, v, u, i, j),
      u => if 0 <= u < |us| && us[u].width * us[u].height != 0.0
           then Elem(v, u) / (us[u].width * us[u].height) * CommonArea(us[u], CellRect(m, i, j)) else 0.0;
    forall u | 0 <= u < |us| ensures f(u) == g(u) {
      SharedIsCommonArea(m, us[u], i, j);
    }
    SumEqual(0, |us|, f, g);
  }

  /** The temperature of a cell, times its area: from each unit, its temperature times the common area. */
  lemma CellTemperatureIs(m: Grid, us: seq<Rect>, v: Vector, i: int, j: int)
    requires Ready(m) && TilingMeasure.NonNegative(us)
    ensures CellValue(m, us, v, i, j, Temperature) * CellArea(m)
         == Sum(0, |us|, u => if 0 <= u < |us| then Elem(v, u) * CommonArea(us[u], CellRect(m, i, j)) else 0.0)
  {
    hide CellList;
    hide Average;
    hide Sum;
    hide CellArea;
    assert us[..|us|] == us;
    PrefixAverage(m, us, |us|, v, i, j);
  }

  lemma {:induction false} PrefixAverage(m: Grid, us: seq<Rect>, n: nat, v: Vector, i: int, j: int)
    requires Ready(m) && n <= |us| && TilingMeasure.NonNegative(us)
    ensures Average(CellList(m, us[..n], i, j), v) * CellArea(m)
         == Sum(0, n, u => if 0 <= u < |us| then Elem(v, u) * CommonArea(us[u], CellRect(m, i, j)) else 0.0)
    decreases n
  {
    hide Shared;
    hide CellArea;
    hide CellList;
    hide Average;
    hide Sum;
    hide Elem;
    hide CommonArea;
    hide CellRect;
    hide RangeOf;
    var f := u => if 0 <= u < |us| then Elem(v, u) * CommonArea(us[u], CellRect(m, i, j)) else 0.0;
    if n == 0 {
      SumEmpty(0, 0, f);
      NoAverage(m, us, v, i, j);
    } else {
      var k := n - 1;
      PrefixAverage(m, us, k, v, i, j);
      SumLast(0, n, f);
      var before := CellList(m, us[..k], i, j);
      ListUnfold(m, us, n, i, j);
      SharedIsCommonArea(m, us[k], i, j);
      if InRange(RangeOf(m, us[k]), i, j) {
        var o := Occ(k, Occupancy(m, us[k], i, j));
        AverageAppend(before, o, v);
        WeightTimesArea(Shared(m, us[k], i, j), CellArea(m), Elem(v, k));
        Distribute(Average(before, v), o.occupancy * Elem(v, k), CellArea(m));
      } else {
        NotShared(m, us[k], i, j);
        assert before + [] == before;
      }
    }
  }

  lemma NoAverage(m: Grid, us: seq<Rect>, v: Vector, i: int, j: int)
    requires Ready(m)
    ensures Average(CellList(m, us[..0], i, j), v) * CellArea(m) == 0.0
  {
  }

  lemma WeightTimesArea(s: real, a: real, e: real)
    requires a != 0.0
    ensures (s / a * e) * a == e * s
  {
    var q := s / a;
    Quotient(s, a);
    Associate(q, e, a);
    Associate(q, a, e);
  }

  function OccupancySum(l: seq<Occ>): real {
    if l == [] then 0.0 else OccupancySum(l[..|l| - 1]) + l[|l| - 1].occupancy
  }

  lemma OccupancyAppend(l: seq<Occ>, o: Occ)
    ensures OccupancySum(l + [o]) == OccupancySum(l) + o.occupancy
  {
    assert (l + [o])[..|l|] == l;
  }

  /** The occupancies of a cell, times its area, are the parts of all units in it. */
  lemma {:induction false} PrefixOccupancy(m: Grid, us: seq<Rect>, n: nat, i: int, j: int)
    requires Ready(m) && n <= |us| && TilingMeasure.NonNegative(us)
    ensures OccupancySum(CellList(m, us[..n], i, j)) * CellArea(m) == CellParts(m, us[..n], i, j)
    decreases n
  {
    hide Shared;
    hide CellArea;
    hide CellList;
    hide OccupancySum;
    hide CellParts;
    hide CellPart;
    hide RangeOf;
    if n == 0 {
      NoOccupancy(m, us, i, j);
    } else {
      var k := n - 1;
      PrefixOccupancy(m, us, k, i, j);
      var before := CellList(m, us[..k], i, j);
      ListUnfold(m, us, n, i, j);
      SharedIsPart(m, us[k], i, j);
      assert us[..n] == us[..k] + [us[k]];
      CellPartsPush(m, us[..k], us[k], i, j);
      if InRange(RangeOf(m, us[k]), i, j) {
        var o := Occ(k, Occupancy(m, us[k], i, j));
        OccupancyAppend(before, o);
        Quotient(Shared(m, us[k], i, j), CellArea(m));
        Distribute(OccupancySum(before), o.occupancy, CellArea(m));
      } else {
        NotShared(m, us[k], i, j);
        assert before + [] == before;
      }
    }
  }

  lemma NoOccupancy(m: Grid, us: seq<Rect>, i: int, j: int)
    requires Ready(m)
    ensures OccupancySum(CellList(m, us[..0], i, j)) * CellArea(m) == CellParts(m, us[..0], i, j)
  {
  }

  lemma WholeChip(m: Grid, i: int, j: int)
    requires Ready(m) && 0 <= i < m.rows && 0 <= j < m.cols
    ensures CellPart(m, Rect(0.0, 0.0, m.width, m.height), i, j) == CellArea(m)
  {
    hide CellWidth;
    hide CellHeight;
    hide Border;
    var k := m.rows - 1 - i;
    CellSizes(m);
    FromZero(CellWidth(m));
    FromZero(CellHeight(m));
    BorderOrder(0, j, CellWidth(m));
    BorderOrder(j + 1, m.cols, CellWidth(m));
    BorderOrder(0, k, CellHeight(m));
    BorderOrder(k + 1, m.rows, CellHeight(m));
    NextBorder(j, CellWidth(m));
    NextBorder(k, CellHeight(m));
    assert CellPart(m, Rect(0.0, 0.0, m.width, m.height), i, j) == CellWidth(m) * CellHeight(m);
  }

  lemma FromZero(c: real)
    ensures Border(0, c) == 0.0
  {
  }

  lemma TilesFillCell(m: Grid, us: seq<Rect>, box: Rect, i: int, j: int)
    requires Ready(m) && Tiling(us, box)
    ensures CellParts(m, us, i, j) == CellPart(m, box, i, j)
  {
    hide Tiling;
    hide CellWidth;
    hide CellHeight;
    hide Border;
    hide TilingMeasure.Inside;
    hide TilingMeasure.TotalInside;
    var k := m.rows - 1 - i;
    NextBorder(j, CellWidth(m));
    NextBorder(k, CellHeight(m));
    TilingMeasure.TilingFillsWindow(us, box, Border(j, CellWidth(m)), Border(j + 1, CellWidth(m)),
      Border(k, CellHeight(m)), Border(k + 1, CellHeight(m)));
  }

  /** In every cell of a chip that any floorplan tiles, slicing or not, the occupancies add up to one. */
  lemma CellsAreFull(m: Grid, us: seq<Rect>, i: int, j: int)
    requires Ready(m) && 0 <= i < m.rows && 0 <= j < m.cols
    requires Tiling(us, Rect(0.0, 0.0, m.width, m.height)) && TilingMeasure.NonNegative(us)
    ensures OccupancySum(CellList(m, us, i, j)) == 1.0
  {
    hide Tiling;
    hide CellList;
    hide OccupancySum;
    hide CellParts;
    hide CellPart;
    hide CellArea;
    TilesFillCell(m, us, Rect(0.0, 0.0, m.width, m.height), i, j);
    WholeChip(m, i, j);
    assert us[..|us|] == us;
    PrefixOccupancy(m, us, |us|, i, j);
    CancelArea(OccupancySum(CellList(m, us, i, j)), CellParts(m, us, i, j), CellArea(m));
  }

  lemma CancelArea(x: real, y: real, a: real)
    requires a > 0.0 && x * a == y && y == a
    ensures x == 1.0
  {
    assert (x - 1.0) * a == 0.0;
  }

  /** Units with area that tile the chip pass all checks of the mapping. */
  lemma TilesPass(m: Grid, us: seq<Rect>)
    requires Ready(m) && Tiling(us, Rect(0.0, 0.0, m.width, m.height)) && AllPositive(us)
    ensures forall u :: 0 <= u < |us| ==> Fits(m, us[u]) && RangeOk(m, RangeOf(m, us[u]))
  {
    hide Tiling;
    hide RangeOf;
    var box := Rect(0.0, 0.0, m.width, m.height);
    Rim.TilesInside(us, box);
    forall u | 0 <= u < |us| ensures Fits(m, us[u]) && RangeOk(m, RangeOf(m, us[u])) {
      assert Rim.Inside(us[u], box);
      FittingUnitPasses(m, us[u]);
    }
  }

  // ---------------------------------------------------------------- what is listed

  /** A unit is listed in every cell of its range, with an occupancy that is not negative. */
  lemma {:induction false} Listed(m: Grid, us: seq<Rect>, n: nat, i: int, j: int)
    requires Ready(m) && n <= |us| && TilingMeasure.NonNegative(us)
    ensures var l := CellList(m, us[..n], i, j);
            && (forall k :: 0 <= k < |l| ==> 0 <= l[k].unit < n && l[k].occupancy >= 0.0)
            && (forall u :: 0 <= u < n && InRange(RangeOf(m, us[u]), i, j) ==> exists k :: 0 <= k < |l| && l[k].unit == u)
  {
    hide CellList;
    hide RangeOf;
    hide Occupancy;
    if n == 0 {
      NothingListed(m, us, i, j);
    } else {
      Listed(m, us, n - 1, i, j);
      ListUnfold(m, us, n, i, j);
      OccupancySign(m, us[n - 1], i, j);
      var before, l := CellList(m, us[..n - 1], i, j), CellList(m, us[..n], i, j);
      assert forall k :: 0 <= k < |before| ==> l[k] == before[k];
      assert InRange(RangeOf(m, us[n - 1]), i, j) ==> l[|before|].unit == n - 1;
    }
  }

  lemma NothingListed(m: Grid, us: seq<Rect>, i: int, j: int)
    requires Ready(m)
    ensures CellList(m, us[..0], i, j) == []
  {
  }

  lemma OccupancySign(m: Grid, r: Rect, i: int, j: int)
    requires Ready(m) && r.width >= 0.0 && r.height >= 0.0
    ensures Occupancy(m, r, i, j) >= 0.0
  {
    hide CellArea;
    hide Shared;
    SharedIsPart(m, r, i, j);
  }

  ghost predicate AllPass(m: Grid, us: seq<Rect>)
    requires Ready(m)
  {
    forall u :: 0 <= u < |us| ==> RangeOk(m, RangeOf(m, us[u]))
  }

  /** The averages of a power vector divide by a zero area in no cell exactly when no unit is without area:
      a unit without area that passes the range checks is listed like any other. */
  lemma DensitiesDefinedIff(m: Grid, us: seq<Rect>)
    requires Ready(m) && TilingMeasure.NonNegative(us) && AllPass(m, us)
    ensures AllPositive(us) <==>
      forall i, j, k :: 0 <= i < m.rows && 0 <= j < m.cols && 0 <= k < |CellList(m, us, i, j)| ==>
        var u := CellList(m, us, i, j)[k].unit;
        0 <= u < |us| && us[u].width * us[u].height != 0.0
  {
    hide CellList;
    hide RangeOf;
    assert us[..|us|] == us;
    if AllPositive(us) {
      forall i, j, k | 0 <= i < m.rows && 0 <= j < m.cols && 0 <= k < |CellList(m, us, i, j)|
        ensures var u := CellList(m, us, i, j)[k].unit; 0 <= u < |us| && us[u].width * us[u].height != 0.0
      {
        Listed(m, us, |us|, i, j);
        var l := CellList(m, us, i, j);
        assert l == CellList(m, us[..|us|], i, j);
        var u := l[k].unit;
        assert 0 <= u < |us|;
        PositiveProduct(us[u].width, us[u].height);
      }
    } else {
      var u :| 0 <= u < |us| && !(us[u].width > 0.0 && us[u].height > 0.0);
      var g := RangeOf(m, us[u]);
      Listed(m, us, |us|, g.i1, g.j1);
      var l := CellList(m, us, g.i1, g.j1);
      assert InRange(g, g.i1, g.j1);
      var k :| 0 <= k < |l| && l[k].unit == u;
      assert us[u].width == 0.0 || us[u].height == 0.0;
      assert us[l[k].unit].width * us[l[k].unit].height == 0.0;
    }
  }

  /** An average with weights that add up to one lies between the values. */
  lemma {:induction false} AverageBounds(l: seq<Occ>, v: Vector, lo: real, hi: real)
    requires forall k :: 0 <= k < |l| ==> l[k].occupancy >= 0.0 && lo <= Elem(v, l[k].unit) <= hi
    ensures lo * OccupancySum(l) <= Average(l, v) <= hi * OccupancySum(l)
  {
    hide Elem;
    hide OccupancySum;
    hide Average;
    if l == [] {
      NoWeights(v, lo, hi);
    } else {
      var init, o := l[..|l| - 1], l[|l| - 1];
      AverageBounds(init, v, lo, hi);
      assert l == init + [o];
      OccupancyAppend(init, o);
      AverageAppend(init, o, v);
      WeightedStep(OccupancySum(init), Average(init, v), o.occupancy, Elem(v, o.unit), lo, hi);
    }
  }

  lemma NoWeights(v: Vector, lo: real, hi: real)
    ensures lo * OccupancySum([]) == Average([], v) == hi * OccupancySum([])
  {
  }

  lemma WeightedStep(s: real, a: real, w: real, e: real, lo: real, hi: real)
    requires lo * s <= a <= hi * s && w >= 0.0 && lo <= e <= hi
    ensures lo * (s + w) <= a + w * e <= hi * (s + w)
  {
    Distribute(s, w, lo);
    Distribute(s, w, hi);
    Scale(w, lo, e);
    Scale(w, e, hi);
  }

  lemma Scale(w: real, x: real, y: real)
    requires w >= 0.0 && x <= y
    ensures x * w <= w * y
  {
    assert (y - x) * w >= 0.0;
  }

  /** On a tiled chip no cell is colder than the coldest unit or hotter than the hottest. */
  lemma CellTemperatureBounds(m: Grid, us: seq<Rect>, v: Vector, i: int, j: int, lo: real, hi: real)
    requires Ready(m) && 0 <= i < m.rows && 0 <= j < m.cols
    requires Tiling(us, Rect(0.0, 0.0, m.width, m.height)) && TilingMeasure.NonNegative(us)
    requires forall u :: 0 <= u < |us| ==> lo <= Elem(v, u) <= hi
    ensures lo <= CellValue(m, us, v, i, j, Temperature) <= hi
  {
    hide Tiling;
    hide CellList;
    hide OccupancySum;
    hide Average;
    hide Elem;
    var l := CellList(m, us, i, j);
    CellsAreFull(m, us, i, j);
    assert us[..|us|] == us;
    Listed(m, us, |us|, i, j);
    AverageBounds(l, v, lo, hi);
  }
}
