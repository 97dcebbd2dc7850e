/** set_bgmap, blist_avg and xlate_vector_b2g on the structures they fill (temperature_grid.c). */
module GridState {
  import opened RealArithmetic
  import opened RealMatrix
  import opened Sizing
  import opened GridMapping
  import opened TilingMeasure

  // ---------------------------------------------------------------- set_bgmap

  /** Is the cell before (i, j) in row order within the unit's range? */
  predicate Done(g: Range, i: int, j: int, h: int, q: int) {
    InRange(g, h, q) && (h < i || (h == i && q < j))
  }

  /** The lists while unit u is being entered. */
  ghost predicate ListsSoFar(m: Grid, us: seq<Rect>, u: int, i: int, j: int, b2g: array2<seq<Occ>>)
    requires Ready(m) && 0 <= u < |us| && b2g.Length0 == m.rows && b2g.Length1 == m.cols
    reads b2g
  {
    forall h, q :: 0 <= h < m.rows && 0 <= q < m.cols ==>
      b2g[h, q] == CellList(m, us[..u], h, q)
        + (if Done(RangeOf(m, us[u]), i, j, h, q) then [Occ(u, Occupancy(m, us[u], h, q))] else [])
  }

  lemma RowsOfUnit(m: Grid, r: Rect, i: int)
    requires ValidGrid(m)
    ensures Border(m.rows - i, CellHeight(m)) == m.height - i as real * CellHeight(m)
  {
    CellSizes(m);
  }

  /** The overlap of a unit with a cell in both directions. */
  method MeasureOverlap(m: Grid, r: Rect, i: int, j: int, cw: real, ch: real) returns (oh: real, ow: real)
    requires ValidGrid(m) && cw == CellWidth(m) && ch == CellHeight(m)
    ensures oh == Overlap(r.bottomy, r.bottomy + r.height, ch, m.rows - 1 - i)
    ensures ow == Overlap(r.leftx, r.leftx + r.width, cw, j)
  {
    hide Border;
    hide Overlap;
    hide CellWidth;
    hide CellHeight;
    RowsOfUnit(m, r, i);
    RowsOfUnit(m, r, i + 1);
    OverlapAt(r.leftx, r.leftx + r.width, cw, j);
    OverlapAt(r.bottomy, r.bottomy + r.height, ch, m.rows - 1 - i);
    var lc, rc := j as real * cw, (j + 1) as real * cw;
    var tc, bc := m.height - i as real * ch, m.height - (i + 1) as real * ch;
    oh := Min(r.bottomy + r.height, tc) - Max(r.bottomy, bc);
    ow := Min(r.leftx + r.width, rc) - Max(r.leftx, lc);
  }

  /** The two branches of set_bgmap for one cell: complete cover inside the range, measured overlap on its border. */
  method MeasureCell(m: Grid, r: Rect, g: Range, i: int, j: int) returns (occupancy: real)
    requires Ready(m) && r.width >= 0.0 && r.height >= 0.0 && g == RangeOf(m, r) && InRange(g, i, j)
    ensures occupancy == Occupancy(m, r, i, j)
  {
    hide Occupancy;
    hide RangeOf;
    hide Overlap;
    hide CellWidth;
    hide CellHeight;
    var cw, ch := CellWidth(m), CellHeight(m);
    if g.i1 < i < g.i2 - 1 && g.j1 < j < g.j2 - 1 {
      occupancy := 1.0;
      InnerCell(m, r, i, j);
    } else {
      var oh, ow := MeasureOverlap(m, r, i, j, cw, ch);
      BorderCell(m, r, i, j);
      occupancy := (oh * ow) / (ch * cw);
    }
  }

  lemma InnerCell(m: Grid, r: Rect, i: int, j: int)
    requires Ready(m) && r.width >= 0.0 && r.height >= 0.0
    requires var g := RangeOf(m, r); g.i1 < i < g.i2 - 1 && g.j1 < j < g.j2 - 1
    ensures Occupancy(m, r, i, j) == 1.0
  {
    hide First;
    hide Last;
    hide CellWidth;
    hide CellHeight;
    hide Overlap;
    OverlapSign(r.leftx, r.leftx + r.width, CellWidth(m), j);
    OverlapSign(r.bottomy, r.bottomy + r.height, CellHeight(m), m.rows - 1 - i);
    SelfQuotient(CellArea(m));
  }

  /** The general formula; the measured overlaps are never negative, so the abort for them cannot happen. */
  lemma BorderCell(m: Grid, r: Rect, i: int, j: int)
    requires Ready(m) && r.width >= 0.0 && r.height >= 0.0 && InRange(RangeOf(m, r), i, j)
    ensures var oh := Overlap(r.bottomy, r.bottomy + r.height, CellHeight(m), m.rows - 1 - i);
            var ow := Overlap(r.leftx, r.leftx + r.width, CellWidth(m), j);
            oh >= 0.0 && ow >= 0.0 && Occupancy(m, r, i, j) == (oh * ow) / (CellHeight(m) * CellWidth(m))
  {
    hide First;
    hide Last;
    hide CellWidth;
    hide CellHeight;
    hide Overlap;
    OverlapSign(r.leftx, r.leftx + r.width, CellWidth(m), j);
    OverlapSign(r.bottomy, r.bottomy + r.height, CellHeight(m), m.rows - 1 - i);
  }

  lemma OverlapAt(lo: real, hi: real, c: real, k: int)
    ensures Overlap(lo, hi, c, k) == Min(hi, Border(k + 1, c)) - Max(lo, Border(k, c))
    ensures Border(k, c) == k as real * c && Border(k + 1, c) == (k + 1) as real * c
  {
  }

  lemma SelfQuotient(x: real)
    requires x != 0.0
    ensures x / x == 1.0
  {
  }

  /** Entering one unit into the lists of its cells. */
  method EnterUnit(m: Grid, us: seq<Rect>, u: int, g: Range, b2g: array2<seq<Occ>>)
    requires Ready(m) && 0 <= u < |us| && b2g.Length0 == m.rows && b2g.Length1 == m.cols
    requires us[u].width >= 0.0 && us[u].height >= 0.0 && g == RangeOf(m, us[u]) && RangeOk(m, g)
    requires forall h, q :: 0 <= h < m.rows && 0 <= q < m.cols ==> b2g[h, q] == CellList(m, us[..u], h, q)
    modifies b2g
    ensures forall h, q :: 0 <= h < m.rows && 0 <= q < m.cols ==> b2g[h, q] == CellList(m, us[..u + 1], h, q)
  {
    hide CellList;
    hide RangeOf;
    hide Ready;
    hide Occupancy;
    for i := g.i1 to g.i2
      invariant ListsSoFar(m, us, u, i, 0, b2g)
    {
      for j := g.j1 to g.j2
        invariant ListsSoFar(m, us, u, i, j, b2g)
      {
        var occupancy := MeasureCell(m, us[u], g, i, j);
        b2g[i, j] := b2g[i, j] + [Occ(u, occupancy)];
      }
    }
    forall h, q | 0 <= h < m.rows && 0 <= q < m.cols ensures b2g[h, q] == CellList(m, us[..u + 1], h, q) {
      ListUnfold(m, us, u + 1, h, q);
    }
  }

  /** set_bgmap: aborts exactly when some unit's index range is not usable, otherwise every cell lists the units
      that reach it with their occupancies. */
  method SetBgmap(m: Grid, us: seq<Rect>, b2g: array2<seq<Occ>>, g2b: array<Range>) returns (ok: bool)
    requires ValidGrid(m) && b2g.Length0 == m.rows && b2g.Length1 == m.cols && g2b.Length == |us|
    requires NonNegative(us)
    modifies b2g, g2b
    ensures Ready(m)
    ensures ok <==> AllPass(m, us)
    ensures ok ==> forall u :: 0 <= u < |us| ==> g2b[u] == RangeOf(m, us[u])
    ensures ok ==> forall i, j :: 0 <= i < m.rows && 0 <= j < m.cols ==> b2g[i, j] == CellList(m, us, i, j)
  {
    hide CellList;
    hide RangeOf;
    hide RangeOk;
    hide CellWidth;
    hide CellHeight;
    GridIsReady(m);
    ResetMap(b2g);
    forall i, j | 0 <= i < m.rows && 0 <= j < m.cols ensures b2g[i, j] == CellList(m, us[..0], i, j) {
      EmptyList(m, us, i, j);
    }
    for u := 0 to |us|
      invariant forall k :: 0 <= k < u ==> RangeOk(m, RangeOf(m, us[k])) && g2b[k] == RangeOf(m, us[k])
      invariant forall i, j :: 0 <= i < m.rows && 0 <= j < m.cols ==> b2g[i, j] == CellList(m, us[..u], i, j)
    {
      var g := RangeOfUnit(m, us[u]);
      if !RangeOk(m, g) {
        return false;
      }
      g2b[u] := g;
      EnterUnit(m, us, u, g, b2g);
    }
    assert us[..|us|] == us;
    return true;
  }

  method RangeOfUnit(m: Grid, r: Rect) returns (g: Range)
    requires Ready(m)
    ensures g == RangeOf(m, r)
  {
    var cw, ch := m.width / m.cols as real, m.height / m.rows as real;
    var lu, bu := r.leftx, r.bottomy;
    var ru, tu := lu + r.width, bu + r.height;
    g := Range(m.rows - Ceil(tu / ch), m.rows - (bu / ch).Floor, (lu / cw).Floor, Ceil(ru / cw));
  }

  method ResetMap(b2g: array2<seq<Occ>>)
    modifies b2g
    ensures forall i, j :: 0 <= i < b2g.Length0 && 0 <= j < b2g.Length1 ==> b2g[i, j] == []
  {
    for i := 0 to b2g.Length0
      invariant forall h, q :: 0 <= h < i && 0 <= q < b2g.Length1 ==> b2g[h, q] == []
    {
      for j := 0 to b2g.Length1
        invariant forall h, q :: 0 <= h < i && 0 <= q < b2g.Length1 ==> b2g[h, q] == []
        invariant forall q :: 0 <= q < j ==> b2g[i, q] == []
      {
        b2g[i, j] := [];
      }
    }
  }

  lemma EmptyList(m: Grid, us: seq<Rect>, i: int, j: int)
    requires Ready(m)
    ensures CellList(m, us[..0], i, j) == []
  {
  }

  // ---------------------------------------------------------------- xlate_vector_b2g

  /** The areas blist_avg divides powers by. */
  ghost predicate NoZeroAreas(l: seq<Occ>, us: seq<Rect>) {
    forall k :: 0 <= k < |l| ==> 0 <= l[k].unit < |us| && us[l[k].unit].width * us[l[k].unit].height != 0.0
  }

  /** blist_avg. Powers are divided by the areas of the listed units, which must not vanish. */
  method BlistAvg(l: seq<Occ>, us: seq<Rect>, v: Vector, kind: VectorType) returns (val: real)
    requires |v| == |us| && forall k :: 0 <= k < |l| ==> 0 <= l[k].unit < |us|
    requires kind.Power? ==> NoZeroAreas(l, us)
    ensures val == if kind.Power? then PowerDensity(l, us, v) else Average(l, v)
  {
    hide PowerDensity;
    hide Average;
    val := 0.0;
    DensityOfNothing(us, v);
    for k := 0 to |l|
      invariant val == if kind.Power? then PowerDensity(l[..k], us, v) else Average(l[..k], v)
    {
      assert l[..k + 1] == l[..k] + [l[k]];
      if kind.Power? {
        DensityAppend(l[..k], l[k], us, v);
        val := val + l[k].occupancy * v[l[k].unit] / (us[l[k].unit].width * us[l[k].unit].height);
      } else {
        AverageAppend(l[..k], l[k], v);
        val := val + l[k].occupancy * v[l[k].unit];
      }
    }
    assert l[..|l|] == l;
  }

  lemma DensityOfNothing(us: seq<Rect>, v: Vector)
    ensures PowerDensity([], us, v) == 0.0 && Average([], v) == 0.0
  {
  }

  /** Where the units of layer n begin in the block vector. */
  function Base(layers: seq<seq<Rect>>, n: nat): (b: nat)
    requires n <= |layers|
  {
    if n == 0 then 0 else Base(layers, n - 1) + |layers[n - 1]|
  }

  lemma {:induction false} BaseRises(layers: seq<seq<Rect>>, n: nat, k: nat)
    requires n <= k <= |layers|
    ensures Base(layers, n) <= Base(layers, k)
  {
    if n < k {
      BaseRises(layers, n, k - 1);
    }
  }

  /** The part of the block vector that belongs to layer n. */
  function LayerVector(layers: seq<seq<Rect>>, b: Vector, n: nat): Vector {
    if n < |layers| && Base(layers, n) + |layers[n]| <= |b| then b[Base(layers, n)..Base(layers, n) + |layers[n]|] else []
  }

  /** The lists of every layer are those set_bgmap has made without an abort. */
  ghost predicate MapsReady(m: Grid, layers: seq<seq<Rect>>, maps: seq<array2<seq<Occ>>>)
    requires Ready(m)
    reads maps
  {
    && |maps| == |layers|
    && (forall n :: 0 <= n < |layers| ==>
         NonNegative(layers[n]) && AllPass(m, layers[n]) && maps[n].Length0 == m.rows && maps[n].Length1 == m.cols)
    && (forall n, i, j :: 0 <= n < |layers| && 0 <= i < m.rows && 0 <= j < m.cols ==>
         maps[n][i, j] == CellList(m, layers[n], i, j))
  }

  /** One layer of the translated vector. */
  ghost function LayerOf(cuboid: array3<real>, n: int): (s: seq<seq<real>>)
    requires 0 <= n < cuboid.Length0
    reads cuboid
    ensures |s| == cuboid.Length1 && forall i :: 0 <= i < cuboid.Length1 ==> |s[i]| == cuboid.Length2
    ensures forall i, j :: 0 <= i < cuboid.Length1 && 0 <= j < cuboid.Length2 ==> At(s, i, j) == cuboid[n, i, j]
  {
    seq(cuboid.Length1, i requires 0 <= i < cuboid.Length1 reads cuboid =>
      seq(cuboid.Length2, j requires 0 <= j < cuboid.Length2 reads cuboid => cuboid[n, i, j]))
  }

  /** The sum over the cells of a layer. */
  function Total(s: Matrix, rows: int, cols: int): real {
    Sum(0, rows, i => Sum(0, cols, j => At(s, i, j)))
  }

  /** A layer filled with the powers of its cells sums to the power of its units. */
  lemma LayerConserves(m: Grid, us: seq<Rect>, v: Vector, s: Matrix)
    requires Ready(m) && AllPositive(us) && AllPass(m, us)
    requires forall i, j :: 0 <= i < m.rows && 0 <= j < m.cols ==> At(s, i, j) == CellPower(m, us, v, i, j)
    ensures Total(s, m.rows, m.cols) == Sum(0, |us|, u => Elem(v, u))
  {
    hide Sum;
    hide At;
    hide CellPower;
    hide RangeOf;
    PowerIsConserved(m, us, v);
    var f, g := i => Sum(0, m.cols, j => At(s, i, j)), i => Sum(0, m.cols, j => CellPower(m, us, v, i, j));
    forall i | 0 <= i < m.rows ensures f(i) == g(i) {
      SumEqual(0, m.cols, j => At(s, i, j), j => CellPower(m, us, v, i, j));
    }
    SumEqual(0, m.rows, f, g);
  }

  /** xlate_vector_b2g, and the copy of the package nodes. Powers are conserved layer by layer. */
  method XlateVectorB2G(m: Grid, layers: seq<seq<Rect>>, maps: seq<array2<seq<Occ>>>, b: Vector,
                        cuboid: array3<real>, extra: array<real>, kind: VectorType)
    requires Ready(m) && MapsReady(m, layers, maps) && |b| == Base(layers, |layers|) + extra.Length
    requires cuboid.Length0 == |layers| && cuboid.Length1 == m.rows && cuboid.Length2 == m.cols
    requires kind.Power? ==> forall n :: 0 <= n < |layers| ==> AllPositive(layers[n])
    modifies cuboid, extra
    ensures forall n, i, j :: 0 <= n < |layers| && 0 <= i < m.rows && 0 <= j < m.cols ==>
      cuboid[n, i, j] == CellValue(m, layers[n], LayerVector(layers, b, n), i, j, kind)
    ensures kind.Power? ==> forall n :: 0 <= n < |layers| ==>
      Total(LayerOf(cuboid, n), m.rows, m.cols) == Sum(0, |layers[n]|, u => Elem(LayerVector(layers, b, n), u))
    ensures extra[..] == b[Base(layers, |layers|)..]
  {
    hide CellValue;
    hide CellList;
    hide Ready;
    hide LayerVector;
    hide AllPass;
    var base := 0;
    for n := 0 to |layers|
      invariant base == Base(layers, n)
      invariant forall k, i, j :: 0 <= k < n && 0 <= i < m.rows && 0 <= j < m.cols ==>
        cuboid[k, i, j] == CellValue(m, layers[k], LayerVector(layers, b, k), i, j, kind)
    {
      BaseRises(layers, n + 1, |layers|);
      LayerSlice(layers, b, n);
      XlateLayer(m, layers[n], maps[n], b[base..base + |layers[n]|], cuboid, n, kind);
      base := base + |layers[n]|;
    }
    CopyExtra(b, base, extra);
    if kind.Power? {
      forall n | 0 <= n < |layers|
        ensures Total(LayerOf(cuboid, n), m.rows, m.cols) == Sum(0, |layers[n]|, u => Elem(LayerVector(layers, b, n), u))
      {
        LayerTotal(m, layers[n], LayerVector(layers, b, n), cuboid, n);
      }
    }
  }

  lemma LayerTotal(m: Grid, us: seq<Rect>, v: Vector, cuboid: array3<real>, n: int)
    requires Ready(m) && AllPositive(us) && AllPass(m, us)
    requires 0 <= n < cuboid.Length0 && cuboid.Length1 == m.rows && cuboid.Length2 == m.cols
    requires forall i, j :: 0 <= i < m.rows && 0 <= j < m.cols ==> cuboid[n, i, j] == CellValue(m, us, v, i, j, Power)
    ensures Total(LayerOf(cuboid, n), m.rows, m.cols) == Sum(0, |us|, u => Elem(v, u))
  {
    hide Total;
    hide At;
    hide CellPower;
    hide AllPass;
    LayerConserves(m, us, v, LayerOf(cuboid, n));
  }

  method CopyExtra(b: Vector, base: nat, extra: array<real>)
    requires |b| == base + extra.Length
    modifies extra
    ensures extra[..] == b[base..]
  {
    for i := 0 to extra.Length
      invariant forall k :: 0 <= k < i ==> extra[k] == b[base + k]
    {
      extra[i] := b[base + i];
    }
  }

  /** One layer. */
  method XlateLayer(m: Grid, us: seq<Rect>, b2g: array2<seq<Occ>>, v: Vector, cuboid: array3<real>, n: nat, kind: VectorType)
    requires Ready(m) && NonNegative(us) && AllPass(m, us) && (kind.Power? ==> AllPositive(us))
    requires |v| == |us| && b2g.Length0 == m.rows && b2g.Length1 == m.cols
    requires forall i, j :: 0 <= i < m.rows && 0 <= j < m.cols ==> b2g[i, j] == CellList(m, us, i, j)
    requires n < cuboid.Length0 && cuboid.Length1 == m.rows && cuboid.Length2 == m.cols
    modifies cuboid
    ensures forall k, i, j :: 0 <= k < cuboid.Length0 && 0 <= i < m.rows && 0 <= j < m.cols ==>
      cuboid[k, i, j] == if k == n then CellValue(m, us, v, i, j, kind) else old(cuboid[k, i, j])
  {
    hide CellValue;
    hide CellList;
    hide Ready;
    hide AllPass;
    for i := 0 to m.rows
      invariant forall k, h, q :: 0 <= k < cuboid.Length0 && 0 <= h < m.rows && 0 <= q < m.cols ==>
        cuboid[k, h, q] == if k == n && h < i then CellValue(m, us, v, h, q, kind) else old(cuboid[k, h, q])
    {
      for j := 0 to m.cols
        invariant forall k, h, q :: 0 <= k < cuboid.Length0 && 0 <= h < m.rows && 0 <= q < m.cols ==>
          cuboid[k, h, q] == if k == n && (h < i || (h == i && q < j)) then CellValue(m, us, v, h, q, kind) else old(cuboid[k, h, q])
      {
        var p := ValueOfCell(m, us, b2g[i, j], v, i, j, kind);
        cuboid[n, i, j] := p;
      }
    }
  }

  lemma LayerSlice(layers: seq<seq<Rect>>, b: Vector, n: nat)
    requires n < |layers| && Base(layers, n + 1) <= |b|
    ensures Base(layers, n + 1) == Base(layers, n) + |layers[n]|
    ensures LayerVector(layers, b, n) == b[Base(layers, n)..Base(layers, n) + |layers[n]|]
  {
  }

  /** The value of one cell: its average temperature, or its average density times the area of a cell. */
  method ValueOfCell(m: Grid, us: seq<Rect>, l: seq<Occ>, v: Vector, i: int, j: int, kind: VectorType) returns (p: real)
    requires Ready(m) && NonNegative(us) && AllPass(m, us) && (kind.Power? ==> AllPositive(us))
    requires |v| == |us| && 0 <= i < m.rows && 0 <= j < m.cols && l == CellList(m, us, i, j)
    ensures p == CellValue(m, us, v, i, j, kind)
  {
    hide CellList;
    hide PowerDensity;
    hide Average;
    hide AllPass;
    ListedUnits(m, us, i, j);
    if kind.Power? {
      DensitiesDefinedIff(m, us);
    }
    p := BlistAvg(l, us, v, kind);
    if kind.Power? {
      p := p * ((m.width * m.height) / (m.cols * m.rows) as real);
    }
  }

  lemma ListedUnits(m: Grid, us: seq<Rect>, i: int, j: int)
    requires Ready(m) && NonNegative(us)
    ensures forall k :: 0 <= k < |CellList(m, us, i, j)| ==> 0 <= CellList(m, us, i, j)[k].unit < |us|
  {
    hide CellList;
    hide RangeOf;
    Listed(m, us, |us|, i, j);
    assert us[..|us|] == us;
  }
}
