/** The coordinate-list part of build_transient_grid_matrix on the primary path, and its conversion to compressed
    columns (temperature_grid.c, util.c). */
module GridMatrixState {
  import opened GridMatrix
  import CompressedColumns

  // ---------------------------------------------------------------- numbering

  lemma DigitsUnique(a: int, b: int, a': int, b': int, n: int)
    requires 0 <= b < n && 0 <= b' < n && a * n + b == a' * n + b'
    ensures a == a' && b == b'
  {
    if a < a' {
      Spaced(a, a', n);
    } else if a' < a {
      Spaced(a', a, n);
    }
  }

  lemma Spaced(a: int, b: int, n: int)
    requires a < b && n > 0
    ensures a * n + n <= b * n
  {
    Summed(a, b - a, n);
  }

  lemma Summed(a: int, k: int, n: int)
    ensures (a + k) * n == a * n + k * n
  {
  }

  lemma IndexRange(d: Dims, p: Node)
    requires ValidDims(d) && IsNode(d, p)
    ensures 0 <= Index(d, p) < d.nl * d.nr * d.nc + EXTRA
    ensures p.Cell? <==> Index(d, p) < d.nl * d.nr * d.nc
  {
    if p.Cell? {
      RowRange(p.l, d.nl, p.i, d.nr);
      RowRange(p.l * d.nr + p.i, d.nl * d.nr, p.j, d.nc);
    } else {
      assert d.nl * d.nr > 0;
      assert d.nl * d.nr * d.nc > 0;
    }
  }

  lemma RowRange(a: int, m: int, b: int, n: int)
    requires 0 <= a < m && 0 <= b < n
    ensures 0 <= a * n + b < m * n
  {
    Spaced(a, m, n);
    assert a * n >= 0;
  }

  /** Different nodes have different numbers. */
  lemma IndexInjective(d: Dims, p: Node, q: Node)
    requires ValidDims(d) && IsNode(d, p) && IsNode(d, q) && Index(d, p) == Index(d, q)
    ensures p == q
  {
    IndexRange(d, p);
    IndexRange(d, q);
    if p.Cell? {
      DigitsUnique(p.l * d.nr + p.i, p.j, q.l * d.nr + q.i, q.j, d.nc);
      DigitsUnique(p.l, p.i, q.l, q.i, d.nr);
    }
  }

  // ---------------------------------------------------------------- values

  /** Conductances between nodes and to ambient; the resistances behind them are parameters of this model. */
  datatype Conductances = Conductances(link: (Node, Node) -> real, ambient: Node -> real)

  function LinkSum(c: Conductances, p: Node, s: seq<Node>): real {
    if s == [] then 0.0 else LinkSum(c, p, s[..|s| - 1]) + c.link(p, s[|s| - 1])
  }

  /** Off the diagonal the negative conductance, on it everything that leaves the node. */
  function ValueAt(d: Dims, c: Conductances, p: Node, q: Node): real
    requires d.nr >= 0 && d.nc >= 0
  {
    if p == q then LinkSum(c, p, Neighbours(d, p)) + c.ambient(p) else -c.link(p, q)
  }

  // ---------------------------------------------------------------- one row

  /** grididx and the conditions on it, against rows and columns. */
  lemma GridCases(d: Dims, i: int, j: int)
    requires ValidDims(d) && 0 <= i < d.nr && 0 <= j < d.nc
    ensures var g := i * d.nc + j;
            && (g == 0 <==> i == 0 && j == 0)
            && (g == d.nc - 1 <==> i == 0 && j == d.nc - 1)
            && (g == d.nr * d.nc - d.nc <==> i == d.nr - 1 && j == 0)
            && (g == d.nr * d.nc - 1 <==> i == d.nr - 1 && j == d.nc - 1)
            && (0 < g < d.nc - 1 <==> i == 0 && 0 < j < d.nc - 1)
            && (d.nr * d.nc - d.nc < g < d.nr * d.nc - 1 <==> i == d.nr - 1 && 0 < j < d.nc - 1)
  {
    assert d.nr * d.nc - d.nc == (d.nr - 1) * d.nc;
    if i > 0 {
      Spaced(0, i, d.nc);
    }
    if i < d.nr - 1 {
      Spaced(i, d.nr - 1, d.nc);
    }
  }

  lemma ColumnCases(d: Dims, i: int, j: int)
    requires ValidDims(d) && 0 <= i < d.nr && 0 <= j < d.nc
    ensures (i * d.nc + j) % d.nc == j
    ensures (i * d.nc + j + 1) % d.nc == 0 <==> j == d.nc - 1
  {
    var g := i * d.nc + j;
    DigitsUnique(g / d.nc, g % d.nc, i, j, d.nc);
    var h := g + 1;
    if j == d.nc - 1 {
      assert h == (i + 1) * d.nc + 0;
      DigitsUnique(h / d.nc, h % d.nc, i + 1, 0, d.nc);
    } else {
      DigitsUnique(h / d.nc, h % d.nc, i, j + 1, d.nc);
    }
  }

  /** The numbers of the grid neighbours. */
  lemma NeighbourNumbers(d: Dims, l: int, i: int, j: int)
    ensures var x := l * d.nr * d.nc; var g := i * d.nc + j;
            && Index(d, Cell(l, i, j)) == g + x
            && Index(d, Cell(l, i, j + 1)) == g + 1 + x && Index(d, Cell(l, i, j - 1)) == g - 1 + x
            && Index(d, Cell(l, i + 1, j)) == g + d.nc + x && Index(d, Cell(l, i - 1, j)) == g - d.nc + x
            && Index(d, Cell(l + 1, i, j)) == g + d.nr * d.nc + x && Index(d, Cell(l - 1, i, j)) == g - d.nr * d.nc + x
  {
    Expand(l, d.nr, i, d.nc);
    Expand(l, d.nr, i + 1, d.nc);
    Expand(l, d.nr, i - 1, d.nc);
    Expand(l + 1, d.nr, i, d.nc);
    Expand(l - 1, d.nr, i, d.nc);
    Next(i, d.nc);
    Next(i - 1, d.nc);
    Next(l, d.nr * d.nc);
    Next(l - 1, d.nr * d.nc);
    assert l * d.nr * d.nc == l * (d.nr * d.nc);
    assert (l + 1) * d.nr * d.nc == (l + 1) * (d.nr * d.nc);
    assert (l - 1) * d.nr * d.nc == (l - 1) * (d.nr * d.nc);
  }

  lemma Expand(l: int, r: int, i: int, c: int)
    ensures (l * r + i) * c == l * r * c + i * c
  {
  }

  function Numbers(d: Dims, s: seq<Node>): (t: seq<int>)
    ensures |t| == |s|
  {
    seq(|s|, a requires 0 <= a < |s| => Index(d, s[a]))
  }

  /** The nine-way case split on the position of a cell, in the builder's own conditions and order. */
  method InLayerColumns(d: Dims, l: int, i: int, j: int, grididx: int, yoffset: int) returns (cols: seq<int>)
    requires ValidDims(d) && IsNode(d, Cell(l, i, j)) && grididx == i * d.nc + j && yoffset == l * d.nr * d.nc
    ensures cols == Numbers(d, InLayer(d, l, i, j))
  {
    hide Index;
    var nr, nc := d.nr, d.nc;
    GridCases(d, i, j);
    ColumnCases(d, i, j);
    NeighbourNumbers(d, l, i, j);
    var west, east := grididx - 1 + yoffset, grididx + 1 + yoffset;
    var north, south := grididx - nc + yoffset, grididx + nc + yoffset;
    if 0 == grididx {
      cols := [east, south];
    } else if nc - 1 == grididx {
      cols := [west, south];
    } else if nr * nc - nc == grididx {
      cols := [east, north];
    } else if nr * nc - 1 == grididx {
      cols := [west, north];
    } else if grididx > 0 && grididx < nc - 1 {
      cols := [west, east, south];
    } else if grididx > nr * nc - nc && grididx < nr * nc - 1 {
      cols := [west, east, north];
    } else if 0 == grididx % nc {
      cols := [north, south, east];
    } else if 0 == (grididx + 1) % nc {
      cols := [north, south, west];
    } else {
      cols := [north, south, west, east];
    }
  }

  method VerticalColumns(d: Dims, l: int, i: int, j: int, grididx: int, yoffset: int) returns (cols: seq<int>)
    requires ValidDims(d) && IsNode(d, Cell(l, i, j)) && grididx == i * d.nc + j && yoffset == l * d.nr * d.nc
    ensures cols == Numbers(d, Vertical(d, l, i, j))
  {
    hide Index;
    NeighbourNumbers(d, l, i, j);
    cols := [];
    if l < d.nl - 1 {
      cols := cols + [grididx + d.nr * d.nc + yoffset];
    }
    if l > 0 {
      cols := cols + [grididx - d.nr * d.nc + yoffset];
    }
  }

  method PeripheryColumns(d: Dims, l: int, i: int, j: int) returns (cols: seq<int>)
    requires ValidDims(d) && IsNode(d, Cell(l, i, j))
    ensures cols == Numbers(d, Periphery(d, l, i, j))
  {
    hide Index;
    PackNumbers(d);
    var spidx, hsidx, xoffset := d.nl - 2, d.nl - 1, d.nl * d.nr * d.nc;
    cols := [];
    if l == spidx || l == hsidx {
      var group := if l == spidx then SP else SINK_C;
      if i == 0 {
        cols := cols + [xoffset + group + NORTH];
      } else if i == d.nr - 1 {
        cols := cols + [xoffset + group + SOUTH];
      }
      if j == 0 {
        cols := cols + [xoffset + group + WEST];
      } else if j == d.nc - 1 {
        cols := cols + [xoffset + group + EAST];
      }
    }
  }

  /** All columns of a cell's row but the diagonal: grid neighbours, layers below and above, package nodes. */
  method CellColumns(d: Dims, l: int, i: int, j: int) returns (cols: seq<int>)
    requires ValidDims(d) && IsNode(d, Cell(l, i, j))
    ensures cols == Numbers(d, Neighbours(d, Cell(l, i, j)))
  {
    hide InLayer;
    hide Vertical;
    hide Periphery;
    hide Index;
    var grididx, yoffset := i * d.nc + j, l * d.nr * d.nc;
    var a := InLayerColumns(d, l, i, j, grididx, yoffset);
    var b := VerticalColumns(d, l, i, j, grididx, yoffset);
    var c := PeripheryColumns(d, l, i, j);
    cols := a + b + c;
    assert cols == Numbers(d, InLayer(d, l, i, j) + Vertical(d, l, i, j) + Periphery(d, l, i, j));
  }

  lemma PackNumbers(d: Dims)
    ensures forall k :: Index(d, Pack(k)) == d.nl * d.nr * d.nc + k
  {
  }

  /** The columns of a package row: the border cells of its layer, then other package nodes. */
  method PackColumns(d: Dims, k: int) returns (cols: seq<int>)
    requires ValidDims(d) && 0 <= k < EXTRA
    ensures cols == Numbers(d, Neighbours(d, Pack(k)))
  {
    hide Index;
    PackNumbers(d);
    var xoffset := d.nl * d.nr * d.nc;
    if k >= SINK {
      return [k - 4 + xoffset];
    }
    var group, layer := if k >= SINK_C then SINK_C else SP, if k >= SINK_C then d.nl - 1 else d.nl - 2;
    cols := BorderColumns(d, layer, k - group);
    if k >= SINK_C {
      cols := cols + [k - 4 + xoffset, k + 4 + xoffset];
    } else {
      cols := cols + [k + 4 + xoffset];
    }
  }

  method BorderColumns(d: Dims, layer: int, side: int) returns (cols: seq<int>)
    requires ValidDims(d) && 0 <= layer < d.nl && 0 <= side < 4
    ensures cols == Numbers(d, BorderCells(d, layer, side))
  {
    hide Index;
    var nr, nc := d.nr, d.nc;
    var yoffset := layer * nr * nc;
    ghost var s := BorderCells(d, layer, side);
    cols := [];
    if side == NORTH || side == SOUTH {
      var i := if side == NORTH then 0 else nr - 1;
      for j := 0 to nc
        invariant cols == Numbers(d, s[..j])
      {
        NeighbourNumbers(d, layer, i, j);
        cols := cols + [i * nc + j + yoffset];
        assert s[..j + 1] == s[..j] + [s[j]];
      }
      assert s[..nc] == s;
    } else {
      var j := if side == WEST then 0 else nc - 1;
      for i := 0 to nr
        invariant cols == Numbers(d, s[..i])
      {
        NeighbourNumbers(d, layer, i, j);
        cols := cols + [i * nc + j + yoffset];
        assert s[..i + 1] == s[..i] + [s[i]];
      }
      assert s[..nr] == s;
    }
  }

  // ---------------------------------------------------------------- the coordinate list

  /** Slot a of the three arrays holds the given entry. */
  ghost predicate Holds(d: Dims, c: Conductances, cooX: array<int>, cooY: array<int>, cooV: array<real>, a: int, e: (Node, Node))
    requires d.nr >= 0 && d.nc >= 0 && 0 <= a < cooX.Length == cooY.Length == cooV.Length
    reads cooX, cooY, cooV
  {
    cooX[a] == Index(d, e.0) && cooY[a] == Index(d, e.1) && cooV[a] == ValueAt(d, c, e.0, e.1)
  }

  /** The first entries are in place. */
  ghost predicate Written(d: Dims, c: Conductances, cooX: array<int>, cooY: array<int>, cooV: array<real>, s: seq<(Node, Node)>)
    requires d.nr >= 0 && d.nc >= 0
    reads cooX, cooY, cooV
  {
    && |s| <= cooX.Length == cooY.Length == cooV.Length
    && forall a :: 0 <= a < |s| ==> Holds(d, c, cooX, cooY, cooV, a, s[a])
  }

  /** Emitting one row: the off-diagonal entries, adding up the diagonal, then the diagonal. */
  method EmitRow(d: Dims, c: Conductances, p: Node, neighbours: seq<Node>, cols: seq<int>, row: int,
                 cooX: array<int>, cooY: array<int>, cooV: array<real>, curidx: int, ghost s: seq<(Node, Node)>) returns (next: int)
    requires ValidDims(d) && IsNode(d, p) && row == Index(d, p)
    requires neighbours == Neighbours(d, p) && cols == Numbers(d, neighbours) && p !in neighbours
    requires cooX != cooY && Written(d, c, cooX, cooY, cooV, s) && curidx == |s| && |s + RowOf(d, p)| <= cooX.Length
    modifies cooX, cooY, cooV
    ensures Written(d, c, cooX, cooY, cooV, s + RowOf(d, p)) && next == |s + RowOf(d, p)|
  {
    hide Index;
    hide Neighbours;
    hide IsNode;
    next := curidx;
    var dia := 0.0;
    ghost var r := RowOf(d, p);
    for a := 0 to |cols|
      invariant next == |s| + a && dia == LinkSum(c, p, neighbours[..a])
      invariant Written(d, c, cooX, cooY, cooV, s + r[..a])
    {
      var g := c.link(p, neighbours[a]);
      assert neighbours[a] in neighbours;
      assert neighbours[..a + 1][..a] == neighbours[..a];
      cooX[next], cooY[next], cooV[next] := row, cols[a], -g;
      assert s + r[..a + 1] == (s + r[..a]) + [r[a]];
      next := next + 1;
      dia := dia + g;
    }
    assert neighbours[..|cols|] == neighbours;
    dia := dia + c.ambient(p);
    cooX[next], cooY[next], cooV[next] := row, row, dia;
    assert s + r == (s + r[..|cols|]) + [(p, p)];
    next := next + 1;
  }

  // ---------------------------------------------------------------- the whole list

  lemma {:induction false} CellsArePrefix(d: Dims, l: nat, i: nat, j: nat)
    requires ValidDims(d) && l <= d.nl && i <= d.nr && j <= d.nc && (l == d.nl ==> i == 0) && (i == d.nr || l == d.nl ==> j == 0)
    ensures CellsUpTo(d, l, i, j) <= AllEntries(d)
    decreases d.nl - l, d.nr - i, d.nc - j
  {
    hide CellsUpTo;
    hide RowOf;
    hide AllEntries;
    if l == d.nl {
      PacksArePrefix(d, 0);
    } else if i == d.nr {
      CellsUnfold(d, l + 1, 0, 0);
      CellsArePrefix(d, l + 1, 0, 0);
    } else if j == d.nc {
      CellsUnfold(d, l, i + 1, 0);
      CellsArePrefix(d, l, i + 1, 0);
    } else {
      CellsUnfold(d, l, i, j + 1);
      CellsArePrefix(d, l, i, j + 1);
    }
  }

  lemma {:induction false} PacksArePrefix(d: Dims, n: nat)
    requires ValidDims(d) && n <= 12
    ensures PacksUpTo(d, n) <= AllEntries(d)
    decreases 12 - n
  {
    hide CellsUpTo;
    hide RowOf;
    if n < 12 {
      PacksArePrefix(d, n + 1);
    }
  }

  lemma ValidRow(d: Dims, p: Node)
    requires ValidDims(d) && IsNode(d, p)
    ensures p !in Neighbours(d, p)
  {
    NeighboursAreLinks(d, p);
  }

  /** The cell loops. */
  method EmitCells(d: Dims, c: Conductances, cooX: array<int>, cooY: array<int>, cooV: array<real>) returns (curidx: int)
    requires ValidDims(d) && cooX != cooY && cooX.Length == cooY.Length == cooV.Length == Nnz(d)
    modifies cooX, cooY, cooV
    ensures Written(d, c, cooX, cooY, cooV, CellsUpTo(d, d.nl, 0, 0)) && curidx == |CellsUpTo(d, d.nl, 0, 0)|
  {
    hide CellsUpTo;
    hide RowOf;
    hide Neighbours;
    hide Written;
    hide Index;
    hide Nnz;
    hide AllEntries;
    curidx := 0;
    CellsUnfold(d, 0, 0, 0);
    NothingWritten(d, c, cooX, cooY, cooV);
    EntryCount(d);
    for l := 0 to d.nl
      invariant Written(d, c, cooX, cooY, cooV, CellsUpTo(d, l, 0, 0)) && curidx == |CellsUpTo(d, l, 0, 0)|
    {
      for i := 0 to d.nr
        invariant Written(d, c, cooX, cooY, cooV, CellsUpTo(d, l, i, 0)) && curidx == |CellsUpTo(d, l, i, 0)|
      {
        for j := 0 to d.nc
          invariant Written(d, c, cooX, cooY, cooV, CellsUpTo(d, l, i, j)) && curidx == |CellsUpTo(d, l, i, j)|
        {
          var p := Cell(l, i, j);
          CellsUnfold(d, l, i, j + 1);
          CellsArePrefix(d, l, i, j + 1);
          ValidRow(d, p);
          NeighbourNumbers(d, l, i, j);
          var cols := CellColumns(d, l, i, j);
          curidx := EmitRow(d, c, p, Neighbours(d, p), cols, i * d.nc + j + l * d.nr * d.nc, cooX, cooY, cooV, curidx,
            CellsUpTo(d, l, i, j));
        }
        CellsUnfold(d, l, i + 1, 0);
      }
      CellsUnfold(d, l + 1, 0, 0);
    }
  }

  lemma NothingWritten(d: Dims, c: Conductances, cooX: array<int>, cooY: array<int>, cooV: array<real>)
    requires ValidDims(d) && cooX.Length == cooY.Length == cooV.Length
    ensures Written(d, c, cooX, cooY, cooV, [])
  {
  }

  /** The coordinate list of build_transient_grid_matrix: all entries, and exactly as many as were allocated. */
  method BuildCoo(d: Dims, c: Conductances) returns (cooX: array<int>, cooY: array<int>, cooV: array<real>)
    requires ValidDims(d)
    ensures cooX.Length == cooY.Length == cooV.Length == |AllEntries(d)|
    ensures Written(d, c, cooX, cooY, cooV, AllEntries(d))
  {
    hide CellsUpTo;
    hide RowOf;
    hide Neighbours;
    hide Written;
    hide Index;
    hide Nnz;
    EntryCount(d);
    var nnz := Nnz(d);
    cooX, cooY, cooV := new int[nnz], new int[nnz], new real[nnz];
    var curidx := EmitCells(d, c, cooX, cooY, cooV);
    for n := 0 to 12
      invariant Written(d, c, cooX, cooY, cooV, PacksUpTo(d, n)) && curidx == |PacksUpTo(d, n)|
    {
      var k := PACK_ORDER[n];
      PacksArePrefix(d, n + 1);
      ValidRow(d, Pack(k));
      PackNumbers(d);
      var cols := PackColumns(d, k);
      curidx := EmitRow(d, c, Pack(k), Neighbours(d, Pack(k)), cols, k + d.nl * d.nr * d.nc, cooX, cooY, cooV, curidx,
        PacksUpTo(d, n));
    }
  }

  // ---------------------------------------------------------------- compressed columns

  function Size(d: Dims): int {
    d.nl * d.nr * d.nc + EXTRA
  }

  function CooOf(d: Dims, c: Conductances, s: seq<(Node, Node)>): (t: seq<CompressedColumns.Coo>)
    requires d.nr >= 0 && d.nc >= 0
    ensures |t| == |s|
  {
    seq(|s|, a requires 0 <= a < |s| => CompressedColumns.Coo(Index(d, s[a].0), Index(d, s[a].1), ValueAt(d, c, s[a].0, s[a].1)))
  }

  lemma EntriesInMatrix(d: Dims, c: Conductances)
    requires ValidDims(d)
    ensures Size(d) > 0 && CompressedColumns.InMatrix(CooOf(d, c, AllEntries(d)), Size(d))
  {
    hide AllEntries;
    hide Index;
    hide ValueAt;
    PatternIsExact(d);
    var s := AllEntries(d);
    IndexRange(d, Pack(0));
    forall a | 0 <= a < |s| ensures 0 <= Index(d, s[a].1) < Size(d) {
      assert (s[a].0, s[a].1) in s;
      IndexRange(d, s[a].1);
    }
  }

  /** The matrix of the grid model has an entry in its last column, so the conversion writes every pointer. */
  lemma LastColumnIsUsed(d: Dims, c: Conductances, t: seq<CompressedColumns.Coo>)
    requires ValidDims(d) && CompressedColumns.Sorted(t) && multiset(t) == multiset(CooOf(d, c, AllEntries(d)))
    requires CompressedColumns.InMatrix(t, if Size(d) >= 0 then Size(d) else 0)
    ensures CompressedColumns.LastColumn(t) == Size(d) - 1
  {
    hide AllEntries;
    hide ValueAt;
    PatternIsExact(d);
    var s, p := AllEntries(d), Pack(EXTRA - 1);
    assert InPattern(d, p, p);
    assert (p, p) in s;
    var a :| 0 <= a < |s| && s[a] == (p, p);
    var coo := CooOf(d, c, s);
    assert coo[a] in multiset(coo) && coo[a] in multiset(t);
    var b :| 0 <= b < |t| && t[b] == coo[a];
    assert b < |t| - 1 ==> CompressedColumns.AtMost(t[b], t[|t| - 1]);
  }

  /** The builder emits no coordinates twice. */
  lemma EmittedDistinct(d: Dims, c: Conductances)
    requires ValidDims(d)
    ensures CompressedColumns.DistinctCoordinates(CooOf(d, c, AllEntries(d)))
  {
    hide AllEntries;
    hide ValueAt;
    hide Index;
    PatternIsExact(d);
    var s := AllEntries(d);
    var t := CooOf(d, c, s);
    forall a, b | 0 <= a < b < |t| ensures t[a].x != t[b].x || t[a].y != t[b].y {
      assert (s[a].0, s[a].1) in s && (s[b].0, s[b].1) in s;
      if Index(d, s[a].0) == Index(d, s[b].0) && Index(d, s[a].1) == Index(d, s[b].1) {
        IndexInjective(d, s[a].0, s[b].0);
        IndexInjective(d, s[a].1, s[b].1);
      }
    }
  }

  /** What the compressed columns must be: the sorted entries column by column, rows ascending strictly in each. */
  ghost predicate IsCsc(s: seq<CompressedColumns.Coo>, rowInd: seq<int>, colPtr: seq<int>, values: seq<real>, n: nat) {
    && |rowInd| == |values| == |s| && (forall a :: 0 <= a < |s| ==> rowInd[a] == s[a].x && values[a] == s[a].val)
    && CompressedColumns.Sorted(s) && CompressedColumns.InMatrix(s, n) && CompressedColumns.DistinctCoordinates(s)
    && CompressedColumns.ColumnsAreComplete(s, colPtr, n)
  }

  /** The rows of column q ascend strictly. */
  ghost predicate ColumnAscends(rowInd: seq<int>, colPtr: seq<int>, q: int) {
    && 0 <= q && q + 1 < |colPtr| && 0 <= colPtr[q] <= colPtr[q + 1] <= |rowInd|
    && forall a, b :: colPtr[q] <= a < b < colPtr[q + 1] ==> rowInd[a] < rowInd[b]
  }

  ghost predicate ColumnsAscend(rowInd: seq<int>, colPtr: seq<int>, n: int) {
    forall q :: 0 <= q < n ==> ColumnAscends(rowInd, colPtr, q)
  }

  /** Column q is the slice between pointers q and q + 1, without repeated rows. */
  lemma CscColumn(s: seq<CompressedColumns.Coo>, rowInd: seq<int>, colPtr: seq<int>, values: seq<real>, n: nat, q: nat)
    requires IsCsc(s, rowInd, colPtr, values, n) && q < n
    ensures ColumnAscends(rowInd, colPtr, q)
    ensures forall a :: 0 <= a < |s| ==> (s[a].y == q <==> colPtr[q] <= a < colPtr[q + 1])
  {
    CompressedColumns.ColumnsAreRight(s, colPtr, n, q);
    CompressedColumns.RowsAscend(s, colPtr, n, q);
  }

  lemma CscAscends(s: seq<CompressedColumns.Coo>, rowInd: seq<int>, colPtr: seq<int>, values: seq<real>, n: nat)
    requires IsCsc(s, rowInd, colPtr, values, n)
    ensures ColumnsAscend(rowInd, colPtr, n)
  {
    hide IsCsc;
    forall q | 0 <= q < n ensures ColumnAscends(rowInd, colPtr, q) {
      CscColumn(s, rowInd, colPtr, values, n, q);
    }
  }

  /** build_transient_grid_matrix up to the compressed columns: the pointers are complete and describe the emitted
      entries, in particular p[q] .. p[q + 1] is column q, whose rows ascend strictly. */
  method BuildCsc(d: Dims, c: Conductances) returns (rowInd: array<int>, colPtr: array<int>, values: array<real>,
                                                    s: seq<CompressedColumns.Coo>)
    requires ValidDims(d)
    ensures Size(d) > 0 && multiset(s) == multiset(CooOf(d, c, AllEntries(d)))
    ensures IsCsc(s, rowInd[..], colPtr[..], values[..], Size(d)) && ColumnsAscend(rowInd[..], colPtr[..], Size(d))
  {
    hide ColumnsAscend;
    hide AllEntries;
    hide Index;
    hide ValueAt;
    EntriesInMatrix(d, c);
    EmittedDistinct(d, c);
    var cooX, cooY, cooV := BuildCoo(d, c);
    var n := d.nl * d.nr * d.nc + EXTRA;
    var coo := ReadCoo(cooX, cooY, cooV);
    assert coo == CooOf(d, c, AllEntries(d));
    rowInd, colPtr, values := new int[|coo|], new int[n + 1], new real[|coo|];
    ghost var before := colPtr[..];
    s := CompressedColumns.Coo2Csc(n, coo, rowInd, colPtr, values);
    StillInMatrix(s, coo, n);
    CompressedColumns.RearrangedDistinct(s, coo);
    LastColumnIsUsed(d, c, s);
    CompressedColumns.CompleteIffLastColumn(s, n);
    assert CompressedColumns.ColumnsAreComplete(s, CompressedColumns.Pointers(s, before), n);
    CscAscends(s, rowInd[..], colPtr[..], values[..], n);
  }

  lemma StillInMatrix(s: seq<CompressedColumns.Coo>, t: seq<CompressedColumns.Coo>, n: nat)
    requires multiset(s) == multiset(t) && CompressedColumns.InMatrix(t, n)
    ensures CompressedColumns.InMatrix(s, n)
  {
    forall a | 0 <= a < |s| ensures 0 <= s[a].y < n {
      assert s[a] in multiset(s) && s[a] in multiset(t);
    }
  }

  method ReadCoo(cooX: array<int>, cooY: array<int>, cooV: array<real>) returns (coo: seq<CompressedColumns.Coo>)
    requires cooX.Length == cooY.Length == cooV.Length
    ensures |coo| == cooX.Length
    ensures forall a :: 0 <= a < |coo| ==> coo[a] == CompressedColumns.Coo(cooX[a], cooY[a], cooV[a])
  {
    coo := [];
    for i := 0 to cooX.Length
      invariant |coo| == i && forall a :: 0 <= a < i ==> coo[a] == CompressedColumns.Coo(cooX[a], cooY[a], cooV[a])
    {
      coo := coo + [CompressedColumns.Coo(cooX[i], cooY[i], cooV[i])];
    }
  }
}
