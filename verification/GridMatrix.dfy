/** The sparse matrix of the grid model on the primary heat path: which coordinates the case-split builder emits
    (temperature_grid.c). */
module GridMatrix {
  // ---------------------------------------------------------------- nodes

  const EXTRA := 12
  const SP := 0
  const SINK_C := 4
  const SINK := 8
  const WEST := 0
  const EAST := 1
  const NORTH := 2
  const SOUTH := 3

  /** Layers, rows and columns; the last two layers are the spreader and the heat sink. */
  datatype Dims = Dims(nl: int, nr: int, nc: int)

  ghost predicate ValidDims(d: Dims) {
    d.nl >= 2 && d.nr >= 2 && d.nc >= 2
  }

  /** A grid cell, or a package node: group (SP, SINK_C, SINK) plus side. */
  datatype Node = Cell(l: int, i: int, j: int) | Pack(k: int)

  predicate IsNode(d: Dims, p: Node) {
    match p
    case Cell(l, i, j) => 0 <= l < d.nl && 0 <= i < d.nr && 0 <= j < d.nc
    case Pack(k) => 0 <= k < EXTRA
  }

  function Spreader(d: Dims): int { d.nl - 2 }

  function Heatsink(d: Dims): int { d.nl - 1 }

  /** The row and column number of a node. */
  function Index(d: Dims, p: Node): int {
    match p
    case Cell(l, i, j) => (l * d.nr + i) * d.nc + j
    case Pack(k) => d.nl * d.nr * d.nc + k
  }

  predicate OnSide(d: Dims, i: int, j: int, side: int) {
    if side == WEST then j == 0 else if side == EAST then j == d.nc - 1
    else if side == NORTH then i == 0 else i == d.nr - 1
  }

  predicate OneApart(a: int, b: int) {
    a == b + 1 || b == a + 1
  }

  /** Which nodes are joined by a resistor. */
  predicate Linked(d: Dims, p: Node, q: Node) {
    match (p, q)
    case (Cell(l, i, j), Cell(l', i', j')) =>
      || (l == l' && i == i' && OneApart(j, j'))
      || (l == l' && j == j' && OneApart(i, i'))
      || (i == i' && j == j' && OneApart(l, l'))
    case (Cell(l, i, j), Pack(k)) => CellToPack(d, l, i, j, k)
    case (Pack(k), Cell(l, i, j)) => CellToPack(d, l, i, j, k)
    case (Pack(k), Pack(k')) => k == k' + 4 || k' == k + 4
  }

  predicate CellToPack(d: Dims, l: int, i: int, j: int, k: int) {
    || (l == Spreader(d) && SP <= k < SP + 4 && OnSide(d, i, j, k - SP))
    || (l == Heatsink(d) && SINK_C <= k < SINK_C + 4 && OnSide(d, i, j, k - SINK_C))
  }

  lemma LinkedIsSymmetric(d: Dims, p: Node, q: Node)
    ensures Linked(d, p, q) <==> Linked(d, q, p)
    ensures !Linked(d, p, p)
  {
  }

  // ---------------------------------------------------------------- the order in which a row is emitted

  /** The neighbours in the grid, case by case as the builder distinguishes corners, edges and the centre. */
  function InLayer(d: Dims, l: int, i: int, j: int): seq<Node> {
    var w, e, n, s := Cell(l, i, j - 1), Cell(l, i, j + 1), Cell(l, i - 1, j), Cell(l, i + 1, j);
    if i == 0 && j == 0 then [e, s]
    else if i == 0 && j == d.nc - 1 then [w, s]
    else if i == d.nr - 1 && j == 0 then [e, n]
    else if i == d.nr - 1 && j == d.nc - 1 then [w, n]
    else if i == 0 then [w, e, s]
    else if i == d.nr - 1 then [w, e, n]
    else if j == 0 then [n, s, e]
    else if j == d.nc - 1 then [n, s, w]
    else [n, s, w, e]
  }

  function Vertical(d: Dims, l: int, i: int, j: int): seq<Node> {
    (if l < d.nl - 1 then [Cell(l + 1, i, j)] else []) + (if l > 0 then [Cell(l - 1, i, j)] else [])
  }

  /** The package nodes of a border cell: north or south first, then west or east. */
  function Periphery(d: Dims, l: int, i: int, j: int): seq<Node> {
    var group := if l == Spreader(d) then SP else SINK_C;
    var vertical := if i == 0 then [Pack(group + NORTH)] else if i == d.nr - 1 then [Pack(group + SOUTH)] else [];
    var horizontal := if j == 0 then [Pack(group + WEST)] else if j == d.nc - 1 then [Pack(group + EAST)] else [];
    if l != Spreader(d) && l != Heatsink(d) then [] else vertical + horizontal
  }

  /** The border cells of a layer along one side. */
  function BorderCells(d: Dims, l: int, side: int): (s: seq<Node>)
    requires d.nr >= 0 && d.nc >= 0
    ensures |s| == if side == NORTH || side == SOUTH then d.nc else d.nr
  {
    if side == NORTH then seq(d.nc, j => Cell(l, 0, j))
    else if side == SOUTH then seq(d.nc, j => Cell(l, d.nr - 1, j))
    else if side == WEST then seq(d.nr, i => Cell(l, i, 0))
    else seq(d.nr, i => Cell(l, i, d.nc - 1))
  }

  function Neighbours(d: Dims, p: Node): seq<Node>
    requires d.nr >= 0 && d.nc >= 0
  {
    match p
    case Cell(l, i, j) => InLayer(d, l, i, j) + Vertical(d, l, i, j) + Periphery(d, l, i, j)
    case Pack(k) =>
      if k >= SINK then [Pack(k - 4)]
      else if k >= SINK_C then BorderCells(d, Heatsink(d), k - SINK_C) + [Pack(k - 4), Pack(k + 4)]
      else BorderCells(d, Spreader(d), k - SP) + [Pack(k + 4)]
  }

  ghost predicate NoDuplicates(s: seq<Node>) {
    forall a, b :: 0 <= a < b < |s| ==> s[a] != s[b]
  }

  /** Distinct nodes linked to p. */
  ghost predicate DistinctLinks(d: Dims, p: Node, s: seq<Node>) {
    NoDuplicates(s) && forall a :: 0 <= a < |s| ==> IsNode(d, s[a]) && Linked(d, p, s[a])
  }

  lemma InLayerLinks(d: Dims, l: int, i: int, j: int)
    requires ValidDims(d) && IsNode(d, Cell(l, i, j))
    ensures var s := InLayer(d, l, i, j);
            && DistinctLinks(d, Cell(l, i, j), s) && (forall a :: 0 <= a < |s| ==> s[a].Cell? && s[a].l == l)
            && |s| == One(i > 0) + One(i < d.nr - 1) + One(j > 0) + One(j < d.nc - 1)
  {
  }

  lemma VerticalLinks(d: Dims, l: int, i: int, j: int)
    requires ValidDims(d) && IsNode(d, Cell(l, i, j))
    ensures var s := Vertical(d, l, i, j);
            && DistinctLinks(d, Cell(l, i, j), s) && (forall a :: 0 <= a < |s| ==> s[a].Cell? && s[a].l != l)
            && |s| == One(l < d.nl - 1) + One(l > 0)
  {
  }

  lemma PeripheryLinks(d: Dims, l: int, i: int, j: int)
    requires ValidDims(d) && IsNode(d, Cell(l, i, j))
    ensures var s := Periphery(d, l, i, j);
            && DistinctLinks(d, Cell(l, i, j), s) && (forall a :: 0 <= a < |s| ==> s[a].Pack?)
            && |s| == if l >= d.nl - 2 then One(i == 0) + One(i == d.nr - 1) + One(j == 0) + One(j == d.nc - 1) else 0
  {
  }

  lemma CellNeighbours(d: Dims, l: int, i: int, j: int)
    requires ValidDims(d) && IsNode(d, Cell(l, i, j))
    ensures DistinctLinks(d, Cell(l, i, j), Neighbours(d, Cell(l, i, j)))
    ensures |Neighbours(d, Cell(l, i, j))| == CellDegree(d, l, i, j)
  {
    hide InLayer;
    hide Vertical;
    hide Periphery;
    hide Linked;
    hide IsNode;
    InLayerLinks(d, l, i, j);
    VerticalLinks(d, l, i, j);
    PeripheryLinks(d, l, i, j);
    JoinLinks(d, Cell(l, i, j), InLayer(d, l, i, j), Vertical(d, l, i, j));
    JoinLinks(d, Cell(l, i, j), InLayer(d, l, i, j) + Vertical(d, l, i, j), Periphery(d, l, i, j));
  }

  lemma JoinLinks(d: Dims, p: Node, s: seq<Node>, t: seq<Node>)
    requires DistinctLinks(d, p, s) && DistinctLinks(d, p, t)
    requires forall a, b :: 0 <= a < |s| && 0 <= b < |t| ==> s[a] != t[b]
    ensures DistinctLinks(d, p, s + t)
  {
    hide Linked;
    hide IsNode;
  }

  function One(c: bool): int {
    if c then 1 else 0
  }

  function CellDegree(d: Dims, l: int, i: int, j: int): int {
    One(i > 0) + One(i < d.nr - 1) + One(j > 0) + One(j < d.nc - 1) + One(l < d.nl - 1) + One(l > 0)
    + (if l >= d.nl - 2 then One(i == 0) + One(i == d.nr - 1) + One(j == 0) + One(j == d.nc - 1) else 0)
  }

  lemma CellNeighboursComplete(d: Dims, l: int, i: int, j: int, q: Node)
    requires ValidDims(d) && IsNode(d, Cell(l, i, j)) && IsNode(d, q) && Linked(d, Cell(l, i, j), q)
    ensures q in Neighbours(d, Cell(l, i, j))
  {
    var a, b, c := InLayer(d, l, i, j), Vertical(d, l, i, j), Periphery(d, l, i, j);
    assert q in a || q in b || q in c;
  }

  lemma BorderLinks(d: Dims, k: int)
    requires ValidDims(d) && 0 <= k < SINK
    ensures var group := if k >= SINK_C then SINK_C else SP;
            var s := BorderCells(d, if k >= SINK_C then Heatsink(d) else Spreader(d), k - group);
            DistinctLinks(d, Pack(k), s) && forall a :: 0 <= a < |s| ==> s[a].Cell?
  {
  }

  lemma PackLinks(d: Dims, k: int)
    requires ValidDims(d) && 0 <= k < EXTRA
    ensures k >= 4 ==> DistinctLinks(d, Pack(k), [Pack(k - 4)])
    ensures k < SINK ==> DistinctLinks(d, Pack(k), [Pack(k + 4)])
    ensures SINK_C <= k < SINK ==> DistinctLinks(d, Pack(k), [Pack(k - 4), Pack(k + 4)])
  {
  }

  lemma PackNeighbours(d: Dims, k: int)
    requires ValidDims(d) && 0 <= k < EXTRA
    ensures DistinctLinks(d, Pack(k), Neighbours(d, Pack(k)))
    ensures |Neighbours(d, Pack(k))| == PackDegree(d, k)
  {
    hide DistinctLinks;
    hide BorderCells;
    PackLinks(d, k);
    if k < SINK {
      BorderLinks(d, k);
      var s := if k >= SINK_C then BorderCells(d, Heatsink(d), k - SINK_C) else BorderCells(d, Spreader(d), k - SP);
      JoinLinks(d, Pack(k), s, if k >= SINK_C then [Pack(k - 4), Pack(k + 4)] else [Pack(k + 4)]);
    }
  }

  function PackDegree(d: Dims, k: int): int {
    if k >= SINK then 1
    else (if k % 4 == NORTH || k % 4 == SOUTH then d.nc else d.nr) + (if k >= SINK_C then 2 else 1)
  }

  lemma PackNeighboursComplete(d: Dims, k: int, q: Node)
    requires ValidDims(d) && 0 <= k < EXTRA && IsNode(d, q) && Linked(d, Pack(k), q)
    ensures q in Neighbours(d, Pack(k))
  {
    if q.Cell? {
      var group := if k >= SINK_C then SINK_C else SP;
      var s, side := BorderCells(d, q.l, k - group), k - group;
      assert s[if side == NORTH || side == SOUTH then q.j else q.i] == q;
      assert q in s;
    }
  }

  /** A row lists exactly the nodes linked to its own, each once. */
  lemma NeighboursAreLinks(d: Dims, p: Node)
    requires ValidDims(d) && IsNode(d, p)
    ensures NoDuplicates(Neighbours(d, p)) && p !in Neighbours(d, p)
    ensures forall q :: q in Neighbours(d, p) <==> IsNode(d, q) && Linked(d, p, q)
  {
    hide Neighbours;
    hide Linked;
    if p.Cell? {
      CellNeighbours(d, p.l, p.i, p.j);
    } else {
      PackNeighbours(d, p.k);
    }
    LinkedIsSymmetric(d, p, p);
    forall q | IsNode(d, q) && Linked(d, p, q) ensures q in Neighbours(d, p) {
      if p.Cell? {
        CellNeighboursComplete(d, p.l, p.i, p.j, q);
      } else {
        PackNeighboursComplete(d, p.k, q);
      }
    }
  }

  // ---------------------------------------------------------------- everything that is emitted

  /** One row: its neighbours, then its diagonal. */
  function RowOf(d: Dims, p: Node): (s: seq<(Node, Node)>)
    requires d.nr >= 0 && d.nc >= 0
    ensures |s| == |Neighbours(d, p)| + 1
  {
    seq(|Neighbours(d, p)|, a requires 0 <= a < |Neighbours(d, p)| => (p, Neighbours(d, p)[a])) + [(p, p)]
  }

  /** What the cell loops have emitted before cell (l, i, j). */
  function CellsUpTo(d: Dims, l: nat, i: nat, j: nat): seq<(Node, Node)>
    requires d.nr >= 0 && d.nc >= 0
    decreases l, i, j
  {
    if j > 0 then CellsUpTo(d, l, i, j - 1) + RowOf(d, Cell(l, i, j - 1))
    else if i > 0 then CellsUpTo(d, l, i - 1, d.nc)
    else if l > 0 then CellsUpTo(d, l - 1, d.nr, 0)
    else []
  }

  /** The order of the package rows. */
  const PACK_ORDER: seq<int> := [SINK + NORTH, SINK + SOUTH, SINK + WEST, SINK + EAST,
                                 SINK_C + NORTH, SINK_C + SOUTH, SINK_C + WEST, SINK_C + EAST,
                                 SP + NORTH, SP + SOUTH, SP + WEST, SP + EAST]

  function PacksUpTo(d: Dims, n: nat): seq<(Node, Node)>
    requires d.nr >= 0 && d.nc >= 0 && d.nl >= 0 && n <= |PACK_ORDER|
  {
    if n == 0 then CellsUpTo(d, d.nl, 0, 0) else PacksUpTo(d, n - 1) + RowOf(d, Pack(PACK_ORDER[n - 1]))
  }

  function AllEntries(d: Dims): seq<(Node, Node)>
    requires d.nr >= 0 && d.nc >= 0 && d.nl >= 0
  {
    PacksUpTo(d, |PACK_ORDER|)
  }

  // ---------------------------------------------------------------- how many

  /** The closed form the builder allocates for. */
  function Nnz(d: Dims): int {
    d.nl * (5 * (d.nr * d.nc) - 2 * (d.nr + d.nc)) + 2 * (d.nl - 1) * (d.nr * d.nc) + 8 * (d.nr + d.nc) + EXTRA + 16
  }

  function AtLeastZero(x: int): int {
    if x > 0 then x else 0
  }

  function AtMost(x: int, y: int): int {
    if x < y then x else y
  }

  /** Entries of the first j cells of a row. */
  function RowCount(d: Dims, l: int, i: int, j: int): int {
    j + (if i > 0 then j else 0) + (if i < d.nr - 1 then j else 0) + (if l < d.nl - 1 then j else 0) + (if l > 0 then j else 0)
    + AtLeastZero(j - 1) + AtMost(j, d.nc - 1)
    + (if l >= d.nl - 2 then (if i == 0 then j else 0) + (if i == d.nr - 1 then j else 0) + One(j > 0) + One(j == d.nc) else 0)
  }

  /** Entries of the first i rows of a layer. */
  function LayerCount(d: Dims, l: int, i: int): int {
    i * d.nc + (if l < d.nl - 1 then i * d.nc else 0) + (if l > 0 then i * d.nc else 0)
    + AtLeastZero(i - 1) * d.nc + AtMost(i, d.nr - 1) * d.nc + i * (2 * d.nc - 2)
    + (if l >= d.nl - 2 then 2 * i + (if i > 0 then d.nc else 0) + (if i == d.nr then d.nc else 0) else 0)
  }

  /** Entries of the first l layers. */
  function StackCount(d: Dims, l: int): int {
    l * (5 * (d.nr * d.nc) - 2 * (d.nr + d.nc)) + AtLeastZero(l - 1) * (d.nr * d.nc) + AtMost(l, d.nl - 1) * (d.nr * d.nc)
    + 2 * AtLeastZero(l - (d.nl - 2)) * (d.nr + d.nc)
  }

  lemma LayerStep(d: Dims, l: int, i: int)
    requires ValidDims(d) && 0 <= i < d.nr && 0 <= l < d.nl
    ensures LayerCount(d, l, i + 1) == LayerCount(d, l, i) + RowCount(d, l, i, d.nc)
  {
    Next(i, d.nc);
    Next(i, 2 * d.nc - 2);
    Next(i - 1, d.nc);
  }

  lemma Next(x: int, y: int)
    ensures (x + 1) * y == x * y + y
  {
  }

  lemma LayerTotal(d: Dims, l: int)
    requires ValidDims(d) && 0 <= l < d.nl
    ensures LayerCount(d, l, d.nr)
         == 5 * (d.nr * d.nc) - 2 * (d.nr + d.nc) + (if l < d.nl - 1 then d.nr * d.nc else 0) + (if l > 0 then d.nr * d.nc else 0)
          + (if l >= d.nl - 2 then 2 * (d.nr + d.nc) else 0)
  {
    Next(d.nr - 1, d.nc);
    assert d.nr * (2 * d.nc - 2) == 2 * (d.nr * d.nc) - 2 * d.nr;
  }

  lemma StackStep(d: Dims, l: int)
    requires ValidDims(d) && 0 <= l < d.nl
    ensures StackCount(d, l + 1) == StackCount(d, l) + LayerCount(d, l, d.nr)
  {
    hide LayerCount;
    LayerTotal(d, l);
  }

  lemma {:induction false} CellsCount(d: Dims, l: nat, i: nat, j: nat)
    requires ValidDims(d) && l <= d.nl && i <= d.nr && j <= d.nc && (l == d.nl ==> i == 0) && (i == d.nr ==> j == 0)
    requires l == d.nl ==> j == 0
    ensures |CellsUpTo(d, l, i, j)| == StackCount(d, l) + (if l < d.nl then LayerCount(d, l, i) else 0)
              + (if l < d.nl && i < d.nr then RowCount(d, l, i, j) else 0)
    decreases l, i, j
  {
    hide LayerCount;
    hide StackCount;
    hide Neighbours;
    hide RowCount;
    hide CellDegree;
    hide DistinctLinks;
    ZeroCounts(d, l, i);
    if j > 0 {
      CellsCount(d, l, i, j - 1);
      CellNeighbours(d, l, i, j - 1);
      RowStep(d, l, i, j - 1);
    } else if i > 0 {
      RowsCount(d, l, i - 1);
      LayerStep(d, l, i - 1);
    } else if l > 0 {
      LayersCount(d, l - 1);
      StackStep(d, l - 1);
    }
  }

  lemma RowStep(d: Dims, l: int, i: int, j: int)
    requires ValidDims(d) && IsNode(d, Cell(l, i, j))
    ensures RowCount(d, l, i, j + 1) == RowCount(d, l, i, j) + CellDegree(d, l, i, j) + 1
  {
  }

  lemma ZeroCounts(d: Dims, l: int, i: int)
    requires ValidDims(d)
    ensures LayerCount(d, l, 0) == 0 && StackCount(d, 0) == 0 && RowCount(d, l, i, 0) == 0
  {
  }

  lemma {:induction false} RowsCount(d: Dims, l: nat, i: nat)
    requires ValidDims(d) && l < d.nl && i < d.nr
    ensures |CellsUpTo(d, l, i, d.nc)| == StackCount(d, l) + LayerCount(d, l, i) + RowCount(d, l, i, d.nc)
    decreases l, i, d.nc
  {
    hide LayerCount;
    hide StackCount;
    hide Neighbours;
    hide RowCount;
    hide CellDegree;
    hide DistinctLinks;
    CellsCount(d, l, i, d.nc - 1);
    CellNeighbours(d, l, i, d.nc - 1);
    RowStep(d, l, i, d.nc - 1);
  }

  lemma {:induction false} LayersCount(d: Dims, l: nat)
    requires ValidDims(d) && l < d.nl
    ensures |CellsUpTo(d, l, d.nr, 0)| == StackCount(d, l) + LayerCount(d, l, d.nr)
    decreases l, d.nr, 0
  {
    hide LayerCount;
    hide StackCount;
    hide Neighbours;
    RowsCount(d, l, d.nr - 1);
    LayerStep(d, l, d.nr - 1);
  }

  /** The builder emits exactly as many entries as it allocated: its final check cannot fail. */
  lemma EntryCount(d: Dims)
    requires ValidDims(d)
    ensures |AllEntries(d)| == Nnz(d)
  {
    hide Neighbours;
    hide CellsUpTo;
    CellsCount(d, d.nl, 0, 0);
    PacksCount(d, 12);
  }

  /** Entries of the first n package rows. */
  function PackCount(d: Dims, n: nat): int
    requires n <= |PACK_ORDER|
  {
    if n == 0 then 0 else PackCount(d, n - 1) + PackDegree(d, PACK_ORDER[n - 1]) + 1
  }

  lemma {:induction false} PacksCount(d: Dims, n: nat)
    requires ValidDims(d) && n <= 12
    ensures |PacksUpTo(d, n)| == |CellsUpTo(d, d.nl, 0, 0)| + PackCount(d, n)
    ensures PackCount(d, 12) == 4 * (d.nr + d.nc) + 28
  {
    hide Neighbours;
    hide CellsUpTo;
    if n > 0 {
      PacksCount(d, n - 1);
      PackNeighbours(d, PACK_ORDER[n - 1]);
    }
    PackTotal(d);
  }

  lemma PackTotal(d: Dims)
    ensures PackCount(d, 12) == 4 * (d.nr + d.nc) + 28
  {
    assert PackCount(d, 1) == 2;
    assert PackCount(d, 2) == 4;
    assert PackCount(d, 3) == 6;
    assert PackCount(d, 4) == 8;
    assert PackCount(d, 5) == 8 + d.nc + 3;
    assert PackCount(d, 6) == 8 + 2 * d.nc + 6;
    assert PackCount(d, 7) == 8 + 2 * d.nc + d.nr + 9;
    assert PackCount(d, 8) == 8 + 2 * d.nc + 2 * d.nr + 12;
    assert PackCount(d, 9) == 20 + 3 * d.nc + 2 * d.nr + 2;
    assert PackCount(d, 10) == 20 + 4 * d.nc + 2 * d.nr + 4;
    assert PackCount(d, 11) == 20 + 4 * d.nc + 3 * d.nr + 6;
  }

  // ---------------------------------------------------------------- which

  ghost predicate NoRepeats(s: seq<(Node, Node)>) {
    forall a, b :: 0 <= a < b < |s| ==> s[a] != s[b]
  }

  predicate InPattern(d: Dims, p: Node, q: Node) {
    IsNode(d, p) && IsNode(d, q) && (p == q || Linked(d, p, q))
  }

  /** The rows of the nodes in done, and nothing else, each coordinate once. */
  ghost predicate Emitted(d: Dims, s: seq<(Node, Node)>, done: Node -> bool) {
    NoRepeats(s) && forall p, q :: (p, q) in s <==> done(p) && InPattern(d, p, q)
  }

  lemma RowIs(d: Dims, p: Node)
    requires ValidDims(d) && IsNode(d, p)
    ensures NoRepeats(RowOf(d, p))
    ensures forall x: (Node, Node) :: x in RowOf(d, p) <==> x.0 == p && InPattern(d, p, x.1)
  {
    hide Neighbours;
    hide Linked;
    hide IsNode;
    NeighboursAreLinks(d, p);
    var n, r := Neighbours(d, p), RowOf(d, p);
    forall x: (Node, Node) ensures x in r <==> x.0 == p && InPattern(d, p, x.1) {
      if x in r {
        var a :| 0 <= a < |r| && r[a] == x;
        assert a < |n| ==> n[a] in n;
      }
      if x.0 == p && InPattern(d, p, x.1) {
        if x.1 == p {
          assert r[|n|] == x;
        } else {
          var a :| 0 <= a < |n| && n[a] == x.1;
          assert r[a] == x;
        }
      }
    }
    forall a, b | 0 <= a < b < |r| ensures r[a] != r[b] {
      assert a < |n| ==> n[a] in n;
    }
  }

  lemma EmitRow(d: Dims, s: seq<(Node, Node)>, done: Node -> bool, p: Node, done': Node -> bool)
    requires ValidDims(d) && Emitted(d, s, done) && IsNode(d, p) && !done(p)
    requires forall x :: done'(x) <==> done(x) || x == p
    ensures Emitted(d, s + RowOf(d, p), done')
  {
    hide RowOf;
    hide InPattern;
    RowIs(d, p);
    var r := RowOf(d, p);
    var t := s + r;
    forall a, b | 0 <= a < b < |t| ensures t[a] != t[b] {
      if a < |s| <= b {
        assert t[a] in s && t[b] in r;
        assert done(t[a].0);
      }
    }
    forall x, y ensures (x, y) in t <==> done'(x) && InPattern(d, x, y) {
      assert (x, y) in t <==> (x, y) in s || (x, y) in r;
    }
  }

  predicate CellBefore(d: Dims, x: Node, l: int, i: int, j: int) {
    x.Cell? && IsNode(d, x) && (x.l < l || (x.l == l && (x.i < i || (x.i == i && x.j < j))))
  }

  lemma CellsUnfold(d: Dims, l: nat, i: nat, j: nat)
    requires ValidDims(d)
    ensures j > 0 ==> CellsUpTo(d, l, i, j) == CellsUpTo(d, l, i, j - 1) + RowOf(d, Cell(l, i, j - 1))
    ensures j == 0 && i > 0 ==> CellsUpTo(d, l, i, j) == CellsUpTo(d, l, i - 1, d.nc)
    ensures j == 0 && i == 0 && l > 0 ==> CellsUpTo(d, l, i, j) == CellsUpTo(d, l - 1, d.nr, 0)
    ensures j == 0 && i == 0 && l == 0 ==> CellsUpTo(d, l, i, j) == []
  {
    hide RowOf;
  }

  lemma BeforeSteps(d: Dims, l: int, i: int, j: int)
    requires ValidDims(d)
    ensures IsNode(d, Cell(l, i, j)) ==>
      forall x :: CellBefore(d, x, l, i, j + 1) <==> CellBefore(d, x, l, i, j) || x == Cell(l, i, j)
    ensures !CellBefore(d, Cell(l, i, j), l, i, j)
    ensures forall x :: CellBefore(d, x, l, i, d.nc) <==> CellBefore(d, x, l, i + 1, 0)
    ensures forall x :: CellBefore(d, x, l, d.nr, 0) <==> CellBefore(d, x, l + 1, 0, 0)
    ensures forall x :: !CellBefore(d, x, 0, 0, 0)
  {
  }

  lemma {:induction false} CellsEmitted(d: Dims, l: nat, i: nat, j: nat)
    requires ValidDims(d) && l <= d.nl && i <= d.nr && j <= d.nc && (l == d.nl ==> i == 0) && (i == d.nr || l == d.nl ==> j == 0)
    ensures Emitted(d, CellsUpTo(d, l, i, j), x => CellBefore(d, x, l, i, j))
    decreases l, i, j
  {
    hide RowOf;
    hide Emitted;
    hide CellsUpTo;
    hide CellBefore;
    CellsUnfold(d, l, i, j);
    BeforeSteps(d, l, i, j - 1);
    BeforeSteps(d, l, i - 1, j);
    BeforeSteps(d, l - 1, i, j);
    if j > 0 {
      CellsEmitted(d, l, i, j - 1);
      EmitRow(d, CellsUpTo(d, l, i, j - 1), x => CellBefore(d, x, l, i, j - 1), Cell(l, i, j - 1),
        x => CellBefore(d, x, l, i, j));
    } else if i > 0 {
      CellsOfRowEmitted(d, l, i - 1);
      SameDone(d, CellsUpTo(d, l, i - 1, d.nc), x => CellBefore(d, x, l, i - 1, d.nc), x => CellBefore(d, x, l, i, 0));
    } else if l > 0 {
      CellsOfLayerEmitted(d, l - 1);
      SameDone(d, CellsUpTo(d, l - 1, d.nr, 0), x => CellBefore(d, x, l - 1, d.nr, 0), x => CellBefore(d, x, l, 0, 0));
    } else {
      NothingEmitted(d, x => CellBefore(d, x, 0, 0, 0));
    }
  }

  lemma SameDone(d: Dims, s: seq<(Node, Node)>, done: Node -> bool, done': Node -> bool)
    requires Emitted(d, s, done) && forall x :: done(x) <==> done'(x)
    ensures Emitted(d, s, done')
  {
  }

  lemma NothingEmitted(d: Dims, done: Node -> bool)
    requires forall x :: !done(x)
    ensures Emitted(d, [], done)
  {
  }

  lemma {:induction false} CellsOfRowEmitted(d: Dims, l: nat, i: nat)
    requires ValidDims(d) && l < d.nl && i < d.nr
    ensures Emitted(d, CellsUpTo(d, l, i, d.nc), x => CellBefore(d, x, l, i, d.nc))
    decreases l, i, d.nc
  {
    hide RowOf;
    hide Emitted;
    hide CellsUpTo;
    hide CellBefore;
    CellsUnfold(d, l, i, d.nc);
    BeforeSteps(d, l, i, d.nc - 1);
    CellsEmitted(d, l, i, d.nc - 1);
    EmitRow(d, CellsUpTo(d, l, i, d.nc - 1), x => CellBefore(d, x, l, i, d.nc - 1), Cell(l, i, d.nc - 1),
      x => CellBefore(d, x, l, i, d.nc));
  }

  lemma {:induction false} CellsOfLayerEmitted(d: Dims, l: nat)
    requires ValidDims(d) && l < d.nl
    ensures Emitted(d, CellsUpTo(d, l, d.nr, 0), x => CellBefore(d, x, l, d.nr, 0))
    decreases l, d.nr, 0
  {
    hide RowOf;
    hide Emitted;
    hide CellsUpTo;
    hide CellBefore;
    CellsUnfold(d, l, d.nr, 0);
    BeforeSteps(d, l, d.nr - 1, 0);
    CellsOfRowEmitted(d, l, d.nr - 1);
    SameDone(d, CellsUpTo(d, l, d.nr - 1, d.nc), x => CellBefore(d, x, l, d.nr - 1, d.nc), x => CellBefore(d, x, l, d.nr, 0));
  }

  predicate RowDone(d: Dims, x: Node, n: nat)
    requires n <= |PACK_ORDER|
  {
    IsNode(d, x) && (x.Cell? || x.k in PACK_ORDER[..n])
  }

  lemma {:induction false} PacksEmitted(d: Dims, n: nat)
    requires ValidDims(d) && n <= 12
    ensures Emitted(d, PacksUpTo(d, n), x => RowDone(d, x, n))
  {
    hide RowOf;
    hide Emitted;
    hide CellsUpTo;
    if n == 0 {
      CellsEmitted(d, d.nl, 0, 0);
      SameDone(d, CellsUpTo(d, d.nl, 0, 0), x => CellBefore(d, x, d.nl, 0, 0), x => RowDone(d, x, 0));
    } else {
      PacksEmitted(d, n - 1);
      var k := PACK_ORDER[n - 1];
      assert PACK_ORDER[..n] == PACK_ORDER[..n - 1] + [k];
      OrderIsFresh(n - 1);
      EmitRow(d, PacksUpTo(d, n - 1), x => RowDone(d, x, n - 1), Pack(k), x => RowDone(d, x, n));
    }
  }

  lemma OrderIsFresh(n: nat)
    requires n < 12
    ensures 0 <= PACK_ORDER[n] < EXTRA && PACK_ORDER[n] !in PACK_ORDER[..n]
  {
    forall a | 0 <= a < n ensures PACK_ORDER[a] != PACK_ORDER[n] {
    }
  }

  lemma OrderIsAll(k: int)
    requires 0 <= k < EXTRA
    ensures k in PACK_ORDER[..12]
  {
    assert PACK_ORDER[..12] == PACK_ORDER;
    assert PACK_ORDER[0] == 10 && PACK_ORDER[1] == 11 && PACK_ORDER[2] == 8 && PACK_ORDER[3] == 9;
    assert PACK_ORDER[4] == 6 && PACK_ORDER[5] == 7 && PACK_ORDER[6] == 4 && PACK_ORDER[7] == 5;
    assert PACK_ORDER[8] == 2 && PACK_ORDER[9] == 3 && PACK_ORDER[10] == 0 && PACK_ORDER[11] == 1;
  }

  /** The coordinates emitted are those of linked nodes and of the diagonal, each exactly once: the pattern is
      symmetric and has a full diagonal. */
  lemma PatternIsExact(d: Dims)
    requires ValidDims(d)
    ensures NoRepeats(AllEntries(d))
    ensures forall p, q :: (p, q) in AllEntries(d) <==> InPattern(d, p, q)
    ensures forall p, q :: (p, q) in AllEntries(d) <==> (q, p) in AllEntries(d)
  {
    hide PacksUpTo;
    hide Linked;
    PacksEmitted(d, 12);
    forall p, q ensures (p, q) in AllEntries(d) <==> InPattern(d, p, q) {
      if p.Pack? && IsNode(d, p) {
        OrderIsAll(p.k);
      }
    }
    forall p, q ensures InPattern(d, p, q) <==> InPattern(d, q, p) {
      LinkedIsSymmetric(d, p, q);
    }
  }
}
