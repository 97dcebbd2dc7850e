/** The matrix behind the compressed columns of the grid model: a resistor network whose only way out is the
    ambient (temperature_grid.c). */
module GridNetwork {
  import opened RealMatrix
  import opened Lup
  import opened Conductance
  import opened GridMatrix
  import opened GridMatrixState
  import CompressedColumns

  // ---------------------------------------------------------------- nodes by number

  /** The node with number q. */
  function NodeAt(d: Dims, q: int): Node
    requires ValidDims(d)
  {
    if q >= d.nl * d.nr * d.nc then Pack(q - d.nl * d.nr * d.nc) else Cell(q / d.nc / d.nr, q / d.nc % d.nr, q % d.nc)
  }

  lemma NodeOfIndex(d: Dims, p: Node)
    requires ValidDims(d) && IsNode(d, p)
    ensures 0 <= Index(d, p) < Size(d) && NodeAt(d, Index(d, p)) == p
  {
    IndexRange(d, p);
    if p.Cell? {
      var q, r := Index(d, p), p.l * d.nr + p.i;
      DigitsUnique(q / d.nc, q % d.nc, r, p.j, d.nc);
      DigitsUnique(r / d.nr, r % d.nr, p.l, p.i, d.nr);
    }
  }

  lemma DivMod(q: int, n: int)
    requires n > 0
    ensures q == q / n * n + q % n && 0 <= q % n < n
  {
  }

  lemma DigitsNumber(d: Dims, l: int, i: int, j: int, r: int, q: int)
    requires r == l * d.nr + i && q == r * d.nc + j
    ensures Index(d, Cell(l, i, j)) == q
  {
  }

  lemma CellOfNumber(d: Dims, q: int)
    requires ValidDims(d) && 0 <= q < d.nl * d.nr * d.nc
    ensures var p := Cell(q / d.nc / d.nr, q / d.nc % d.nr, q % d.nc); IsNode(d, p) && Index(d, p) == q
  {
    hide Index;
    var r := q / d.nc;
    DivMod(q, d.nc);
    DivMod(r, d.nr);
    QuotientBelow(q, d.nl * d.nr, d.nc);
    QuotientBelow(r, d.nl, d.nr);
    DigitsNumber(d, r / d.nr, r % d.nr, q % d.nc, r, q);
  }

  lemma IndexOfNode(d: Dims, q: int)
    requires ValidDims(d) && 0 <= q < Size(d)
    ensures IsNode(d, NodeAt(d, q)) && Index(d, NodeAt(d, q)) == q
  {
    if q < d.nl * d.nr * d.nc {
      CellOfNumber(d, q);
    }
  }

  lemma QuotientBelow(q: int, m: int, n: int)
    requires 0 <= q < m * n && n > 0
    ensures 0 <= q / n < m
  {
    Next(m - 1, n);
    if q / n >= m {
      Spaced(m - 1, q / n, n);
    }
  }

  // ---------------------------------------------------------------- the matrix

  function EntryOf(d: Dims, c: Conductances, p: Node, q: Node): real
    requires ValidDims(d)
  {
    if p == q || Linked(d, p, q) then ValueAt(d, c, p, q) else 0.0
  }

  function Dense(d: Dims, c: Conductances): (b: Matrix)
    requires ValidDims(d)
    ensures Size(d) > 0 && |b| == Size(d)
  {
    IndexRange(d, Pack(0));
    seq(Size(d), i => seq(Size(d), j => EntryOf(d, c, NodeAt(d, i), NodeAt(d, j))))
  }

  function AmbientOf(d: Dims, c: Conductances): (v: Vector)
    requires ValidDims(d)
    ensures Size(d) > 0 && |v| == Size(d)
  {
    IndexRange(d, Pack(0));
    seq(Size(d), i => c.ambient(NodeAt(d, i)))
  }

  lemma DenseAt(d: Dims, c: Conductances, i: int, j: int)
    requires ValidDims(d) && 0 <= i < Size(d) && 0 <= j < Size(d)
    ensures At(Dense(d, c), i, j) == EntryOf(d, c, NodeAt(d, i), NodeAt(d, j))
    ensures Elem(AmbientOf(d, c), i) == c.ambient(NodeAt(d, i))
    ensures IsSquare(Dense(d, c), Size(d))
  {
    hide EntryOf;
    hide NodeAt;
  }

  /** The entries are exactly the non-zero pattern of the matrix with its values. */
  ghost predicate Represents(s: seq<CompressedColumns.Coo>, b: Matrix, n: nat) {
    && (forall a :: 0 <= a < |s| ==> 0 <= s[a].x < n && 0 <= s[a].y < n && At(b, s[a].x, s[a].y) == s[a].val)
    && (forall i, j :: 0 <= i < n && 0 <= j < n && At(b, i, j) != 0.0 ==> exists a :: 0 <= a < |s| && s[a].x == i && s[a].y == j)
  }

  lemma EmittedRepresents(d: Dims, c: Conductances)
    requires ValidDims(d)
    ensures Represents(CooOf(d, c, AllEntries(d)), Dense(d, c), Size(d))
  {
    hide AllEntries;
    hide Dense;
    hide Index;
    hide NodeAt;
    hide ValueAt;
    PatternIsExact(d);
    var s, t, b := AllEntries(d), CooOf(d, c, AllEntries(d)), Dense(d, c);
    forall a | 0 <= a < |t| ensures 0 <= t[a].x < Size(d) && 0 <= t[a].y < Size(d) && At(b, t[a].x, t[a].y) == t[a].val {
      assert (s[a].0, s[a].1) in s;
      NodeOfIndex(d, s[a].0);
      NodeOfIndex(d, s[a].1);
      DenseAt(d, c, t[a].x, t[a].y);
    }
    forall i, j | 0 <= i < Size(d) && 0 <= j < Size(d) && At(b, i, j) != 0.0
      ensures exists a :: 0 <= a < |t| && t[a].x == i && t[a].y == j
    {
      DenseAt(d, c, i, j);
      IndexOfNode(d, i);
      IndexOfNode(d, j);
      assert InPattern(d, NodeAt(d, i), NodeAt(d, j));
      assert (NodeAt(d, i), NodeAt(d, j)) in s;
      var a :| 0 <= a < |s| && s[a] == (NodeAt(d, i), NodeAt(d, j));
      assert t[a].x == i && t[a].y == j;
    }
  }

  lemma RearrangedRepresents(s: seq<CompressedColumns.Coo>, t: seq<CompressedColumns.Coo>, b: Matrix, n: nat)
    requires multiset(s) == multiset(t) && Represents(t, b, n)
    ensures Represents(s, b, n)
  {
    hide At;
    forall a | 0 <= a < |s| ensures 0 <= s[a].x < n && 0 <= s[a].y < n && At(b, s[a].x, s[a].y) == s[a].val {
      assert s[a] in multiset(s) && s[a] in multiset(t);
    }
    forall i, j | 0 <= i < n && 0 <= j < n && At(b, i, j) != 0.0 ensures exists a :: 0 <= a < |s| && s[a].x == i && s[a].y == j {
      var k :| 0 <= k < |t| && t[k].x == i && t[k].y == j;
      assert t[k] in multiset(t) && t[k] in multiset(s);
    }
  }

  // ---------------------------------------------------------------- row sums

  /** The conductance from p to node number j if that is among s. */
  function LinkTo(d: Dims, c: Conductances, p: Node, s: seq<Node>, j: int): real
    requires ValidDims(d)
  {
    if 0 <= j < Size(d) && NodeAt(d, j) in s then c.link(p, NodeAt(d, j)) else 0.0
  }

  lemma {:induction false} LinksAddUp(d: Dims, c: Conductances, p: Node, s: seq<Node>)
    requires ValidDims(d) && NoDuplicates(s) && forall a :: 0 <= a < |s| ==> IsNode(d, s[a])
    ensures Sum(0, Size(d), j => LinkTo(d, c, p, s, j)) == LinkSum(c, p, s)
  {
    hide Sum;
    hide NodeAt;
    hide Index;
    var n := Size(d);
    var f := j => LinkTo(d, c, p, s, j);
    if s == [] {
      SumZero(0, n, f);
    } else {
      var init, q := s[..|s| - 1], s[|s| - 1];
      LinksAddUp(d, c, p, init);
      NodeOfIndex(d, q);
      var g, h := j => LinkTo(d, c, p, init, j), j => if j == Index(d, q) then c.link(p, q) else 0.0;
      forall j | 0 <= j < n ensures f(j) == g(j) + h(j) {
        LastLink(d, c, p, s, j);
      }
      SumEqual(0, n, f, j => g(j) + h(j));
      SumAdd(0, n, g, h);
      SumSingle(0, n, Index(d, q), h);
    }
  }

  lemma LastLink(d: Dims, c: Conductances, p: Node, s: seq<Node>, j: int)
    requires ValidDims(d) && |s| > 0 && NoDuplicates(s) && IsNode(d, s[|s| - 1]) && 0 <= j < Size(d)
    ensures LinkTo(d, c, p, s, j) == LinkTo(d, c, p, s[..|s| - 1], j)
              + (if j == Index(d, s[|s| - 1]) then c.link(p, s[|s| - 1]) else 0.0)
  {
    hide NodeAt;
    hide Index;
    var init, q := s[..|s| - 1], s[|s| - 1];
    NodeOfIndex(d, q);
    IndexOfNode(d, j);
    assert s == init + [q];
    assert q !in init;
    assert j == Index(d, q) <==> NodeAt(d, j) == q;
  }

  lemma RowSum(d: Dims, c: Conductances, i: int)
    requires ValidDims(d) && 0 <= i < Size(d)
    ensures Sum(0, Size(d), j => At(Dense(d, c), i, j)) == Elem(AmbientOf(d, c), i)
  {
    hide Sum;
    hide At;
    hide Elem;
    hide Dense;
    hide AmbientOf;
    hide NodeAt;
    hide Neighbours;
    hide LinkTo;
    hide LinkSum;
    var n, p := Size(d), NodeAt(d, i);
    IndexOfNode(d, i);
    NeighboursAreLinks(d, p);
    var s := Neighbours(d, p);
    LinksAddUp(d, c, p, s);
    var dia := LinkSum(c, p, s) + c.ambient(p);
    var row, off, single := j => At(Dense(d, c), i, j), j => LinkTo(d, c, p, s, j), j => if j == i then dia else 0.0;
    forall j | 0 <= j < n ensures row(j) == single(j) + -1.0 * off(j) {
      RowEntry(d, c, i, j);
    }
    SumEqual(0, n, row, j => single(j) + -1.0 * off(j));
    var negative := j => -1.0 * off(j);
    SumAdd(0, n, single, negative);
    SumEqual(0, n, j => single(j) + -1.0 * off(j), j => single(j) + negative(j));
    SumScale(0, n, -1.0, off);
    SumSingle(0, n, i, single);
    DenseAt(d, c, i, i);
  }

  lemma RowEntry(d: Dims, c: Conductances, i: int, j: int)
    requires ValidDims(d) && 0 <= i < Size(d) && 0 <= j < Size(d)
    ensures var p := NodeAt(d, i);
            At(Dense(d, c), i, j) == (if j == i then LinkSum(c, p, Neighbours(d, p)) + c.ambient(p) else 0.0)
                                     + -1.0 * LinkTo(d, c, p, Neighbours(d, p), j)
  {
    hide At;
    hide Dense;
    hide NodeAt;
    hide Neighbours;
    hide Linked;
    hide Index;
    var p, q := NodeAt(d, i), NodeAt(d, j);
    DenseAt(d, c, i, j);
    IndexOfNode(d, i);
    IndexOfNode(d, j);
    NeighboursAreLinks(d, p);
    LinkedIsSymmetric(d, p, p);
    assert i == j <==> p == q;
  }

  // ---------------------------------------------------------------- a network

  /** Conductances as the resistances of a package give them: the same both ways, positive where nodes are joined. */
  ghost predicate Physical(d: Dims, c: Conductances) {
    && (forall p, q :: IsNode(d, p) && IsNode(d, q) && Linked(d, p, q) ==> c.link(p, q) == c.link(q, p) > 0.0)
    && (forall p :: IsNode(d, p) ==> c.ambient(p) >= 0.0)
  }

  /** The matrix of the grid model is a resistor network. */
  lemma GridIsNetwork(d: Dims, c: Conductances)
    requires ValidDims(d) && Physical(d, c)
    ensures IsNetwork(Dense(d, c), AmbientOf(d, c), Size(d))
  {
    hide Sum;
    hide At;
    hide Elem;
    hide Dense;
    hide AmbientOf;
    hide NodeAt;
    hide Index;
    hide LinkSum;
    hide Linked;
    var n, b := Size(d), Dense(d, c);
    forall i | 0 <= i < n
      ensures Elem(AmbientOf(d, c), i) >= 0.0
      ensures Sum(0, n, j => At(b, i, j)) == Elem(AmbientOf(d, c), i)
    {
      IndexOfNode(d, i);
      DenseAt(d, c, i, i);
      RowSum(d, c, i);
    }
    forall i, j | 0 <= i < n && 0 <= j < n ensures At(b, i, j) == At(b, j, i) && (i != j ==> At(b, i, j) <= 0.0) {
      IndexOfNode(d, i);
      IndexOfNode(d, j);
      DenseAt(d, c, i, j);
      DenseAt(d, c, j, i);
      LinkedIsSymmetric(d, NodeAt(d, i), NodeAt(d, j));
    }
    DenseAt(d, c, 0, 0);
  }

  // ---------------------------------------------------------------- the heat of one node

  /** The conductance between two nodes of the package. */
  function Joins(d: Dims, c: Conductances, p: Node, q: Node): real {
    if Linked(d, p, q) then c.link(p, q) else 0.0
  }

  /** The heat that leaves node p at temperatures x: to ambient, and through the resistors to the nodes it is joined to. */
  ghost function HeatLeaving(d: Dims, c: Conductances, x: Vector, p: Node): real
    requires ValidDims(d)
  {
    c.ambient(p) * Elem(x, Index(d, p))
    + Sum(0, Size(d), j => Joins(d, c, p, NodeAt(d, j)) * (Elem(x, Index(d, p)) - Elem(x, j)))
  }

  /** A row of the matrix times the temperatures is the heat leaving the row's node. */
  lemma NodeHeat(d: Dims, c: Conductances, x: Vector, p: Node)
    requires ValidDims(d) && Physical(d, c) && IsNode(d, p)
    ensures 0 <= Index(d, p) < Size(d)
    ensures RowTimes(Dense(d, c), Index(d, p), x, Size(d)) == HeatLeaving(d, c, x, p)
  {
    hide Sum;
    hide At;
    hide Elem;
    hide Dense;
    hide AmbientOf;
    hide NodeAt;
    hide Index;
    hide Linked;
    hide LinkSum;
    hide RowTimes;
    var b, n, i := Dense(d, c), Size(d), Index(d, p);
    NodeOfIndex(d, p);
    GridIsNetwork(d, c);
    RowIsHeat(b, AmbientOf(d, c), i, x, n);
    DenseAt(d, c, i, i);
    var f, g := j => Link(b, i, j) * (Elem(x, i) - Elem(x, j)), j => Joins(d, c, p, NodeAt(d, j)) * (Elem(x, i) - Elem(x, j));
    forall j | 0 <= j < n ensures f(j) == g(j) {
      JoinsIsLink(d, c, p, j);
    }
    SumEqual(0, n, f, g);
  }

  lemma JoinsIsLink(d: Dims, c: Conductances, p: Node, j: int)
    requires ValidDims(d) && IsNode(d, p) && 0 <= j < Size(d)
    ensures Joins(d, c, p, NodeAt(d, j)) == Link(Dense(d, c), Index(d, p), j)
  {
    hide At;
    hide Dense;
    hide NodeAt;
    hide Index;
    hide LinkSum;
    NodeOfIndex(d, p);
    IndexOfNode(d, j);
    DenseAt(d, c, Index(d, p), j);
  }

  // ---------------------------------------------------------------- every node is connected to every other

  ghost predicate HasWay(d: Dims, c: Conductances, p: Node)
    requires ValidDims(d)
  {
    Connected(Dense(d, c), AmbientOf(d, c), Size(d), Index(d, p))
  }

  lemma LinkedShareWay(d: Dims, c: Conductances, p: Node, q: Node)
    requires ValidDims(d) && Physical(d, c) && IsNode(d, p) && IsNode(d, q) && Linked(d, p, q)
    ensures HasWay(d, c, p) <==> HasWay(d, c, q)
  {
    hide At;
    hide Dense;
    hide AmbientOf;
    hide NodeAt;
    hide Index;
    hide Connected;
    hide IsNetwork;
    hide Linked;
    var i, j := Index(d, p), Index(d, q);
    GridIsNetwork(d, c);
    NodeOfIndex(d, p);
    NodeOfIndex(d, q);
    DenseAt(d, c, i, j);
    LinkedIsSymmetric(d, p, q);
    assert i != j && Link(Dense(d, c), i, j) == c.link(p, q);
    BothConnected(Dense(d, c), AmbientOf(d, c), Size(d), i, j);
  }

  /** From any cell one can walk to the first one. */
  lemma {:induction false} CellSharesWay(d: Dims, c: Conductances, l: nat, i: nat, j: nat)
    requires ValidDims(d) && Physical(d, c) && IsNode(d, Cell(l, i, j))
    ensures HasWay(d, c, Cell(l, i, j)) <==> HasWay(d, c, Cell(0, 0, 0))
    decreases l + i + j
  {
    hide HasWay;
    hide Physical;
    if j > 0 {
      LinkedShareWay(d, c, Cell(l, i, j), Cell(l, i, j - 1));
      CellSharesWay(d, c, l, i, j - 1);
    } else if i > 0 {
      LinkedShareWay(d, c, Cell(l, i, j), Cell(l, i - 1, j));
      CellSharesWay(d, c, l, i - 1, j);
    } else if l > 0 {
      LinkedShareWay(d, c, Cell(l, i, j), Cell(l - 1, i, j));
      CellSharesWay(d, c, l - 1, i, j);
    }
  }

  lemma {:induction false} PackSharesWay(d: Dims, c: Conductances, k: nat)
    requires ValidDims(d) && Physical(d, c) && k < EXTRA
    ensures HasWay(d, c, Pack(k)) <==> HasWay(d, c, Cell(0, 0, 0))
    decreases k
  {
    hide HasWay;
    hide Physical;
    if k >= SINK {
      LinkedShareWay(d, c, Pack(k), Pack(k - 4));
      PackSharesWay(d, c, k - 4);
    } else {
      var group, layer := if k >= SINK_C then SINK_C else SP, if k >= SINK_C then d.nl - 1 else d.nl - 2;
      var side := k - group;
      var i, j := if side == SOUTH then d.nr - 1 else 0, if side == EAST then d.nc - 1 else 0;
      LinkedShareWay(d, c, Pack(k), Cell(layer, i, j));
      CellSharesWay(d, c, layer, i, j);
    }
  }

  lemma AllShareWay(d: Dims, c: Conductances, p: Node)
    requires ValidDims(d) && Physical(d, c) && IsNode(d, p)
    ensures HasWay(d, c, p) <==> HasWay(d, c, Cell(0, 0, 0))
  {
    hide HasWay;
    hide Physical;
    if p.Cell? {
      CellSharesWay(d, c, p.l, p.i, p.j);
    } else {
      PackSharesWay(d, c, p.k);
    }
  }

  lemma {:induction false} SomeAmbient(b: Matrix, amb: Vector, n: nat, i: int, s: nat) returns (k: int)
    requires Reaches(b, amb, n, i, s)
    ensures 0 <= k < n && Elem(amb, k) > 0.0
    decreases s
  {
    if Elem(amb, i) > 0.0 {
      k := i;
    } else {
      var j :| 0 <= j < n && Link(b, i, j) > 0.0 && Reaches(b, amb, n, j, s - 1);
      k := SomeAmbient(b, amb, n, j, s - 1);
    }
  }

  ghost predicate Cooled(d: Dims, c: Conductances) {
    exists p :: IsNode(d, p) && c.ambient(p) > 0.0
  }

  /** The whole grid is connected to ambient as soon as one node is. */
  lemma ConnectedIffCooled(d: Dims, c: Conductances)
    requires ValidDims(d) && Physical(d, c)
    ensures AllConnected(Dense(d, c), AmbientOf(d, c), Size(d)) <==> Cooled(d, c)
  {
    hide At;
    hide Elem;
    hide Dense;
    hide AmbientOf;
    hide NodeAt;
    hide Index;
    hide Physical;
    hide Reaches;
    var b, amb, n := Dense(d, c), AmbientOf(d, c), Size(d);
    if Cooled(d, c) {
      var p :| IsNode(d, p) && c.ambient(p) > 0.0;
      NodeOfIndex(d, p);
      DenseAt(d, c, Index(d, p), Index(d, p));
      DirectlyConnected(b, amb, n, Index(d, p));
      AllShareWay(d, c, p);
      forall i | 0 <= i < n ensures Connected(b, amb, n, i) {
        IndexOfNode(d, i);
        AllShareWay(d, c, NodeAt(d, i));
      }
    }
    if AllConnected(b, amb, n) {
      assert Connected(b, amb, n, 0);
      var s: nat :| Reaches(b, amb, n, 0, s);
      var k := SomeAmbient(b, amb, n, 0, s);
      IndexOfNode(d, k);
      DenseAt(d, c, k, k);
    }
  }

  /** The grid matrix is positive definite exactly when some node passes heat to the ambient; then it is
      non-singular. */
  lemma GridIsPositiveDefinite(d: Dims, c: Conductances)
    requires ValidDims(d) && Physical(d, c)
    ensures PositiveDefinite(Dense(d, c), Size(d)) <==> Cooled(d, c)
    ensures Cooled(d, c) ==> TrivialKernel(Dense(d, c), Size(d))
  {
    hide PositiveDefinite;
    hide TrivialKernel;
    hide IsNetwork;
    hide AllConnected;
    hide Dense;
    hide AmbientOf;
    hide Cooled;
    hide Physical;
    GridIsNetwork(d, c);
    ConnectedIffCooled(d, c);
    PositiveDefiniteIffConnected(Dense(d, c), AmbientOf(d, c), Size(d));
    if Cooled(d, c) {
      PositiveDefiniteIsNonSingular(Dense(d, c), Size(d));
    }
  }

  /** Temperatures relative to ambient are never negative where power is only put in. */
  lemma NoNodeBelowAmbient(d: Dims, c: Conductances, power: Vector, x: Vector, n: nat)
    requires ValidDims(d) && Physical(d, c) && Cooled(d, c) && n == Size(d)
    requires forall i :: 0 <= i < n ==> Elem(power, i) >= 0.0
    requires Solves(Dense(d, c), x, power, n)
    ensures forall i :: 0 <= i < n ==> Elem(x, i) >= 0.0
  {
    hide IsNetwork;
    hide AllConnected;
    hide Dense;
    hide AmbientOf;
    hide Cooled;
    hide Physical;
    hide Elem;
    hide RowTimes;
    GridIsNetwork(d, c);
    ConnectedIffCooled(d, c);
    NothingBelowAmbient(Dense(d, c), AmbientOf(d, c), n, x);
  }

  /** Builder, conversion and physics composed: the compressed columns represent a network matrix. */
  method BuildNetwork(d: Dims, c: Conductances) returns (rowInd: array<int>, colPtr: array<int>, values: array<real>,
                                                        s: seq<CompressedColumns.Coo>)
    requires ValidDims(d) && Physical(d, c)
    ensures Size(d) > 0 && IsCsc(s, rowInd[..], colPtr[..], values[..], Size(d))
    ensures Represents(s, Dense(d, c), Size(d)) && IsNetwork(Dense(d, c), AmbientOf(d, c), Size(d))
    ensures PositiveDefinite(Dense(d, c), Size(d)) <==> Cooled(d, c)
  {
    hide IsCsc;
    hide Represents;
    hide IsNetwork;
    hide PositiveDefinite;
    hide Cooled;
    hide Physical;
    hide Dense;
    hide AmbientOf;
    hide CooOf;
    hide AllEntries;
    rowInd, colPtr, values, s := BuildCsc(d, c);
    EmittedRepresents(d, c);
    RearrangedRepresents(s, CooOf(d, c, AllEntries(d)), Dense(d, c), Size(d));
    GridIsNetwork(d, c);
    GridIsPositiveDefinite(d, c);
  }
}
