/** The pressure circuit of a microchannel network: its linear system and what its solutions satisfy
    (microchannel.c, ideal pump). */
module PressureCircuit {
  import opened RealArithmetic
  import opened RealMatrix
  import opened Lup
  import opened GaussJordan

  // ---------------------------------------------------------------- the network

  const SOLID := 0
  const FLUID := 1
  const INLET := 2
  const OUTLET := 3

  type Cell = (int, int)

  function Kind(cells: seq<seq<int>>, p: Cell): int {
    if 0 <= p.0 < |cells| && 0 <= p.1 < |cells[p.0]| then cells[p.0][p.1] else SOLID
  }

  predicate IsFluid(cells: seq<seq<int>>, p: Cell) {
    Kind(cells, p) == FLUID || Kind(cells, p) == INLET || Kind(cells, p) == OUTLET
  }

  /** North, south, west, east. */
  function Neighbour(p: Cell, d: int): Cell {
    if d == 0 then (p.0 - 1, p.1) else if d == 1 then (p.0 + 1, p.1)
    else if d == 2 then (p.0, p.1 - 1) else (p.0, p.1 + 1)
  }

  predicate Adjacent(p: Cell, q: Cell) {
    q == Neighbour(p, 0) || q == Neighbour(p, 1) || q == Neighbour(p, 2) || q == Neighbour(p, 3)
  }

  /** The fluid cells in node order, the conductance of one cell pair and the pumping pressure. */
  datatype Network = Network(cells: seq<seq<int>>, order: seq<Cell>, c: real, pressure: real)

  ghost predicate Numbered(net: Network) {
    && net.c > 0.0
    && (forall k :: 0 <= k < |net.order| ==> IsFluid(net.cells, net.order[k]))
    && (forall k, l :: 0 <= k < l < |net.order| ==> net.order[k] != net.order[l])
    && (forall p :: IsFluid(net.cells, p) ==> p in net.order)
  }

  function CellOf(net: Network, k: int): Cell {
    if 0 <= k < |net.order| then net.order[k] else (-1, -1)
  }

  /** The inverse of the node order. */
  ghost function Node(net: Network, p: Cell): (k: int) {
    if p in net.order then var k :| 0 <= k < |net.order| && net.order[k] == p; k else -1
  }

  lemma NodeIsInverse(net: Network, p: Cell)
    requires Numbered(net)
    ensures IsFluid(net.cells, p) ==> 0 <= Node(net, p) < |net.order| && CellOf(net, Node(net, p)) == p
    ensures forall l :: 0 <= l < |net.order| ==> (CellOf(net, l) == p <==> IsFluid(net.cells, p) && l == Node(net, p))
  {
    hide IsFluid;
  }

  /** hydroC: the conductance of a rectangular duct of thickness h, width w and length len. */
  function HydroC(h: real, w: real, len: real, viscosity: real): (c: real)
    requires h > 0.0 && w > 0.0 && len > 0.0 && viscosity > 0.0
  {
    if h == w then (0.42229 * (h * h * h * h)) / (12.0 * viscosity * len)
    else if h > w then ((1.0 - 0.63 * (w / h)) * (w * w * w) * h) / (12.0 * viscosity * len)
    else ((1.0 - 0.63 * (h / w)) * (h * h * h) * w) / (12.0 * viscosity * len)
  }

  lemma Fraction(x: real, y: real)
    requires 0.0 < x < y
    ensures x / y < 1.0
  {
    Quotient(x, y);
    AtLeastOnce(x / y, y);
  }

  lemma AtLeastOnce(q: real, y: real)
    requires y > 0.0
    ensures q >= 1.0 ==> q * y >= y
  {
    assert q * y == (q - 1.0) * y + y;
  }

  lemma HydroIsPositive(h: real, w: real, len: real, viscosity: real)
    requires h > 0.0 && w > 0.0 && len > 0.0 && viscosity > 0.0
    ensures HydroC(h, w, len, viscosity) > 0.0
  {
    var top, bottom := if h == w then 0.42229 * (h * h * h * h) else if h > w
      then (1.0 - 0.63 * (w / h)) * (w * w * w) * h else (1.0 - 0.63 * (h / w)) * (h * h * h) * w, 12.0 * viscosity * len;
    assert bottom > 0.0 by {
      PositiveProduct(12.0 * viscosity, len);
    }
    var big, small := if h > w then h else w, if h > w then w else h;
    var cube, factor := small * small * small, 1.0 - 0.63 * (small / big);
    PositiveProduct(small, small);
    PositiveProduct(small * small, small);
    PositiveProduct(cube, small);
    assert top > 0.0 by {
      if h != w {
        Fraction(small, big);
        PositiveProduct(factor, cube);
        PositiveProduct(factor * cube, big);
      }
    }
    PositiveProduct(top, bottom);
  }

  /** s^3 l / (12 mu L): the conductance of a slit, for the shorter side s and the longer side l. */
  function Slit(s: real, l: real, len: real, viscosity: real): real
    requires len > 0.0 && viscosity > 0.0
  {
    (s * s * s * l) / (12.0 * viscosity * len)
  }

  /** What the duct keeps of the slit's conductance. */
  function Shape(s: real, l: real): real
    requires l > 0.0
  {
    if s == l then 0.42229 else 1.0 - 0.63 * (s / l)
  }

  /** Which side is called thickness does not matter. */
  lemma SidesExchange(h: real, w: real, len: real, viscosity: real)
    requires h > 0.0 && w > 0.0 && len > 0.0 && viscosity > 0.0
    ensures HydroC(h, w, len, viscosity) == HydroC(w, h, len, viscosity)
  {
  }

  lemma MoveFactor(f: real, a: real, b: real)
    requires b > 0.0
    ensures (f * a) / b == f * (a / b)
  {
    var q := a / b;
    Quotient(a, b);
    QuotientOf(f * q, b, f * a);
  }

  lemma QuotientOf(q: real, b: real, a: real)
    requires b > 0.0 && q * b == a
    ensures a / b == q
  {
    Quotient(a, b);
    var d := a / b - q;
    assert d * b == 0.0;
    ZeroFactor(b, d);
  }

  lemma DuctBottom(len: real, viscosity: real)
    requires len > 0.0 && viscosity > 0.0
    ensures 12.0 * viscosity * len > 0.0
  {
    PositiveProduct(12.0 * viscosity, len);
  }

  /** A duct conducts like a slit of its shorter side s and longer side l, reduced by its shape. */
  lemma HydroIsReducedSlit(s: real, l: real, len: real, viscosity: real)
    requires 0.0 < s <= l && len > 0.0 && viscosity > 0.0
    ensures HydroC(s, l, len, viscosity) == HydroC(l, s, len, viscosity) == Shape(s, l) * Slit(s, l, len, viscosity)
    ensures 0.37 < Shape(s, l) <= 1.0
  {
    hide Shape;
    SidesExchange(s, l, len, viscosity);
    DuctBottom(len, viscosity);
    ShapeRange(s, l);
    var f, cube, bottom := Shape(s, l), s * s * s, 12.0 * viscosity * len;
    MoveFactor(f, cube * l, bottom);
    assert f * (cube * l) == (f * cube) * l;
    HydroOf(s, l, len, viscosity);
  }

  lemma ShapeRange(s: real, l: real)
    requires 0.0 < s <= l
    ensures 0.37 < Shape(s, l) <= 1.0
  {
    if s < l {
      Fraction(s, l);
      PositiveProduct(s, l);
    }
  }

  lemma HydroOf(s: real, l: real, len: real, viscosity: real)
    requires 0.0 < s <= l && len > 0.0 && viscosity > 0.0
    ensures HydroC(s, l, len, viscosity) == ((Shape(s, l) * (s * s * s)) * l) / (12.0 * viscosity * len)
  {
    if s == l {
      var f := 0.42229;
      assert f * (s * s * s * s) == (f * (s * s * s)) * l;
    }
  }

  /** Between 0.37 of the slit's conductance and all of it. */
  lemma HydroBounds(s: real, l: real, len: real, viscosity: real)
    requires 0.0 < s <= l && len > 0.0 && viscosity > 0.0
    ensures 0.0 < 0.37 * Slit(s, l, len, viscosity) <= HydroC(l, s, len, viscosity) <= Slit(s, l, len, viscosity)
  {
    hide HydroC;
    hide Shape;
    HydroIsReducedSlit(s, l, len, viscosity);
    DuctBottom(len, viscosity);
    SlitIsPositive(s, l, len, viscosity);
    Reduced(Shape(s, l), Slit(s, l, len, viscosity));
  }

  lemma SlitIsPositive(s: real, l: real, len: real, viscosity: real)
    requires 0.0 < s <= l && len > 0.0 && viscosity > 0.0
    ensures Slit(s, l, len, viscosity) > 0.0
  {
    DuctBottom(len, viscosity);
    Cube(s);
    PositiveProduct(s * s * s, l);
    PositiveProduct(s * s * s * l, 12.0 * viscosity * len);
  }

  lemma Cube(s: real)
    requires s > 0.0
    ensures s * s * s > 0.0
  {
    PositiveTriple(s, s, s);
  }

  lemma PositiveTriple(x: real, y: real, z: real)
    requires x > 0.0 && y > 0.0 && z > 0.0
    ensures x * y * z > 0.0
  {
    PositiveProduct(x, y);
    PositiveProduct(x * y, z);
  }

  lemma Reduced(f: real, a: real)
    requires 0.37 < f <= 1.0 && a > 0.0
    ensures 0.0 < 0.37 * a <= f * a <= a
  {
    var d, e := f - 0.37, 1.0 - f;
    PositiveProduct(d, a);
    assert d * a == f * a - 0.37 * a;
    assert e * a == a - f * a;
    assert e * a >= 0.0;
  }

  /** A duct k times as long, or a fluid k times as viscous, carries a k-th of the flow. */
  lemma HydroScales(h: real, w: real, len: real, viscosity: real, k: real)
    requires h > 0.0 && w > 0.0 && len > 0.0 && viscosity > 0.0 && k > 0.0
    ensures k * len > 0.0 && k * viscosity > 0.0
    ensures HydroC(h, w, k * len, viscosity) * k == HydroC(h, w, len, viscosity)
    ensures HydroC(h, w, len, k * viscosity) * k == HydroC(h, w, len, viscosity)
  {
    hide HydroC;
    PositiveProduct(k, len);
    PositiveProduct(k, viscosity);
    var top := TopOf(h, w);
    HydroIsQuotient(h, w, len, viscosity);
    HydroIsQuotient(h, w, k * len, viscosity);
    HydroIsQuotient(h, w, len, k * viscosity);
    DuctBottom(len, viscosity);
    var b := 12.0 * viscosity * len;
    assert 12.0 * viscosity * (k * len) == k * b;
    assert 12.0 * (k * viscosity) * len == k * b;
    ScaledBottom(top, b, k);
  }

  /** The numerator of hydroC. */
  function TopOf(h: real, w: real): real
    requires h > 0.0 && w > 0.0
  {
    if h == w then 0.42229 * (h * h * h * h) else if h > w then (1.0 - 0.63 * (w / h)) * (w * w * w) * h
    else (1.0 - 0.63 * (h / w)) * (h * h * h) * w
  }

  lemma HydroIsQuotient(h: real, w: real, len: real, viscosity: real)
    requires h > 0.0 && w > 0.0 && len > 0.0 && viscosity > 0.0
    ensures 12.0 * viscosity * len > 0.0 && HydroC(h, w, len, viscosity) == TopOf(h, w) / (12.0 * viscosity * len)
  {
    DuctBottom(len, viscosity);
  }

  lemma ScaledBottom(a: real, b: real, k: real)
    requires b > 0.0 && k > 0.0
    ensures k * b > 0.0 && a / (k * b) * k == a / b
  {
    PositiveProduct(k, b);
    var q := a / (k * b);
    Quotient(a, k * b);
    assert q * k * b == q * (k * b);
    QuotientOf(q * k, b, a);
  }

  /** A duct k times as large in every dimension carries k cubed times the flow. */
  lemma HydroGrowsCubically(h: real, w: real, len: real, viscosity: real, k: real)
    requires h > 0.0 && w > 0.0 && len > 0.0 && viscosity > 0.0 && k > 0.0
    ensures k * h > 0.0 && k * w > 0.0 && k * len > 0.0
    ensures HydroC(k * h, k * w, k * len, viscosity) == k * k * k * HydroC(h, w, len, viscosity)
  {
    hide HydroC;
    PositiveProduct(k, h);
    PositiveProduct(k, w);
    PositiveProduct(k, len);
    var k3 :| k3 == k * k * k;
    var k4 :| k4 == k3 * k;
    ScaledTop(h, w, k, k * h, k * w, k4);
    GrownDuct(h, w, len, viscosity, k, k * h, k * w, k * len, k3, k4);
  }

  lemma GrownDuct(h: real, w: real, len: real, viscosity: real, k: real, hk: real, wk: real, lk: real, k3: real, k4: real)
    requires h > 0.0 && w > 0.0 && len > 0.0 && viscosity > 0.0 && k > 0.0 && hk > 0.0 && wk > 0.0 && lk == k * len > 0.0
    requires k4 == k3 * k && TopOf(hk, wk) == k4 * TopOf(h, w)
    ensures HydroC(hk, wk, lk, viscosity) == k3 * HydroC(h, w, len, viscosity)
  {
    hide HydroC;
    hide TopOf;
    HydroScales(hk, wk, len, viscosity, k);
    HydroIsQuotient(h, w, len, viscosity);
    HydroIsQuotient(hk, wk, len, viscosity);
    Grown(HydroC(hk, wk, lk, viscosity), HydroC(h, w, len, viscosity), TopOf(hk, wk), TopOf(h, w), 12.0 * viscosity * len, k,
          k3, k4);
  }

  lemma Grown(c: real, q: real, topK: real, top: real, b: real, k: real, k3: real, k4: real)
    requires b > 0.0 && k > 0.0 && k4 == k3 * k && topK == k4 * top && c * k == topK / b && q == top / b
    ensures c == k3 * q
  {
    MoveFactor(k4, top, b);
    FourthPower(c, k3, k, q, k4);
  }

  lemma FourthPower(c: real, k3: real, k: real, q: real, k4: real)
    requires k > 0.0 && k4 == k3 * k && c * k == k4 * q
    ensures c == k3 * q
  {
    var r := k3 * q;
    assert k4 * q == r * k;
    SameScaled(c, r, k);
  }

  lemma SameScaled(x: real, y: real, k: real)
    requires k > 0.0 && x * k == y * k
    ensures x == y
  {
    var d := x - y;
    assert d * k == 0.0;
    ZeroFactor(k, d);
  }

  lemma ScaledTop(h: real, w: real, k: real, hk: real, wk: real, k4: real)
    requires h > 0.0 && w > 0.0 && k > 0.0 && hk == k * h > 0.0 && wk == k * w > 0.0 && k4 == k * k * k * k
    ensures TopOf(hk, wk) == k4 * TopOf(h, w)
  {
    hide TopOf;
    ScaledOrder(h, w, k);
    if h == w {
      ScaledSquare(h, w, k, hk, wk, k4);
    } else if h > w {
      ScaledRatio(w, h, k, wk, hk);
      ScaledUnequal(w, h, k, wk, hk, k4);
    } else {
      ScaledRatio(h, w, k, hk, wk);
      ScaledUnequal(h, w, k, hk, wk, k4);
    }
  }

  lemma ScaledUnequal(s: real, l: real, k: real, sk: real, lk: real, k4: real)
    requires 0.0 < s < l && k > 0.0 && sk == k * s && lk == k * l && 0.0 < sk < lk && sk / lk == s / l && k4 == k * k * k * k
    ensures TopOf(sk, lk) == k4 * TopOf(s, l)
    ensures TopOf(lk, sk) == k4 * TopOf(l, s)
  {
    hide TopOf;
    var f := 1.0 - 0.63 * (s / l);
    TopOfUnequal(s, l, f);
    TopOfUnequal(sk, lk, f);
    FourTimes(k, s, l, f, sk, lk, k4);
  }

  lemma ScaledSquare(h: real, w: real, k: real, hk: real, wk: real, k4: real)
    requires h == w > 0.0 && k > 0.0 && hk == wk == k * h > 0.0 && k4 == k * k * k * k
    ensures TopOf(hk, wk) == k4 * TopOf(h, w)
  {
    hide TopOf;
    FourTimes(k, h, h, 0.42229, hk, hk, k4);
    TopOfSquare(h, w);
    TopOfSquare(hk, wk);
  }

  lemma TopOfSquare(h: real, w: real)
    requires h == w > 0.0
    ensures TopOf(h, w) == 0.42229 * (h * h * h * h)
  {
  }

  lemma TopOfUnequal(s: real, l: real, f: real)
    requires 0.0 < s < l && f == 1.0 - 0.63 * (s / l)
    ensures TopOf(s, l) == TopOf(l, s) == f * (s * s * s) * l
  {
  }

  lemma ScaledOrder(x: real, y: real, k: real)
    requires k > 0.0
    ensures (x == y <==> k * x == k * y) && (x > y <==> k * x > k * y)
  {
    var d := x - y;
    assert k * x - k * y == k * d;
    if d > 0.0 {
      PositiveProduct(k, d);
    } else if d < 0.0 {
      PositiveProduct(k, -d);
    }
  }

  lemma ScaledRatio(x: real, y: real, k: real, xk: real, yk: real)
    requires y > 0.0 && k > 0.0 && xk == k * x && yk == k * y > 0.0
    ensures xk / yk == x / y
  {
    var q := x / y;
    Quotient(x, y);
    assert q * yk == k * (q * y);
    QuotientOf(q, yk, xk);
  }

  lemma FourTimes(k: real, s: real, l: real, f: real, sk: real, lk: real, k4: real)
    requires sk == k * s && lk == k * l && k4 == k * k * k * k
    ensures f * (sk * sk * sk) * lk == k4 * (f * (s * s * s) * l)
    ensures f * (sk * sk * sk * lk) == k4 * (f * (s * s * s * l))
  {
    var cube :| cube == s * s * s;
    var k3 :| k3 == k * k * k;
    var cubeK :| cubeK == sk * sk * sk;
    ThreeTimes(k, s, sk);
    OneMoreTime(k3, cube, cubeK, k, l, lk, k4);
    FactorOut(f, cubeK, lk, k4, cube, l, cube * l);
  }

  lemma ThreeTimes(k: real, s: real, sk: real)
    requires sk == k * s
    ensures sk * sk * sk == (k * k * k) * (s * s * s)
  {
  }

  lemma OneMoreTime(k3: real, cube: real, cubeK: real, k: real, l: real, lk: real, k4: real)
    requires cubeK == k3 * cube && lk == k * l && k4 == k3 * k
    ensures cubeK * lk == k4 * (cube * l)
  {
  }

  lemma FactorOut(f: real, cubeK: real, lk: real, k4: real, cube: real, l: real, a: real)
    requires a == cube * l && cubeK * lk == k4 * a
    ensures f * cubeK * lk == k4 * (f * cube * l)
    ensures f * (cubeK * lk) == k4 * (f * a)
  {
    assert f * cubeK * lk == f * (cubeK * lk);
    assert f * cube * l == f * a;
    Associate(k4, a, f);
  }

  // ---------------------------------------------------------------- the system

  function Conducts(net: Network, p: Cell, d: int): real {
    if IsFluid(net.cells, Neighbour(p, d)) then net.c else 0.0
  }

  function Diagonal(net: Network, p: Cell): real {
    Conducts(net, p, 0) + Conducts(net, p, 1) + Conducts(net, p, 2) + Conducts(net, p, 3)
  }

  function Entry(net: Network, k: int, l: int): real {
    if Kind(net.cells, CellOf(net, k)) == FLUID then
      if k == l then Diagonal(net, CellOf(net, k))
      else if Adjacent(CellOf(net, k), CellOf(net, l)) then -net.c else 0.0
    else if k == l then 1.0 else 0.0
  }

  function Rhs(net: Network, k: int): real {
    if Kind(net.cells, CellOf(net, k)) == INLET then net.pressure else 0.0
  }

  ghost predicate IsSystem(net: Network, a: Matrix, b: Vector) {
    && IsSquare(a, |net.order|) && |b| == |net.order|
    && (forall k, l :: 0 <= k < |net.order| && 0 <= l < |net.order| ==> At(a, k, l) == Entry(net, k, l))
    && (forall k :: 0 <= k < |net.order| ==> Elem(b, k) == Rhs(net, k))
  }

  // ---------------------------------------------------------------- flows

  /** flow_rate */
  ghost function FlowRate(net: Network, x: Vector, p: Cell, q: Cell): real {
    (Elem(x, Node(net, p)) - Elem(x, Node(net, q))) * net.c
  }

  ghost function FlowTo(net: Network, x: Vector, p: Cell, d: int): real {
    if IsFluid(net.cells, Neighbour(p, d)) then FlowRate(net, x, p, Neighbour(p, d)) else 0.0
  }

  /** What leaves a cell through its four sides. */
  ghost function NetOutflow(net: Network, x: Vector, p: Cell): real {
    FlowTo(net, x, p, 0) + FlowTo(net, x, p, 1) + FlowTo(net, x, p, 2) + FlowTo(net, x, p, 3)
  }

  // ---------------------------------------------------------------- sums over neighbours

  ghost function SideTerm(net: Network, p: Cell, d: int, v: int -> real): real {
    if IsFluid(net.cells, Neighbour(p, d)) then v(Node(net, Neighbour(p, d))) else 0.0
  }

  lemma SideSum(net: Network, p: Cell, d: int, v: int -> real)
    requires Numbered(net)
    ensures Sum(0, |net.order|, l => if CellOf(net, l) == Neighbour(p, d) then v(l) else 0.0) == SideTerm(net, p, d, v)
  {
    hide Sum;
    hide Neighbour;
    hide Numbered;
    hide Node;
    hide CellOf;
    hide IsFluid;
    var q, n := Neighbour(p, d), |net.order|;
    var f := l => if CellOf(net, l) == Neighbour(p, d) then v(l) else 0.0;
    NodeIsInverse(net, q);
    if IsFluid(net.cells, q) {
      SumSingle(0, n, Node(net, q), f);
    } else {
      SumZero(0, n, f);
    }
  }

  lemma OneSide(p: Cell, q: Cell, y: real)
    ensures (if Adjacent(p, q) then y else 0.0)
         == ((if q == Neighbour(p, 0) then y else 0.0) + (if q == Neighbour(p, 1) then y else 0.0))
          + ((if q == Neighbour(p, 2) then y else 0.0) + (if q == Neighbour(p, 3) then y else 0.0))
  {
  }

  /** A sum over all adjacent nodes has one term for each fluid side. */
  lemma NeighbourSum(net: Network, p: Cell, v: int -> real)
    requires Numbered(net)
    ensures Sum(0, |net.order|, l => if Adjacent(p, CellOf(net, l)) then v(l) else 0.0)
         == SideTerm(net, p, 0, v) + SideTerm(net, p, 1, v) + SideTerm(net, p, 2, v) + SideTerm(net, p, 3, v)
  {
    hide Sum;
    hide Neighbour;
    hide CellOf;
    hide SideTerm;
    hide Adjacent;
    hide Numbered;
    var n := |net.order|;
    var f0, f1 := l => if CellOf(net, l) == Neighbour(p, 0) then v(l) else 0.0, l => if CellOf(net, l) == Neighbour(p, 1) then v(l) else 0.0;
    var f2, f3 := l => if CellOf(net, l) == Neighbour(p, 2) then v(l) else 0.0, l => if CellOf(net, l) == Neighbour(p, 3) then v(l) else 0.0;
    var f01, f23 := l => f0(l) + f1(l), l => f2(l) + f3(l);
    SumAdd(0, n, f0, f1);
    SumAdd(0, n, f2, f3);
    SumAdd(0, n, f01, f23);
    var f := l => if Adjacent(p, CellOf(net, l)) then v(l) else 0.0;
    forall l | 0 <= l < n ensures f(l) == f01(l) + f23(l) {
      OneSide(p, CellOf(net, l), v(l));
    }
    SumEqual(0, n, f, l => f01(l) + f23(l));
    SideSum(net, p, 0, v);
    SideSum(net, p, 1, v);
    SideSum(net, p, 2, v);
    SideSum(net, p, 3, v);
  }

  // ---------------------------------------------------------------- rows of the system

  /** The equation of a fluid cell says that its flows balance. */
  lemma FluidRow(net: Network, a: Matrix, b: Vector, x: Vector, k: int)
    requires Numbered(net) && IsSystem(net, a, b) && 0 <= k < |net.order|
    requires Kind(net.cells, net.order[k]) == FLUID
    ensures RowTimes(a, k, x, |net.order|) == NetOutflow(net, x, net.order[k])
  {
    hide Sum;
    hide At;
    hide Elem;
    hide Adjacent;
    hide Numbered;
    hide Node;
    hide Diagonal;
    hide SideTerm;
    hide NetOutflow;
    var n, p := |net.order|, net.order[k];
    var v := l => -net.c * Elem(x, l);
    var diag := l => if l == k then Diagonal(net, p) * Elem(x, k) else 0.0;
    var off := l => if Adjacent(p, CellOf(net, l)) then v(l) else 0.0;
    NotAdjacentToItself(p);
    NodeIsInverse(net, p);
    SumEqual(0, n, j => At(a, k, j) * Elem(x, j), l => diag(l) + off(l));
    SumAdd(0, n, diag, off);
    SumSingle(0, n, k, diag);
    NeighbourSum(net, p, v);
    FlowSides(net, x, p, v);
  }

  lemma NotAdjacentToItself(p: Cell)
    ensures !Adjacent(p, p)
  {
  }

  lemma FlowSides(net: Network, x: Vector, p: Cell, v: int -> real)
    requires forall l :: v(l) == -net.c * Elem(x, l)
    ensures NetOutflow(net, x, p) == Diagonal(net, p) * Elem(x, Node(net, p))
      + (SideTerm(net, p, 0, v) + SideTerm(net, p, 1, v) + SideTerm(net, p, 2, v) + SideTerm(net, p, 3, v))
  {
    hide FlowTo;
    hide Conducts;
    hide SideTerm;
    FlowSide(net, x, p, 0, v);
    FlowSide(net, x, p, 1, v);
    FlowSide(net, x, p, 2, v);
    FlowSide(net, x, p, 3, v);
  }

  lemma FlowSide(net: Network, x: Vector, p: Cell, d: int, v: int -> real)
    requires forall l :: v(l) == -net.c * Elem(x, l)
    ensures FlowTo(net, x, p, d) == Conducts(net, p, d) * Elem(x, Node(net, p)) + SideTerm(net, p, d, v)
  {
    hide Neighbour;
    hide Elem;
    hide Node;
    hide IsFluid;
  }

  /** The equation of an inlet or outlet fixes its pressure. */
  lemma FixedRow(net: Network, a: Matrix, b: Vector, x: Vector, k: int)
    requires Numbered(net) && IsSystem(net, a, b) && 0 <= k < |net.order|
    requires Kind(net.cells, net.order[k]) != FLUID
    ensures RowTimes(a, k, x, |net.order|) == Elem(x, k)
  {
    hide Sum;
    SumSingle(0, |net.order|, k, j => At(a, k, j) * Elem(x, j));
  }

  // ---------------------------------------------------------------- conservation

  /** The flows around every fluid cell sum to zero. */
  lemma FlowIsConserved(net: Network, a: Matrix, b: Vector, x: Vector, p: Cell)
    requires Numbered(net) && IsSystem(net, a, b) && Solves(a, x, b, |net.order|)
    requires Kind(net.cells, p) == FLUID
    ensures NetOutflow(net, x, p) == 0.0
  {
    hide RowTimes;
    hide NetOutflow;
    var k := Node(net, p);
    FluidRow(net, a, b, x, k);
    assert RowTimes(a, k, x, |net.order|) == Elem(b, k) == Rhs(net, k);
  }

  lemma OutflowAsSum(net: Network, x: Vector, k: int)
    requires Numbered(net) && 0 <= k < |net.order|
    ensures NetOutflow(net, x, net.order[k]) == Sum(0, |net.order|, l =>
              if Adjacent(CellOf(net, k), CellOf(net, l)) then (Elem(x, k) - Elem(x, l)) * net.c else 0.0)
  {
    hide Sum;
    hide Adjacent;
    hide Neighbour;
    hide Elem;
    hide Numbered;
    hide Node;
    hide IsFluid;
    var p, v := net.order[k], l => (Elem(x, k) - Elem(x, l)) * net.c;
    NeighbourSum(net, p, v);
    NodeIsInverse(net, p);
    assert CellOf(net, k) == p;
    SumEqual(0, |net.order|, l => if Adjacent(p, CellOf(net, l)) then v(l) else 0.0, l =>
      if Adjacent(CellOf(net, k), CellOf(net, l)) then (Elem(x, k) - Elem(x, l)) * net.c else 0.0);
  }

  /** Antisymmetric flows cancel over the whole network, whatever the pressures. */
  lemma TotalOutflow(net: Network, x: Vector)
    requires Numbered(net)
    ensures Sum(0, |net.order|, k => NetOutflow(net, x, CellOf(net, k))) == 0.0
  {
    hide Sum;
    hide NetOutflow;
    hide Adjacent;
    hide Elem;
    var n := |net.order|;
    var f := (k: int, l: int) => if Adjacent(CellOf(net, k), CellOf(net, l)) then (Elem(x, k) - Elem(x, l)) * net.c else 0.0;
    var rows, cols := k => Sum(0, n, l => f(k, l)), l => Sum(0, n, k => f(k, l));
    SumSwap(0, n, 0, n, f);
    forall k | 0 <= k < n ensures NetOutflow(net, x, CellOf(net, k)) == rows(k) && cols(k) == -1.0 * rows(k) {
      OutflowAsSum(net, x, k);
      SumEqual(0, n, l => if Adjacent(CellOf(net, k), CellOf(net, l)) then (Elem(x, k) - Elem(x, l)) * net.c else 0.0, l => f(k, l));
      var row := l => f(k, l);
      SumScale(0, n, -1.0, row);
      forall l | 0 <= l < n ensures f(l, k) == -1.0 * row(l) {
        AdjacentSymmetric(CellOf(net, k), CellOf(net, l));
        Opposite(Elem(x, k), Elem(x, l), net.c);
      }
      SumEqual(0, n, l => f(l, k), l => -1.0 * row(l));
    }
    SumEqual(0, n, k => NetOutflow(net, x, CellOf(net, k)), rows);
    SumEqual(0, n, cols, k => -1.0 * rows(k));
    SumScale(0, n, -1.0, rows);
  }

  lemma Opposite(x: real, y: real, c: real)
    ensures (y - x) * c == -1.0 * ((x - y) * c)
  {
  }

  lemma AdjacentSymmetric(p: Cell, q: Cell)
    ensures Adjacent(p, q) <==> Adjacent(q, p)
  {
  }

  /** What the inlets (or outlets) send into the network. */
  ghost function FlowFrom(net: Network, x: Vector, kind: int): real {
    Sum(0, |net.order|, k => if Kind(net.cells, CellOf(net, k)) == kind then NetOutflow(net, x, CellOf(net, k)) else 0.0)
  }

  /** What the inlets send into the network arrives at the outlets. */
  lemma InletsFeedOutlets(net: Network, a: Matrix, b: Vector, x: Vector)
    requires Numbered(net) && IsSystem(net, a, b) && Solves(a, x, b, |net.order|)
    ensures FlowFrom(net, x, INLET) == -FlowFrom(net, x, OUTLET)
  {
    hide Sum;
    hide NetOutflow;
    hide IsSystem;
    hide Solves;
    var n := |net.order|;
    var f, g := k => if Kind(net.cells, CellOf(net, k)) == INLET then NetOutflow(net, x, CellOf(net, k)) else 0.0,
      k => if Kind(net.cells, CellOf(net, k)) == OUTLET then NetOutflow(net, x, CellOf(net, k)) else 0.0;
    TotalOutflow(net, x);
    forall k | 0 <= k < n ensures NetOutflow(net, x, CellOf(net, k)) == f(k) + g(k) {
      assert IsFluid(net.cells, net.order[k]);
      if Kind(net.cells, CellOf(net, k)) == FLUID {
        FlowIsConserved(net, a, b, x, CellOf(net, k));
      }
    }
    SumEqual(0, n, k => NetOutflow(net, x, CellOf(net, k)), k => f(k) + g(k));
    SumAdd(0, n, f, g);
    SumEqual(0, n, f, k => if Kind(net.cells, CellOf(net, k)) == INLET then NetOutflow(net, x, CellOf(net, k)) else 0.0);
    SumEqual(0, n, g, k => if Kind(net.cells, CellOf(net, k)) == OUTLET then NetOutflow(net, x, CellOf(net, k)) else 0.0);
  }

  // ---------------------------------------------------------------- the maximum principle

  ghost function PressureAt(net: Network, x: Vector, p: Cell): real {
    Elem(x, Node(net, p))
  }

  predicate IsPort(cells: seq<seq<int>>, p: Cell) {
    Kind(cells, p) == INLET || Kind(cells, p) == OUTLET
  }

  /** An inlet or outlet can be reached through fluid cells in at most s moves. */
  ghost predicate Touches(cells: seq<seq<int>>, p: Cell, s: nat)
    decreases s
  {
    IsFluid(cells, p) &&
    (IsPort(cells, p) || (s > 0 && (
      || Touches(cells, Neighbour(p, 0), s - 1) || Touches(cells, Neighbour(p, 1), s - 1)
      || Touches(cells, Neighbour(p, 2), s - 1) || Touches(cells, Neighbour(p, 3), s - 1))))
  }

  ghost predicate Grounded(cells: seq<seq<int>>, p: Cell) {
    exists s: nat :: Touches(cells, p, s)
  }

  ghost predicate AllGrounded(cells: seq<seq<int>>) {
    forall p: Cell :: IsFluid(cells, p) ==> Grounded(cells, p)
  }

  ghost predicate Balanced(net: Network, x: Vector) {
    forall p: Cell :: Kind(net.cells, p) == FLUID ==> NetOutflow(net, x, p) == 0.0
  }

  ghost predicate PortsAtMost(net: Network, x: Vector, hi: real) {
    forall p: Cell :: IsPort(net.cells, p) ==> PressureAt(net, x, p) <= hi
  }

  ghost predicate AllAtMost(net: Network, x: Vector, hi: real) {
    forall p: Cell :: IsFluid(net.cells, p) ==> PressureAt(net, x, p) <= hi
  }

  lemma FlowSign(net: Network, x: Vector, p: Cell, d: int)
    requires net.c > 0.0
    requires IsFluid(net.cells, Neighbour(p, d)) ==> PressureAt(net, x, Neighbour(p, d)) <= PressureAt(net, x, p)
    ensures FlowTo(net, x, p, d) >= 0.0
    ensures FlowTo(net, x, p, d) == 0.0 && IsFluid(net.cells, Neighbour(p, d)) ==>
      PressureAt(net, x, Neighbour(p, d)) == PressureAt(net, x, p)
  {
    hide Node;
    hide Elem;
    hide Neighbour;
    hide IsFluid;
  }

  /** At a balanced cell of maximal pressure every fluid neighbour has the same pressure. */
  lemma MaximumSpreads(net: Network, x: Vector, p: Cell, d: int)
    requires net.c > 0.0 && Balanced(net, x) && Kind(net.cells, p) == FLUID && AllAtMost(net, x, PressureAt(net, x, p))
    requires 0 <= d < 4 && IsFluid(net.cells, Neighbour(p, d))
    ensures PressureAt(net, x, Neighbour(p, d)) == PressureAt(net, x, p)
  {
    hide PressureAt;
    hide FlowTo;
    hide IsFluid;
    assert NetOutflow(net, x, p) == 0.0;
    FlowSign(net, x, p, 0);
    FlowSign(net, x, p, 1);
    FlowSign(net, x, p, 2);
    FlowSign(net, x, p, 3);
  }

  lemma TouchesFluid(cells: seq<seq<int>>, p: Cell, s: nat)
    requires Touches(cells, p, s)
    ensures IsFluid(cells, p)
  {
  }

  lemma {:induction false} MaximumAtPort(net: Network, x: Vector, p: Cell, s: nat, hi: real)
    requires net.c > 0.0 && Balanced(net, x) && PortsAtMost(net, x, hi) && Touches(net.cells, p, s)
    requires AllAtMost(net, x, PressureAt(net, x, p))
    ensures PressureAt(net, x, p) <= hi
    decreases s
  {
    hide Balanced;
    hide PressureAt;
    if !IsPort(net.cells, p) {
      var d :| 0 <= d < 4 && Touches(net.cells, Neighbour(p, d), s - 1);
      TouchesFluid(net.cells, Neighbour(p, d), s - 1);
      MaximumSpreads(net, x, p, d);
      MaximumAtPort(net, x, Neighbour(p, d), s - 1, hi);
    }
  }

  lemma {:induction false} LargestNode(net: Network, x: Vector, n: nat) returns (k: int)
    requires 0 < n <= |net.order|
    ensures 0 <= k < n && forall l :: 0 <= l < n ==> Elem(x, l) <= Elem(x, k)
  {
    if n == 1 {
      k := 0;
    } else {
      k := LargestNode(net, x, n - 1);
      if Elem(x, k) < Elem(x, n - 1) {
        k := n - 1;
      }
    }
  }

  /** Balanced pressures of a grounded network nowhere exceed the largest port pressure. */
  lemma MaximumPrinciple(net: Network, x: Vector, hi: real)
    requires Numbered(net) && AllGrounded(net.cells) && Balanced(net, x) && PortsAtMost(net, x, hi)
    ensures AllAtMost(net, x, hi)
  {
    hide Balanced;
    hide PortsAtMost;
    hide IsFluid;
    hide Elem;
    hide Node;
    if |net.order| > 0 {
      var k := LargestNode(net, x, |net.order|);
      var top := CellOf(net, k);
      NodeIsInverse(net, top);
      forall p: Cell | IsFluid(net.cells, p) ensures PressureAt(net, x, p) <= PressureAt(net, x, top) {
        NodeIsInverse(net, p);
      }
      assert IsFluid(net.cells, top);
      assert Grounded(net.cells, top);
      var s: nat :| Touches(net.cells, top, s);
      MaximumAtPort(net, x, top, s, hi);
    } else {
      forall p: Cell ensures !IsFluid(net.cells, p) {
        NodeIsInverse(net, p);
      }
    }
  }

  function Negated(x: Vector): (y: Vector)
    ensures |y| == |x| && forall k :: Elem(y, k) == -Elem(x, k)
  {
    seq(|x|, k requires 0 <= k < |x| => -x[k])
  }

  lemma NegatedOutflow(net: Network, x: Vector, p: Cell)
    ensures NetOutflow(net, Negated(x), p) == -NetOutflow(net, x, p)
  {
    hide Elem;
    hide Node;
    hide FlowTo;
    NegatedFlow(net, x, p, 0);
    NegatedFlow(net, x, p, 1);
    NegatedFlow(net, x, p, 2);
    NegatedFlow(net, x, p, 3);
  }

  lemma NegatedFlow(net: Network, x: Vector, p: Cell, d: int)
    ensures FlowTo(net, Negated(x), p, d) == -FlowTo(net, x, p, d)
  {
    hide Elem;
    hide Node;
    hide Neighbour;
    hide IsFluid;
  }

  lemma MinimumPrinciple(net: Network, x: Vector, lo: real)
    requires Numbered(net) && AllGrounded(net.cells) && Balanced(net, x)
    requires forall p: Cell :: IsPort(net.cells, p) ==> PressureAt(net, x, p) >= lo
    ensures forall p: Cell :: IsFluid(net.cells, p) ==> PressureAt(net, x, p) >= lo
  {
    hide NetOutflow;
    hide Numbered;
    hide AllGrounded;
    hide IsFluid;
    hide IsPort;
    var y := Negated(x);
    forall p: Cell ensures PressureAt(net, y, p) == -PressureAt(net, x, p) {
    }
    forall p: Cell | Kind(net.cells, p) == FLUID ensures NetOutflow(net, y, p) == 0.0 {
      NegatedOutflow(net, x, p);
    }
    MaximumPrinciple(net, y, -lo);
    forall p: Cell | IsFluid(net.cells, p) ensures PressureAt(net, x, p) >= lo {
      assert PressureAt(net, y, p) <= -lo;
    }
  }

  lemma SolutionIsBalanced(net: Network, a: Matrix, b: Vector, x: Vector)
    requires Numbered(net) && IsSystem(net, a, b) && Solves(a, x, b, |net.order|)
    ensures Balanced(net, x)
  {
    hide NetOutflow;
    hide Numbered;
    hide IsSystem;
    forall p: Cell | Kind(net.cells, p) == FLUID ensures NetOutflow(net, x, p) == 0.0 {
      FlowIsConserved(net, a, b, x, p);
    }
  }

  lemma PortPressure(net: Network, a: Matrix, b: Vector, x: Vector, p: Cell)
    requires Numbered(net) && IsSystem(net, a, b) && Solves(a, x, b, |net.order|) && IsPort(net.cells, p)
    ensures PressureAt(net, x, p) == if Kind(net.cells, p) == INLET then net.pressure else 0.0
  {
    hide RowTimes;
    var k := Node(net, p);
    FixedRow(net, a, b, x, k);
    assert RowTimes(a, k, x, |net.order|) == Elem(b, k) == Rhs(net, k);
  }

  /** With a non-negative pumping pressure every pressure lies between zero and it. */
  lemma PressuresAreBounded(net: Network, a: Matrix, b: Vector, x: Vector)
    requires Numbered(net) && IsSystem(net, a, b) && Solves(a, x, b, |net.order|)
    requires AllGrounded(net.cells) && net.pressure >= 0.0
    ensures forall p: Cell :: IsFluid(net.cells, p) ==> 0.0 <= PressureAt(net, x, p) <= net.pressure
  {
    hide NetOutflow;
    hide Numbered;
    hide IsSystem;
    hide Solves;
    hide Balanced;
    hide AllGrounded;
    hide PressureAt;
    SolutionIsBalanced(net, a, b, x);
    forall p: Cell | IsPort(net.cells, p) ensures 0.0 <= PressureAt(net, x, p) <= net.pressure {
      PortPressure(net, a, b, x, p);
    }
    MaximumPrinciple(net, x, net.pressure);
    MinimumPrinciple(net, x, 0.0);
  }

  /** The inlets never draw coolant out of the network: every side of an inlet carries flow away from it. */
  lemma InletsPump(net: Network, a: Matrix, b: Vector, x: Vector)
    requires Numbered(net) && IsSystem(net, a, b) && Solves(a, x, b, |net.order|)
    requires AllGrounded(net.cells) && net.pressure >= 0.0
    ensures forall p: Cell, d :: Kind(net.cells, p) == INLET && 0 <= d < 4 ==> FlowTo(net, x, p, d) >= 0.0
    ensures FlowFrom(net, x, INLET) >= 0.0
  {
    hide NetOutflow;
    hide FlowTo;
    hide Sum;
    hide IsSystem;
    hide Solves;
    hide AllGrounded;
    hide PressureAt;
    hide Neighbour;
    hide IsFluid;
    PressuresAreBounded(net, a, b, x);
    forall p: Cell, d | Kind(net.cells, p) == INLET && 0 <= d < 4 ensures FlowTo(net, x, p, d) >= 0.0 {
      PortPressure(net, a, b, x, p);
      FlowSign(net, x, p, d);
    }
    var f := k => if Kind(net.cells, CellOf(net, k)) == INLET then NetOutflow(net, x, CellOf(net, k)) else 0.0;
    forall k | 0 <= k < |net.order| ensures f(k) >= 0.0 {
      if Kind(net.cells, CellOf(net, k)) == INLET {
        FourSides(net, x, CellOf(net, k));
      }
    }
    SumNonNegative(0, |net.order|, f);
  }

  lemma FourSides(net: Network, x: Vector, p: Cell)
    requires forall d :: 0 <= d < 4 ==> FlowTo(net, x, p, d) >= 0.0
    ensures NetOutflow(net, x, p) >= 0.0
  {
    hide FlowTo;
  }

  // ---------------------------------------------------------------- when the system can be solved

  lemma GroundedIsSolvable(net: Network, a: Matrix, b: Vector)
    requires Numbered(net) && IsSystem(net, a, b) && AllGrounded(net.cells)
    ensures TrivialKernel(a, |net.order|)
  {
    hide Solves;
    hide AllGrounded;
    hide PressureAt;
    var n := |net.order|;
    forall x: Vector | |x| == n && Solves(a, x, Zeros(n), n) ensures x == Zeros(n) {
      var still := net.(pressure := 0.0);
      StillPressures(still, a, x);
    }
  }

  lemma StillPressures(net: Network, a: Matrix, x: Vector)
    requires Numbered(net) && net.pressure == 0.0 && IsSystem(net, a, Zeros(|net.order|)) && AllGrounded(net.cells)
    requires |x| == |net.order| && Solves(a, x, Zeros(|net.order|), |net.order|)
    ensures x == Zeros(|net.order|)
  {
    hide Solves;
    hide AllGrounded;
    hide IsSystem;
    PressuresAreBounded(net, a, Zeros(|net.order|), x);
    forall k | 0 <= k < |x| ensures x[k] == 0.0 {
      NodeIsInverse(net, net.order[k]);
      assert PressureAt(net, x, net.order[k]) == 0.0;
    }
  }

  lemma GroundSpreads(cells: seq<seq<int>>, p: Cell, d: int)
    requires 0 <= d < 4 && IsFluid(cells, p) && Grounded(cells, Neighbour(p, d))
    ensures Grounded(cells, p)
  {
    hide IsFluid;
    hide Neighbour;
    var s: nat :| Touches(cells, Neighbour(p, d), s);
    assert Touches(cells, p, s + 1);
  }

  function Back(d: int): int {
    if d == 0 then 1 else if d == 1 then 0 else if d == 2 then 3 else 2
  }

  lemma ThereAndBack(p: Cell, d: int)
    requires 0 <= d < 4
    ensures Neighbour(Neighbour(p, d), Back(d)) == p
  {
  }

  /** Neighbouring fluid cells are both grounded or both not. */
  lemma GroundIsShared(cells: seq<seq<int>>, p: Cell, d: int)
    requires 0 <= d < 4 && IsFluid(cells, p) && IsFluid(cells, Neighbour(p, d))
    ensures Grounded(cells, p) <==> Grounded(cells, Neighbour(p, d))
  {
    hide IsFluid;
    hide Neighbour;
    hide Grounded;
    ThereAndBack(p, d);
    if Grounded(cells, p) {
      GroundSpreads(cells, Neighbour(p, d), Back(d));
    } else if Grounded(cells, Neighbour(p, d)) {
      GroundSpreads(cells, p, d);
    }
  }

  /** One on the cells without a port, zero elsewhere. */
  ghost function Floating(net: Network): (x: Vector)
    ensures |x| == |net.order|
  {
    seq(|net.order|, k requires 0 <= k < |net.order| => if Grounded(net.cells, net.order[k]) then 0.0 else 1.0)
  }

  lemma FloatingPressure(net: Network, p: Cell)
    requires Numbered(net) && IsFluid(net.cells, p)
    ensures PressureAt(net, Floating(net), p) == if Grounded(net.cells, p) then 0.0 else 1.0
  {
    hide Grounded;
    hide IsFluid;
    hide Numbered;
    hide Node;
    NodeIsInverse(net, p);
  }

  lemma FloatingFlow(net: Network, p: Cell, d: int)
    requires Numbered(net) && IsFluid(net.cells, p) && 0 <= d < 4
    ensures FlowTo(net, Floating(net), p, d) == 0.0
  {
    hide Grounded;
    hide IsFluid;
    hide Numbered;
    hide Node;
    hide Neighbour;
    hide Floating;
    if IsFluid(net.cells, Neighbour(p, d)) {
      GroundIsShared(net.cells, p, d);
      FloatingPressure(net, p);
      FloatingPressure(net, Neighbour(p, d));
    }
  }

  lemma FloatingKernelRow(net: Network, a: Matrix, b: Vector, k: int)
    requires Numbered(net) && IsSystem(net, a, b) && 0 <= k < |net.order|
    ensures RowTimes(a, k, Floating(net), |net.order|) == 0.0
  {
    hide RowTimes;
    hide Floating;
    hide IsSystem;
    hide FlowTo;
    hide Grounded;
    var p := net.order[k];
    NodeIsInverse(net, p);
    if Kind(net.cells, p) == FLUID {
      FluidRow(net, a, b, Floating(net), k);
      FloatingFlow(net, p, 0);
      FloatingFlow(net, p, 1);
      FloatingFlow(net, p, 2);
      FloatingFlow(net, p, 3);
    } else {
      FixedRow(net, a, b, Floating(net), k);
      FloatingPressure(net, p);
      PortIsGrounded(net.cells, p);
    }
  }

  lemma PortIsGrounded(cells: seq<seq<int>>, p: Cell)
    ensures IsPort(cells, p) ==> Grounded(cells, p)
  {
    assert IsPort(cells, p) ==> Touches(cells, p, 0);
  }

  lemma UngroundedIsSingular(net: Network, a: Matrix, b: Vector, p: Cell)
    requires Numbered(net) && IsSystem(net, a, b) && IsFluid(net.cells, p) && !Grounded(net.cells, p)
    ensures !TrivialKernel(a, |net.order|)
  {
    hide RowTimes;
    hide Floating;
    hide IsSystem;
    hide Grounded;
    hide Numbered;
    var n, x := |net.order|, Floating(net);
    forall k | 0 <= k < n ensures RowTimes(a, k, x, n) == Elem(Zeros(n), k) {
      FloatingKernelRow(net, a, b, k);
    }
    FloatingPressure(net, p);
    assert x != Zeros(n);
  }

  /** The circuit can be solved exactly when every fluid cell is connected to an inlet or an outlet. */
  lemma SolvableIffGrounded(net: Network, a: Matrix, b: Vector)
    requires Numbered(net) && IsSystem(net, a, b)
    ensures TrivialKernel(a, |net.order|) <==> AllGrounded(net.cells)
  {
    hide TrivialKernel;
    hide IsSystem;
    hide Numbered;
    hide IsFluid;
    hide Grounded;
    if AllGrounded(net.cells) {
      GroundedIsSolvable(net, a, b);
    } else {
      var p: Cell :| IsFluid(net.cells, p) && !Grounded(net.cells, p);
      UngroundedIsSingular(net, a, b, p);
    }
  }
}
