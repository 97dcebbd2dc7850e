/** The B-matrix loops of populate_R_model_block, set_internal_power_block and steady_state_temp_block
    (temperature_block.c). */
module ConductanceState {
  import opened RealArithmetic
  import opened RealMatrix
  import opened Lup
  import opened LupState
  import opened GaussJordan
  import opened Conductance

  const NL := 4
  const HSINK := 3
  const EXTRA := 12
  const SINK_C_W := 4

  function Nodes(n: nat): nat {
    NL * n + EXTRA
  }

  // ---------------------------------------------------------------- the matrix

  /** Two conductances, one seen from each side, in series. */
  function Series(x: real, y: real): real {
    if x == 0.0 || y == 0.0 || 1.0 / x + 1.0 / y == 0.0 then 0.0 else 1.0 / (1.0 / x + 1.0 / y)
  }

  function Coupling(g: Matrix, i: int, j: int): real {
    if i == j then 0.0 else -Series(At(g, i, j), At(g, j, i))
  }

  /** The conductance from node i to ambient: heat sink blocks and heat sink periphery only. */
  function ToAmbient(gAmb: Vector, n: nat, i: int): real {
    if HSINK * n <= i < NL * n then Elem(gAmb, i % n)
    else if i >= NL * n + SINK_C_W then Elem(gAmb, n + i - NL * n)
    else 0.0
  }

  function AmbientVector(gAmb: Vector, n: nat): (amb: Vector)
    ensures |amb| == Nodes(n) && forall i :: 0 <= i < Nodes(n) ==> Elem(amb, i) == ToAmbient(gAmb, n, i)
  {
    seq(Nodes(n), i => ToAmbient(gAmb, n, i))
  }

  function BEntry(g: Matrix, gAmb: Vector, n: nat, i: int, j: int): real {
    if i != j then Coupling(g, i, j)
    else ToAmbient(gAmb, n, i) - Sum(0, Nodes(n), q => Coupling(g, i, q))
  }

  ghost predicate IsB(b: Matrix, g: Matrix, gAmb: Vector, n: nat) {
    && IsSquare(b, Nodes(n))
    && forall i, j :: 0 <= i < Nodes(n) && 0 <= j < Nodes(n) ==> At(b, i, j) == BEntry(g, gAmb, n, i, j)
  }

  ghost predicate NonNegative(g: Matrix, gAmb: Vector) {
    (forall i, j :: At(g, i, j) >= 0.0) && (forall i :: Elem(gAmb, i) >= 0.0)
  }

  lemma CouplingSign(g: Matrix, gAmb: Vector, i: int, j: int)
    requires NonNegative(g, gAmb)
    ensures Coupling(g, i, j) == Coupling(g, j, i) <= 0.0
    ensures Coupling(g, i, j) < 0.0 <==> i != j && At(g, i, j) > 0.0 && At(g, j, i) > 0.0
  {
  }

  lemma BRowSum(g: Matrix, gAmb: Vector, n: nat, i: int)
    requires 0 <= i < Nodes(n)
    ensures Sum(0, Nodes(n), j => BEntry(g, gAmb, n, i, j)) == ToAmbient(gAmb, n, i)
  {
    hide Sum;
    hide ToAmbient;
    hide Nodes;
    var m := Nodes(n);
    var f, d := j => Coupling(g, i, j), j => if j == i then BEntry(g, gAmb, n, i, i) else 0.0;
    SumEqual(0, m, j => BEntry(g, gAmb, n, i, j), j => f(j) + d(j));
    SumAdd(0, m, f, d);
    SumSingle(0, m, i, d);
  }

  /** For non-negative conductances the stored matrix is a resistor network with these ambient conductances. */
  lemma BIsNetwork(b: Matrix, g: Matrix, gAmb: Vector, n: nat)
    requires IsB(b, g, gAmb, n) && NonNegative(g, gAmb)
    ensures IsNetwork(b, AmbientVector(gAmb, n), Nodes(n))
  {
    hide Sum;
    hide Nodes;
    hide Coupling;
    hide ToAmbient;
    hide AmbientVector;
    hide NonNegative;
    var m, amb := Nodes(n), AmbientVector(gAmb, n);
    forall i | 0 <= i < m ensures Elem(amb, i) >= 0.0 && Sum(0, m, j => At(b, i, j)) == Elem(amb, i) {
      AmbientSign(g, gAmb, n, i);
      BRowSum(g, gAmb, n, i);
      SumEqual(0, m, j => At(b, i, j), j => BEntry(g, gAmb, n, i, j));
    }
    forall i, j | 0 <= i < m && 0 <= j < m ensures At(b, i, j) == At(b, j, i) && (i != j ==> At(b, i, j) <= 0.0) {
      CouplingSign(g, gAmb, i, j);
    }
  }

  lemma AmbientSign(g: Matrix, gAmb: Vector, n: nat, i: int)
    requires NonNegative(g, gAmb)
    ensures ToAmbient(gAmb, n, i) >= 0.0
  {
  }

  // ---------------------------------------------------------------- what a coupling means

  lemma SeriesIs(x: real, y: real)
    requires x > 0.0 && y > 0.0
    ensures Series(x, y) * (x + y) == x * y && Series(x, y) > 0.0
  {
    var p, q := 1.0 / x, 1.0 / y;
    PositiveProduct(1.0, x);
    PositiveProduct(1.0, y);
    Quotient(1.0, x);
    Quotient(1.0, y);
    PositiveProduct(1.0, p + q);
    var s := 1.0 / (p + q);
    Quotient(1.0, p + q);
    SumOfReciprocals(x, y, p, q);
    Unscale(s, p + q, x * y, x + y);
  }

  lemma SumOfReciprocals(x: real, y: real, p: real, q: real)
    requires p * x == 1.0 && q * y == 1.0
    ensures (p + q) * (x * y) == x + y
  {
    Distribute(p, q, x * y);
    Associate(p, x, y);
    assert p * (x * y) == (p * x) * y;
    assert q * (x * y) == (q * y) * x;
  }

  lemma Unscale(s: real, r: real, a: real, c: real)
    requires s * r == 1.0 && r * a == c
    ensures s * c == a
  {
    assert s * c == s * (r * a) == (s * r) * a;
  }

  /** At interface temperature u as much heat arrives from one side as leaves to the other. */
  ghost predicate Balanced(x: real, y: real, ti: real, tj: real, u: real) {
    x * (ti - u) == y * (u - tj)
  }

  /** Half resistors in series: between two blocks at temperatures ti and tj there is exactly one temperature of the
      interface at which as much heat arrives as leaves, and that heat is minus the entry of B times their difference. */
  lemma CouplingIsSeries(b: Matrix, g: Matrix, gAmb: Vector, n: nat, i: int, j: int, ti: real, tj: real) returns (t: real)
    requires IsB(b, g, gAmb, n) && 0 <= i < Nodes(n) && 0 <= j < Nodes(n) && i != j
    requires At(g, i, j) > 0.0 && At(g, j, i) > 0.0
    ensures At(g, i, j) * (ti - t) == At(g, j, i) * (t - tj) == -At(b, i, j) * (ti - tj)
    ensures forall u :: Balanced(At(g, i, j), At(g, j, i), ti, tj, u) <==> u == t
  {
    hide Series;
    hide ToAmbient;
    var x, y, d := At(g, i, j), At(g, j, i), ti - tj;
    var s := Series(x, y);
    assert At(b, i, j) == BEntry(g, gAmb, n, i, j) == -s;
    SeriesIs(x, y);
    t := tj + x * d / (x + y);
    InterfaceBalance(x, y, d, x * d / (x + y), s);
    forall u | Balanced(x, y, ti, tj, u) ensures u == t {
      OneInterface(x, y, ti, tj, u, t);
    }
  }

  lemma InterfaceBalance(x: real, y: real, d: real, q: real, s: real)
    requires x > 0.0 && y > 0.0 && q == x * d / (x + y) && s * (x + y) == x * y
    ensures x * (d - q) == y * q == s * d
  {
    Quotient(x * d, x + y);
    Distribute(x, y, q);
    Distribute(d, -q, x);
    var a, b := y * q, s * d;
    assert a * (x + y) == y * (q * (x + y)) == y * (x * d);
    assert b * (x + y) == d * (s * (x + y)) == d * (x * y);
    SameFactor(a, b, x + y);
  }

  lemma SameFactor(a: real, b: real, c: real)
    requires c > 0.0 && a * c == b * c
    ensures a == b
  {
    var d := a - b;
    assert d * c == 0.0;
    ZeroFactor(c, d);
  }

  lemma OneInterface(x: real, y: real, ti: real, tj: real, u: real, t: real)
    requires x > 0.0 && y > 0.0 && x * (ti - u) == y * (u - tj) && x * (ti - t) == y * (t - tj)
    ensures u == t
  {
    var d := t - u;
    assert x * (ti - u) - x * (ti - t) == x * d;
    assert y * (u - tj) - y * (t - tj) == -(y * d);
    Distribute(x, y, d);
    ZeroFactor(x + y, d);
  }

  /** Where either half conducts nothing, no heat flows. */
  lemma NoCoupling(b: Matrix, g: Matrix, gAmb: Vector, n: nat, i: int, j: int)
    requires IsB(b, g, gAmb, n) && 0 <= i < Nodes(n) && 0 <= j < Nodes(n) && i != j
    requires At(g, i, j) == 0.0 || At(g, j, i) == 0.0
    ensures At(b, i, j) == 0.0
  {
    hide ToAmbient;
    assert At(b, i, j) == BEntry(g, gAmb, n, i, j);
  }

  /** Where the heat leaves: from the heat sink under each block, and from the sink's own periphery. */
  lemma HeatToAmbient(gAmb: Vector, n: nat, x: int -> real)
    ensures Sum(0, Nodes(n), i => ToAmbient(gAmb, n, i) * x(i))
         == Sum(0, n, q => Elem(gAmb, q) * x(HSINK * n + q))
            + Sum(SINK_C_W, EXTRA, k => Elem(gAmb, n + k) * x(NL * n + k))
  {
    hide Sum;
    hide Elem;
    hide ToAmbient;
    var m := Nodes(n);
    var f := i => ToAmbient(gAmb, n, i) * x(i);
    forall i | 0 <= i < HSINK * n || NL * n <= i < NL * n + SINK_C_W ensures f(i) == 0.0 {
      Insulated(gAmb, n, i, x(i));
    }
    SumSplit(0, HSINK * n, m, f);
    SumZero(0, HSINK * n, f);
    SumSplit(HSINK * n, NL * n, m, f);
    SumSplit(NL * n, NL * n + SINK_C_W, m, f);
    SumZero(NL * n, NL * n + SINK_C_W, f);
    var blocks, sides := q => Elem(gAmb, q) * x(HSINK * n + q), k => Elem(gAmb, n + k) * x(NL * n + k);
    var blocks', sides' := q => f(q + HSINK * n), k => f(k + NL * n);
    forall q | 0 <= q < n ensures blocks(q) == blocks'(q) {
      SinkBlock(gAmb, n, q);
      assert HSINK * n + q == q + HSINK * n;
    }
    forall k | SINK_C_W <= k < EXTRA ensures sides(k) == sides'(k) {
      SinkSide(gAmb, n, k);
      assert NL * n + k == k + NL * n;
    }
    SumEqual(0, n, blocks, blocks');
    SumShift(0, n, HSINK * n, f);
    SumEqual(SINK_C_W, EXTRA, sides, sides');
    SumShift(SINK_C_W, EXTRA, NL * n, f);
  }

  lemma Insulated(gAmb: Vector, n: nat, i: int, x: real)
    requires 0 <= i < HSINK * n || NL * n <= i < NL * n + SINK_C_W
    ensures ToAmbient(gAmb, n, i) * x == 0.0
  {
    assert ToAmbient(gAmb, n, i) == 0.0;
  }

  lemma SinkBlock(gAmb: Vector, n: nat, q: int)
    requires 0 <= q < n
    ensures ToAmbient(gAmb, n, HSINK * n + q) == Elem(gAmb, q)
  {
    SinkColumn(n, HSINK * n + q);
  }

  lemma SinkSide(gAmb: Vector, n: nat, k: int)
    requires SINK_C_W <= k < EXTRA
    ensures ToAmbient(gAmb, n, NL * n + k) == Elem(gAmb, n + k)
  {
  }

  // ---------------------------------------------------------------- power and temperature

  /** The power vector after set_internal_power_block. */
  function InternalPower(power: Vector, gAmb: Vector, ambient: real, n: nat): (p: Vector)
    ensures |p| == Nodes(n)
    ensures forall i :: 0 <= i < Nodes(n) ==>
      Elem(p, i) == if i < n then Elem(power, i) else if i < HSINK * n then 0.0 else ambient * Elem(gAmb, i - HSINK * n)
  {
    seq(Nodes(n), i => if i < n then Elem(power, i) else if i < HSINK * n then 0.0 else ambient * Elem(gAmb, i - HSINK * n))
  }

  /** zero_dvector leaves these entries of g_amb at zero: the spreader periphery does not touch the ambient. */
  ghost predicate SpreaderInsulated(gAmb: Vector, n: nat) {
    |gAmb| == n + EXTRA && forall i :: n <= i < n + SINK_C_W ==> gAmb[i] == 0.0
  }

  lemma SinkColumn(n: nat, i: int)
    requires HSINK * n <= i < NL * n
    ensures i % n == i - HSINK * n
  {
    assert i / n * n + i % n == i;
  }

  /** Relative to ambient, only the silicon blocks inject heat. */
  lemma InjectedHeat(power: Vector, gAmb: Vector, ambient: real, n: nat, i: int)
    requires SpreaderInsulated(gAmb, n) && 0 <= i < Nodes(n)
    ensures Elem(InternalPower(power, gAmb, ambient, n), i) - ambient * ToAmbient(gAmb, n, i)
         == if i < n then Elem(power, i) else 0.0
  {
    hide InternalPower;
    if HSINK * n <= i < NL * n {
      SinkColumn(n, i);
    }
  }

  ghost predicate IsSteadyState(b: Matrix, gAmb: Vector, power: Vector, ambient: real, n: nat, temp: Vector) {
    |temp| == Nodes(n) && Solves(b, temp, InternalPower(power, gAmb, ambient, n), Nodes(n))
  }

  lemma SteadyRow(b: Matrix, g: Matrix, gAmb: Vector, power: Vector, ambient: real, n: nat, temp: Vector, i: int)
    requires IsB(b, g, gAmb, n) && NonNegative(g, gAmb) && SpreaderInsulated(gAmb, n)
    requires IsSteadyState(b, gAmb, power, ambient, n, temp) && 0 <= i < Nodes(n)
    ensures RowTimes(b, i, Relative(temp, ambient), Nodes(n)) == if i < n then Elem(power, i) else 0.0
  {
    hide RowTimes;
    hide InternalPower;
    hide Relative;
    hide IsB;
    hide NonNegative;
    hide SpreaderInsulated;
    hide AmbientVector;
    hide ToAmbient;
    BIsNetwork(b, g, gAmb, n);
    RelativeRow(b, AmbientVector(gAmb, n), Nodes(n), temp, ambient, i);
    InjectedHeat(power, gAmb, ambient, n, i);
  }

  /** With non-negative block power no steady-state temperature is below ambient, provided every node is
      connected to ambient. */
  lemma NoBlockBelowAmbient(b: Matrix, g: Matrix, gAmb: Vector, power: Vector, ambient: real, n: nat, temp: Vector)
    requires IsB(b, g, gAmb, n) && NonNegative(g, gAmb) && SpreaderInsulated(gAmb, n)
    requires IsSteadyState(b, gAmb, power, ambient, n, temp) && AllConnected(b, AmbientVector(gAmb, n), Nodes(n))
    requires forall i :: 0 <= i < n ==> Elem(power, i) >= 0.0
    ensures forall i :: 0 <= i < Nodes(n) ==> Elem(temp, i) >= ambient
  {
    hide IsB;
    hide NonNegative;
    hide SpreaderInsulated;
    hide RowTimes;
    hide Solves;
    hide InternalPower;
    hide AllConnected;
    hide Elem;
    var m, x := Nodes(n), Relative(temp, ambient);
    BIsNetwork(b, g, gAmb, n);
    forall i | 0 <= i < m ensures RowTimes(b, i, x, m) >= 0.0 {
      SteadyRow(b, g, gAmb, power, ambient, n, temp, i);
    }
    NothingBelowAmbient(b, AmbientVector(gAmb, n), m, x);
    forall i | 0 <= i < m ensures Elem(temp, i) >= ambient {
      assert Elem(x, i) >= 0.0;
    }
  }

  /** In steady state the power of the silicon blocks equals the heat passed to the ambient. */
  lemma PowerLeavesToAmbient(b: Matrix, g: Matrix, gAmb: Vector, power: Vector, ambient: real, n: nat, temp: Vector)
    requires IsB(b, g, gAmb, n) && NonNegative(g, gAmb) && SpreaderInsulated(gAmb, n)
    requires IsSteadyState(b, gAmb, power, ambient, n, temp)
    ensures Sum(0, n, i => Elem(power, i))
         == Sum(0, Nodes(n), i => ToAmbient(gAmb, n, i) * (Elem(temp, i) - ambient))
    ensures Sum(0, n, i => Elem(power, i))
         == Sum(0, n, q => Elem(gAmb, q) * (Elem(temp, HSINK * n + q) - ambient))
            + Sum(SINK_C_W, EXTRA, k => Elem(gAmb, n + k) * (Elem(temp, NL * n + k) - ambient))
  {
    hide IsB;
    hide NonNegative;
    hide SpreaderInsulated;
    hide RowTimes;
    hide Solves;
    hide InternalPower;
    hide Elem;
    hide Sum;
    hide ToAmbient;
    var m, x, amb := Nodes(n), Relative(temp, ambient), AmbientVector(gAmb, n);
    BIsNetwork(b, g, gAmb, n);
    HeatIsConserved(b, amb, m, x);
    var f := i => if 0 <= i < n then Elem(power, i) else 0.0;
    forall i | 0 <= i < m ensures RowTimes(b, i, x, m) == f(i) {
      SteadyRow(b, g, gAmb, power, ambient, n, temp, i);
    }
    SumEqual(0, m, i => RowTimes(b, i, x, m), f);
    SumSplit(0, n, m, f);
    SumZero(n, m, f);
    SumEqual(0, n, f, i => Elem(power, i));
    SumEqual(0, m, i => Elem(amb, i) * Elem(x, i), i => ToAmbient(gAmb, n, i) * (Elem(temp, i) - ambient));
    HeatPaths(gAmb, temp, ambient, n);
  }

  lemma HeatPaths(gAmb: Vector, temp: Vector, ambient: real, n: nat)
    ensures Sum(0, Nodes(n), i => ToAmbient(gAmb, n, i) * (Elem(temp, i) - ambient))
         == Sum(0, n, q => Elem(gAmb, q) * (Elem(temp, HSINK * n + q) - ambient))
            + Sum(SINK_C_W, EXTRA, k => Elem(gAmb, n + k) * (Elem(temp, NL * n + k) - ambient))
  {
    hide Sum;
    hide Elem;
    hide ToAmbient;
    var rise := i => Elem(temp, i) - ambient;
    HeatToAmbient(gAmb, n, rise);
    SumEqual(0, Nodes(n), i => ToAmbient(gAmb, n, i) * (Elem(temp, i) - ambient), i => ToAmbient(gAmb, n, i) * rise(i));
    SumEqual(0, n, q => Elem(gAmb, q) * (Elem(temp, HSINK * n + q) - ambient), q => Elem(gAmb, q) * rise(HSINK * n + q));
    SumEqual(SINK_C_W, EXTRA, k => Elem(gAmb, n + k) * (Elem(temp, NL * n + k) - ambient),
      k => Elem(gAmb, n + k) * rise(NL * n + k));
  }

  // ---------------------------------------------------------------- the loops

  method SeriesOf(x: real, y: real) returns (c: real)
    requires x >= 0.0 && y >= 0.0
    ensures c == Series(x, y)
  {
    if x == 0.0 || y == 0.0 {
      c := 0.0;
    } else {
      c := 1.0 / (1.0 / x + 1.0 / y);
    }
  }

  /** The non-diagonal elements. */
  method FillOffDiagonal(g: array2<real>, ghost gAmb: Vector, b: array2<real>, n: nat)
    requires g.Length0 == g.Length1 == b.Length0 == b.Length1 == Nodes(n) && g != b && NonNegative(Rows(g), gAmb)
    modifies b
    ensures forall i, j :: 0 <= i < Nodes(n) && 0 <= j < Nodes(n) && i != j ==> b[i, j] == Coupling(Rows(g), i, j)
  {
    hide Rows;
    hide Coupling;
    ghost var m := Rows(g);
    for i := 0 to Nodes(n)
      invariant forall h, q :: 0 <= h < i && 0 <= q < i && h != q ==> b[h, q] == Coupling(m, h, q)
    {
      for j := 0 to i
        invariant forall h, q :: 0 <= h < i && 0 <= q < i && h != q ==> b[h, q] == Coupling(m, h, q)
        invariant forall q :: 0 <= q < j ==> b[i, q] == Coupling(m, i, q) && b[q, i] == Coupling(m, q, i)
      {
        assert m[i][j] == g[i, j] && m[j][i] == g[j, i];
        CouplingIs(m, gAmb, i, j);
        var c := SeriesOf(g[i, j], g[j, i]);
        b[i, j] := -c;
        b[j, i] := -c;
      }
    }
  }

  lemma CouplingIs(m: Matrix, gAmb: Vector, i: int, j: int)
    requires NonNegative(m, gAmb) && 0 <= j < i < |m| && |m[i]| == |m[j]| == |m|
    ensures m[i][j] >= 0.0 && m[j][i] >= 0.0
    ensures Coupling(m, i, j) == Coupling(m, j, i) == -Series(m[i][j], m[j][i])
  {
    assert At(m, i, j) >= 0.0 && At(m, j, i) >= 0.0;
  }

  /** One diagonal element. */
  method FillDiagonalElement(gAmb: array<real>, b: array2<real>, n: nat, i: int)
    requires b.Length0 == b.Length1 == Nodes(n) && gAmb.Length == n + EXTRA && 0 <= i < Nodes(n)
    modifies b
    ensures forall h, q :: 0 <= h < Nodes(n) && 0 <= q < Nodes(n) && (h != i || q != i) ==> b[h, q] == old(b[h, q])
    ensures var row := old(Rows(b)); b[i, i] == ToAmbient(gAmb[..], n, i) - Sum(0, Nodes(n), q => if q == i then 0.0 else At(row, i, q))
  {
    hide Rows;
    ghost var row := Rows(b);
    if i >= HSINK * n && i < NL * n {
      b[i, i] := gAmb[i % n];
    } else if i >= NL * n + SINK_C_W {
      b[i, i] := gAmb[n + i - NL * n];
    } else {
      b[i, i] := 0.0;
    }
    for j := 0 to Nodes(n)
      invariant forall h, q :: 0 <= h < Nodes(n) && 0 <= q < Nodes(n) && (h != i || q != i) ==> b[h, q] == old(b[h, q])
      invariant b[i, i] == ToAmbient(gAmb[..], n, i) - Sum(0, j, q => if q == i then 0.0 else At(row, i, q))
    {
      if i != j {
        assert row[i][j] == old(b[i, j]);
        b[i, i] := b[i, i] - b[i, j];
      }
    }
  }

  /** Both loops: b becomes the conductance matrix. */
  method FillB(g: array2<real>, gAmb: array<real>, b: array2<real>, n: nat)
    requires g.Length0 == g.Length1 == b.Length0 == b.Length1 == Nodes(n) && g != b
    requires gAmb.Length == n + EXTRA && NonNegative(Rows(g), gAmb[..])
    modifies b
    ensures IsB(Rows(b), Rows(g), gAmb[..], n)
  {
    hide Rows;
    hide Coupling;
    hide ToAmbient;
    hide Sum;
    hide NonNegative;
    ghost var m, amb := Rows(g), gAmb[..];
    FillOffDiagonal(g, amb, b, n);
    for i := 0 to Nodes(n)
      invariant forall h, q :: 0 <= h < Nodes(n) && 0 <= q < Nodes(n) && h != q ==> b[h, q] == Coupling(m, h, q)
      invariant forall h :: 0 <= h < i ==> b[h, h] == BEntry(m, amb, n, h, h)
    {
      ghost var r := Rows(b);
      SumEqual(0, Nodes(n), q => if q == i then 0.0 else At(r, i, q), q => Coupling(m, i, q)) by {
        NoSelfCoupling(m, i);
        forall q | 0 <= q < Nodes(n) && q != i ensures At(r, i, q) == Coupling(m, i, q) {
        }
      }
      FillDiagonalElement(gAmb, b, n, i);
    }
    forall i, j | 0 <= i < Nodes(n) && 0 <= j < Nodes(n) ensures At(Rows(b), i, j) == BEntry(m, amb, n, i, j) {
    }
  }

  lemma NoSelfCoupling(g: Matrix, i: int)
    ensures Coupling(g, i, i) == 0.0
  {
  }

  // ---------------------------------------------------------------- the model object

  /** The steady-state part of block_model_t. */
  class BlockModel {
    const n: nat
    const ambient: real
    const gAmb: array<real>
    const b: array2<real>
    const lu: array2<real>
    const p: array<int>
    ghost var conductances: Matrix
    var ready: bool

    ghost predicate Valid() {
      && gAmb.Length == n + EXTRA && p.Length == Nodes(n)
      && b.Length0 == b.Length1 == lu.Length0 == lu.Length1 == Nodes(n)
      && b != lu
    }

    constructor (n: nat, ambient: real)
      ensures Valid() && this.n == n && this.ambient == ambient && !ready
      ensures fresh(gAmb) && fresh(b) && fresh(lu) && fresh(p)
    {
      this.n, this.ambient, ready, conductances := n, ambient, false, [];
      gAmb := new real[n + EXTRA](i => 0.0);
      b := new real[Nodes(n), Nodes(n)];
      lu := new real[Nodes(n), Nodes(n)];
      p := new int[Nodes(n)];
    }

    /** b is the network of the recorded conductances and lu, p factor it. */
    ghost predicate Factorized()
      reads this, gAmb, b, lu, p
    {
      && Valid() && NonNegative(conductances, gAmb[..])
      && IsB(Rows(b), conductances, gAmb[..], n) && IsLUP(Rows(b), Rows(lu), p[..], Nodes(n))
    }

    method CopyMatrix()
      requires Valid()
      modifies lu
      ensures Rows(lu) == Rows(b)
    {
      for i := 0 to Nodes(n)
        invariant forall h, q :: 0 <= h < i && 0 <= q < Nodes(n) ==> lu[h, q] == b[h, q]
      {
        for j := 0 to Nodes(n)
          invariant forall h, q :: 0 <= h < i && 0 <= q < Nodes(n) ==> lu[h, q] == b[h, q]
          invariant forall q :: 0 <= q < j ==> lu[i, q] == b[i, q]
        {
          lu[i, j] := b[i, j];
        }
      }
      SameMatrix(Rows(lu), Rows(b));
    }

    /** The end of populate_R_model_block: build B from g and g_amb and factor it. It aborts exactly when some column
        to be eliminated has fallen below the tolerance. Otherwise the last pivot tells whether every node is
        connected to ambient. */
    method PopulateR(g: array2<real>) returns (ok: bool)
      requires Valid() && g.Length0 == g.Length1 == Nodes(n) && g != b && g != lu
      requires NonNegative(Rows(g), gAmb[..])
      modifies this, b, lu, p
      ensures IsB(Rows(b), Rows(g), gAmb[..], n)
      ensures ok <==> !GetsStuck(Rows(b), Nodes(n))
      ensures ok ==> ready && Factorized() && conductances == Rows(g)
      ensures ok ==>
        (U(Rows(lu), Nodes(n) - 1, Nodes(n) - 1) != 0.0 <==> AllConnected(Rows(b), AmbientVector(gAmb[..], n), Nodes(n)))
    {
      hide Rows;
      hide IsB;
      hide IsLUP;
      hide NonNegative;
      hide GetsStuck;
      hide AllConnected;
      hide Lupdcmp;
      hide U;
      FillB(g, gAmb, b, n);
      CopyMatrix();
      ok := LupdcmpInPlace(lu, p);
      AbortsIffColumnVanishes(Rows(b), Nodes(n));
      if ok {
        LastPivot(Rows(b), Rows(lu), p[..], Rows(g), gAmb[..], n);
        conductances := Rows(g);
        ready := true;
      }
    }

    /** set_internal_power_block */
    method SetInternalPower(power: array<real>)
      requires Valid() && power.Length == Nodes(n) && power != gAmb
      modifies power
      ensures power[..] == InternalPower(old(power[..]), gAmb[..], ambient, n)
    {
      for i := n to HSINK * n
        invariant forall q :: 0 <= q < Nodes(n) ==> power[q] == if n <= q < i then 0.0 else old(power[q])
      {
        power[i] := 0.0;
      }
      for i := 0 to n + EXTRA
        invariant forall q :: 0 <= q < HSINK * n ==> power[q] == if n <= q then 0.0 else old(power[q])
        invariant forall q :: HSINK * n <= q < HSINK * n + i ==> power[q] == ambient * gAmb[q - HSINK * n]
      {
        power[HSINK * n + i] := ambient * gAmb[i];
      }
      var e := InternalPower(old(power[..]), gAmb[..], ambient, n);
      forall q | 0 <= q < Nodes(n) ensures power[q] == e[q] {
        assert Elem(e, q) == e[q];
      }
    }

    /** steady_state_temp_block on a network whose every node is connected to ambient: the temperatures solve the
        original system. The connection is what keeps the substitution from dividing by zero. */
    method SteadyStateTemp(power: array<real>, temp: array<real>) returns (ok: bool)
      requires Factorized() && AllConnected(Rows(b), AmbientVector(gAmb[..], n), Nodes(n))
      requires power.Length == temp.Length == Nodes(n)
      requires power != temp && power != gAmb && temp != gAmb
      modifies power, temp
      ensures ok <==> ready
      ensures ok ==> IsSteadyState(Rows(b), gAmb[..], old(power[..]), ambient, n, temp[..])
    {
      hide Rows;
      hide IsB;
      hide IsLUP;
      hide NonNegative;
      hide AllConnected;
      hide Lusolve;
      hide U;
      if !ready {
        return false;
      }
      ghost var m, bm, f, pp := Nodes(n), Rows(b), Rows(lu), p[..];
      SetInternalPower(power);
      ghost var v := power[..];
      LastPivot(bm, f, pp, conductances, gAmb[..], n);
      PermutationRange(bm, f, pp, m);
      LusolveSolves(bm, f, pp, v, m);
      LusolveArrays(lu, p, power, temp);
      return true;
    }
  }

  lemma LastPivot(b: Matrix, lu: Matrix, p: seq<int>, g: Matrix, gAmb: Vector, n: nat)
    requires IsB(b, g, gAmb, n) && NonNegative(g, gAmb) && IsLUP(b, lu, p, Nodes(n))
    ensures U(lu, Nodes(n) - 1, Nodes(n) - 1) != 0.0 <==> AllConnected(b, AmbientVector(gAmb, n), Nodes(n))
  {
    hide IsB;
    hide IsLUP;
    hide NonNegative;
    hide AllConnected;
    hide Solves;
    hide U;
    var m := Nodes(n);
    BIsNetwork(b, g, gAmb, n);
    NonSingularIffConnected(b, AmbientVector(gAmb, n), m);
    NonSingularIffLastPivot(b, lu, p, m);
  }
}
