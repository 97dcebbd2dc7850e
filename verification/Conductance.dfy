/** The block model's thermal conductance matrix as a resistor network (temperature_block.c). */
module Conductance {
  import opened RealArithmetic
  import opened RealMatrix
  import opened Lup
  import opened GaussJordan

  // ---------------------------------------------------------------- resistor networks

  /** A matrix of non-positive couplings whose rows sum to the conductances to ambient. */
  ghost predicate IsNetwork(b: Matrix, amb: Vector, n: nat) {
    && IsSquare(b, n) && |amb| == n
    && (forall i :: 0 <= i < n ==> Elem(amb, i) >= 0.0)
    && (forall i, j :: 0 <= i < n && 0 <= j < n ==> At(b, i, j) == At(b, j, i))
    && (forall i, j :: 0 <= i < n && 0 <= j < n && i != j ==> At(b, i, j) <= 0.0)
    && (forall i :: 0 <= i < n ==> Sum(0, n, j => At(b, i, j)) == Elem(amb, i))
  }

  /** The conductance between two different nodes. */
  function Link(b: Matrix, i: int, j: int): real {
    if i == j then 0.0 else -At(b, i, j)
  }

  /** Heat leaving node i at temperatures x: to the other nodes and, relative to zero, to ambient. */
  function HeatOut(b: Matrix, amb: Vector, i: int, x: Vector, n: nat): real {
    Elem(amb, i) * Elem(x, i) + Sum(0, n, j => Link(b, i, j) * (Elem(x, i) - Elem(x, j)))
  }

  lemma RowIsHeat(b: Matrix, amb: Vector, i: int, x: Vector, n: nat)
    requires IsNetwork(b, amb, n) && 0 <= i < n
    ensures RowTimes(b, i, x, n) == HeatOut(b, amb, i, x, n)
  {
    hide Sum;
    hide At;
    hide Elem;
    var xi := Elem(x, i);
    var row, f, g := j => At(b, i, j) * Elem(x, j), j => At(b, i, j), j => Link(b, i, j) * (xi - Elem(x, j));
    SumScale(0, n, xi, f);
    SumAdd(0, n, j => xi * f(j), g);
    forall j | 0 <= j < n ensures row(j) == xi * f(j) + g(j) {
      Shift(At(b, i, j), xi, Elem(x, j));
    }
    SumEqual(0, n, row, j => (xi * f(j)) + g(j));
    SumEqual(0, n, j => (j => xi * f(j))(j) + g(j), j => (xi * f(j)) + g(j));
    SumEqual(0, n, j => At(b, i, j), f);
  }

  lemma Shift(w: real, x: real, y: real)
    ensures w * y == x * w + -w * (x - y)
  {
  }

  // ---------------------------------------------------------------- dissipated power

  function Times(x: real, y: real): real {
    x * y
  }

  function Square(x: real): real {
    Times(x, x)
  }

  /** The power dissipated in the resistors, each link counted from both of its ends. */
  function Dissipation(b: Matrix, amb: Vector, x: Vector, n: nat): real {
    Sum(0, n, i => Elem(amb, i) * Square(Elem(x, i)))
    + 0.5 * Sum(0, n, i => Sum(0, n, j => Link(b, i, j) * Square(Elem(x, i) - Elem(x, j))))
  }

  /** x^T B x */
  function Quadratic(b: Matrix, x: Vector, n: nat): real {
    Sum(0, n, i => Elem(x, i) * RowTimes(b, i, x, n))
  }

  lemma LinkSymmetric(b: Matrix, amb: Vector, n: nat, i: int, j: int)
    requires IsNetwork(b, amb, n) && 0 <= i < n && 0 <= j < n
    ensures Link(b, i, j) == Link(b, j, i) >= 0.0
  {
  }

  /** Half of each link's dissipation is accounted for at each end. */
  lemma LinksDissipate(b: Matrix, amb: Vector, x: Vector, n: nat)
    requires IsNetwork(b, amb, n)
    ensures Sum(0, n, i => Sum(0, n, j => Link(b, i, j) * (Elem(x, i) - Elem(x, j)) * Elem(x, i)))
         == 0.5 * Sum(0, n, i => Sum(0, n, j => Link(b, i, j) * Square(Elem(x, i) - Elem(x, j))))
  {
    hide Sum;
    hide Elem;
    hide Link;
    hide IsNetwork;
    hide Square;
    var f := (i: int, j: int) => Link(b, i, j) * (Elem(x, i) - Elem(x, j)) * Elem(x, i);
    var t := (i: int, j: int) => f(j, i);
    var q := (i: int, j: int) => Link(b, i, j) * Square(Elem(x, i) - Elem(x, j));
    var rows, cols, squares := i => Sum(0, n, j => f(i, j)), i => Sum(0, n, j => t(i, j)), i => Sum(0, n, j => q(i, j));
    SumSwap(0, n, 0, n, f);
    var swapped := j => Sum(0, n, i => f(i, j));
    forall j | 0 <= j < n ensures swapped(j) == cols(j) {
      SumEqual(0, n, i => f(i, j), i => t(j, i));
    }
    SumEqual(0, n, swapped, cols);
    SumAdd(0, n, rows, cols);
    forall i | 0 <= i < n ensures squares(i) == rows(i) + cols(i) {
      var r, c, s := j => f(i, j), j => t(i, j), j => q(i, j);
      SumAdd(0, n, r, c);
      forall j | 0 <= j < n ensures s(j) == r(j) + c(j) {
        LinkSymmetric(b, amb, n, i, j);
        Halves(Link(b, i, j), Elem(x, i), Elem(x, j));
      }
      SumEqual(0, n, s, j => r(j) + c(j));
    }
    SumEqual(0, n, squares, i => rows(i) + cols(i));
    var heats := i => Sum(0, n, j => Link(b, i, j) * (Elem(x, i) - Elem(x, j)) * Elem(x, i));
    var losses := i => Sum(0, n, j => Link(b, i, j) * Square(Elem(x, i) - Elem(x, j)));
    forall i | 0 <= i < n ensures heats(i) == rows(i) && losses(i) == squares(i) {
      SumEqual(0, n, j => Link(b, i, j) * (Elem(x, i) - Elem(x, j)) * Elem(x, i), j => f(i, j));
      SumEqual(0, n, j => Link(b, i, j) * Square(Elem(x, i) - Elem(x, j)), j => q(i, j));
    }
    SumEqual(0, n, heats, rows);
    SumEqual(0, n, losses, squares);
  }

  lemma Halves(w: real, x: real, y: real)
    ensures w * Square(x - y) == w * (x - y) * x + w * (y - x) * y
  {
    assert Square(x - y) == (x - y) * x + (y - x) * y;
  }

  /** x^T B x is a sum of squares weighted by conductances. */
  lemma QuadraticIsDissipation(b: Matrix, amb: Vector, x: Vector, n: nat)
    requires IsNetwork(b, amb, n)
    ensures Quadratic(b, x, n) == Dissipation(b, amb, x, n)
  {
    hide Sum;
    hide Elem;
    hide Link;
    hide IsNetwork;
    hide RowTimes;
    var f := i => Elem(amb, i) * Square(Elem(x, i));
    var g := i => Sum(0, n, j => Link(b, i, j) * (Elem(x, i) - Elem(x, j)) * Elem(x, i));
    forall i | 0 <= i < n ensures Elem(x, i) * RowTimes(b, i, x, n) == f(i) + g(i) {
      HeatTimes(b, amb, i, x, n);
    }
    SumEqual(0, n, i => Elem(x, i) * RowTimes(b, i, x, n), i => f(i) + g(i));
    SumAdd(0, n, f, g);
    LinksDissipate(b, amb, x, n);
  }

  lemma HeatTimes(b: Matrix, amb: Vector, i: int, x: Vector, n: nat)
    requires IsNetwork(b, amb, n) && 0 <= i < n
    ensures Elem(x, i) * RowTimes(b, i, x, n)
         == Elem(amb, i) * Square(Elem(x, i)) + Sum(0, n, j => Link(b, i, j) * (Elem(x, i) - Elem(x, j)) * Elem(x, i))
  {
    hide Sum;
    hide Elem;
    hide Link;
    hide IsNetwork;
    hide RowTimes;
    RowIsHeat(b, amb, i, x, n);
    var h := j => Link(b, i, j) * (Elem(x, i) - Elem(x, j));
    SumScale(0, n, Elem(x, i), h);
    SumEqual(0, n, j => Elem(x, i) * h(j), j => Link(b, i, j) * (Elem(x, i) - Elem(x, j)) * Elem(x, i));
    assert HeatOut(b, amb, i, x, n) == Elem(amb, i) * Elem(x, i) + Sum(0, n, h);
  }

  // ---------------------------------------------------------------- nodes connected to ambient

  /** Ambient can be reached over links of positive conductance in at most s moves. */
  ghost predicate Reaches(b: Matrix, amb: Vector, n: nat, i: int, s: nat)
    decreases s
  {
    0 <= i < n &&
    (Elem(amb, i) > 0.0 || (s > 0 && exists j :: 0 <= j < n && Link(b, i, j) > 0.0 && Reaches(b, amb, n, j, s - 1)))
  }

  ghost predicate Connected(b: Matrix, amb: Vector, n: nat, i: int) {
    exists s: nat :: Reaches(b, amb, n, i, s)
  }

  ghost predicate AllConnected(b: Matrix, amb: Vector, n: nat) {
    forall i :: 0 <= i < n ==> Connected(b, amb, n, i)
  }

  lemma LinkConnects(b: Matrix, amb: Vector, n: nat, i: int, j: int)
    requires 0 <= i < n && 0 <= j < n && Link(b, i, j) > 0.0 && Connected(b, amb, n, j)
    ensures Connected(b, amb, n, i)
  {
    var s: nat :| Reaches(b, amb, n, j, s);
    assert Reaches(b, amb, n, i, s + 1);
  }

  /** A lowest node that receives heat passes its temperature on to its neighbours and, through an ambient
      conductance, equals zero: temperatures here are relative to ambient. */
  lemma LowestSpreads(b: Matrix, amb: Vector, n: nat, x: Vector, i: int)
    requires IsNetwork(b, amb, n) && 0 <= i < n && RowTimes(b, i, x, n) >= 0.0 && Elem(x, i) <= 0.0
    requires forall j :: 0 <= j < n ==> Elem(x, i) <= Elem(x, j)
    ensures Elem(amb, i) > 0.0 ==> Elem(x, i) == 0.0
    ensures forall j :: 0 <= j < n && Link(b, i, j) > 0.0 ==> Elem(x, j) == Elem(x, i)
  {
    hide Sum;
    hide Elem;
    hide Link;
    hide IsNetwork;
    hide RowTimes;
    RowIsHeat(b, amb, i, x, n);
    var f, g := j => Link(b, i, j) * (Elem(x, i) - Elem(x, j)), j => -1.0 * (Link(b, i, j) * (Elem(x, i) - Elem(x, j)));
    SumScale(0, n, -1.0, f);
    SumEqual(0, n, g, j => -1.0 * f(j));
    NetworkAmbient(b, amb, n, i);
    forall j | 0 <= j < n ensures f(j) <= 0.0 <= g(j) && (f(j) == 0.0 && Link(b, i, j) > 0.0 ==> Elem(x, j) == Elem(x, i)) {
      LinkSymmetric(b, amb, n, i, j);
    }
    SumNonNegative(0, n, g);
    assert Sum(0, n, f) == 0.0 && Elem(amb, i) * Elem(x, i) == 0.0;
    forall j | 0 <= j < n ensures f(j) == 0.0 {
      assert g(j) <= Sum(0, n, g);
    }
  }

  lemma NetworkAmbient(b: Matrix, amb: Vector, n: nat, i: int)
    requires IsNetwork(b, amb, n) && 0 <= i < n
    ensures Elem(amb, i) >= 0.0
  {
  }

  lemma {:induction false} LowestIsZero(b: Matrix, amb: Vector, n: nat, x: Vector, i: int, s: nat)
    requires IsNetwork(b, amb, n) && Reaches(b, amb, n, i, s) && Elem(x, i) <= 0.0
    requires forall j :: 0 <= j < n ==> RowTimes(b, j, x, n) >= 0.0
    requires forall j :: 0 <= j < n ==> Elem(x, i) <= Elem(x, j)
    ensures Elem(x, i) == 0.0
    decreases s
  {
    hide IsNetwork;
    hide RowTimes;
    hide Elem;
    hide Link;
    LowestSpreads(b, amb, n, x, i);
    if Elem(amb, i) <= 0.0 {
      var j :| 0 <= j < n && Link(b, i, j) > 0.0 && Reaches(b, amb, n, j, s - 1);
      LowestIsZero(b, amb, n, x, j, s - 1);
    }
  }

  lemma {:induction false} LowestNode(x: Vector, n: nat) returns (k: int)
    requires n > 0
    ensures 0 <= k < n && forall j :: 0 <= j < n ==> Elem(x, k) <= Elem(x, j)
  {
    if n == 1 {
      k := 0;
    } else {
      k := LowestNode(x, n - 1);
      if Elem(x, n - 1) < Elem(x, k) {
        k := n - 1;
      }
    }
  }

  /** Where heat flows in nowhere negatively, no temperature is below ambient. */
  lemma NothingBelowAmbient(b: Matrix, amb: Vector, n: nat, x: Vector)
    requires IsNetwork(b, amb, n) && AllConnected(b, amb, n)
    requires forall j :: 0 <= j < n ==> RowTimes(b, j, x, n) >= 0.0
    ensures forall j :: 0 <= j < n ==> Elem(x, j) >= 0.0
  {
    hide IsNetwork;
    hide RowTimes;
    hide Elem;
    if n > 0 {
      var k := LowestNode(x, n);
      assert Connected(b, amb, n, k);
      var s: nat :| Reaches(b, amb, n, k, s);
      if Elem(x, k) <= 0.0 {
        LowestIsZero(b, amb, n, x, k, s);
      }
    }
  }

  // ---------------------------------------------------------------- positive definiteness

  ghost predicate PositiveDefinite(b: Matrix, n: nat) {
    forall x: Vector :: |x| == n && x != Zeros(n) ==> Quadratic(b, x, n) > 0.0
  }

  ghost predicate LinksQuiet(b: Matrix, x: Vector, n: nat, i: int) {
    forall j :: 0 <= j < n ==> Link(b, i, j) * Square(Elem(x, i) - Elem(x, j)) == 0.0
  }

  ghost predicate NoCurrent(b: Matrix, amb: Vector, x: Vector, n: nat) {
    && (forall i :: 0 <= i < n ==> Elem(amb, i) * Square(Elem(x, i)) == 0.0)
    && (forall i :: 0 <= i < n ==> LinksQuiet(b, x, n, i))
  }

  lemma NodeLoss(b: Matrix, amb: Vector, x: Vector, n: nat, i: int)
    requires IsNetwork(b, amb, n) && 0 <= i < n
    ensures Sum(0, n, j => Link(b, i, j) * Square(Elem(x, i) - Elem(x, j))) >= 0.0
    ensures Sum(0, n, j => Link(b, i, j) * Square(Elem(x, i) - Elem(x, j))) == 0.0 <==> LinksQuiet(b, x, n, i)
  {
    hide Sum;
    hide Elem;
    hide Link;
    hide IsNetwork;
    hide Square;
    var r := j => Link(b, i, j) * Square(Elem(x, i) - Elem(x, j));
    forall j | 0 <= j < n ensures r(j) >= 0.0 {
      LinkSymmetric(b, amb, n, i, j);
      NonNegativeProduct(Link(b, i, j), Elem(x, i) - Elem(x, j));
    }
    ZeroSum(n, r);
    if Sum(0, n, r) == 0.0 {
      forall j | 0 <= j < n ensures Link(b, i, j) * Square(Elem(x, i) - Elem(x, j)) == 0.0 {
        assert r(j) == 0.0;
      }
    }
  }

  /** Dissipation is never negative, and zero only when no resistor carries any current. */
  lemma DissipationSign(b: Matrix, amb: Vector, x: Vector, n: nat)
    requires IsNetwork(b, amb, n)
    ensures Dissipation(b, amb, x, n) >= 0.0
    ensures Dissipation(b, amb, x, n) == 0.0 <==> NoCurrent(b, amb, x, n)
  {
    hide Sum;
    hide Elem;
    hide Link;
    hide IsNetwork;
    hide Square;
    hide LinksQuiet;
    var f := i => Elem(amb, i) * Square(Elem(x, i));
    var g := i => Sum(0, n, j => Link(b, i, j) * Square(Elem(x, i) - Elem(x, j)));
    forall i | 0 <= i < n ensures f(i) >= 0.0 && g(i) >= 0.0 && (g(i) == 0.0 <==> LinksQuiet(b, x, n, i)) {
      NetworkAmbient(b, amb, n, i);
      NonNegativeProduct(Elem(amb, i), Elem(x, i));
      NodeLoss(b, amb, x, n, i);
    }
    ZeroSum(n, f);
    ZeroSum(n, g);
    if Dissipation(b, amb, x, n) == 0.0 {
      forall i | 0 <= i < n ensures Elem(amb, i) * Square(Elem(x, i)) == 0.0 && LinksQuiet(b, x, n, i) {
        assert f(i) == 0.0 && g(i) == 0.0;
      }
    }
  }

  lemma NonNegativeProduct(w: real, x: real)
    requires w >= 0.0
    ensures w * Square(x) >= 0.0 && (w > 0.0 && w * Square(x) == 0.0 ==> x == 0.0)
  {
    if w > 0.0 && x != 0.0 {
      PositiveSquare(x);
      PositiveProduct(w, Square(x));
    }
  }

  lemma PositiveSquare(x: real)
    requires x != 0.0
    ensures Square(x) > 0.0
  {
    TimesSign(x, x);
  }

  lemma TimesSign(x: real, y: real)
    requires (x > 0.0 && y > 0.0) || (x < 0.0 && y < 0.0)
    ensures Times(x, y) > 0.0
  {
  }

  lemma ZeroSum(n: nat, f: int -> real)
    requires forall i :: 0 <= i < n ==> f(i) >= 0.0
    ensures Sum(0, n, f) >= 0.0
    ensures Sum(0, n, f) == 0.0 <==> forall i :: 0 <= i < n ==> f(i) == 0.0
  {
    SumNonNegative(0, n, f);
    if forall i :: 0 <= i < n ==> f(i) == 0.0 {
      SumZero(0, n, f);
    }
  }

  lemma {:induction false} NoCurrentNoPotential(b: Matrix, amb: Vector, x: Vector, n: nat, i: int, s: nat)
    requires IsNetwork(b, amb, n) && NoCurrent(b, amb, x, n) && Reaches(b, amb, n, i, s)
    ensures Elem(x, i) == 0.0
    decreases s
  {
    hide IsNetwork;
    hide Elem;
    hide Link;
    hide Square;
    NonNegativeProductAt(b, amb, x, n, i);
    if Elem(amb, i) <= 0.0 {
      var j :| 0 <= j < n && Link(b, i, j) > 0.0 && Reaches(b, amb, n, j, s - 1);
      NoCurrentNoPotential(b, amb, x, n, j, s - 1);
      NonNegativeProduct(Link(b, i, j), Elem(x, i) - Elem(x, j));
      assert LinksQuiet(b, x, n, i);
    }
  }

  lemma NonNegativeProductAt(b: Matrix, amb: Vector, x: Vector, n: nat, i: int)
    requires NoCurrent(b, amb, x, n) && 0 <= i < n
    ensures Elem(amb, i) > 0.0 ==> Elem(x, i) == 0.0
  {
    hide Elem;
    hide Link;
    hide Square;
    if Elem(amb, i) > 0.0 {
      NonNegativeProduct(Elem(amb, i), Elem(x, i));
    }
  }

  /** One on the nodes with no way to ambient, zero elsewhere. */
  ghost function Isolated(b: Matrix, amb: Vector, n: nat): (x: Vector)
    ensures |x| == n
    ensures forall i :: 0 <= i < n ==> Elem(x, i) == if Connected(b, amb, n, i) then 0.0 else 1.0
  {
    seq(n, i => if Connected(b, amb, n, i) then 0.0 else 1.0)
  }

  lemma IsolatedCarriesNothing(b: Matrix, amb: Vector, n: nat)
    requires IsNetwork(b, amb, n)
    ensures NoCurrent(b, amb, Isolated(b, amb, n), n)
  {
    hide IsNetwork;
    hide Elem;
    hide Link;
    hide Isolated;
    hide Connected;
    var x := Isolated(b, amb, n);
    forall i | 0 <= i < n ensures Elem(amb, i) * Square(Elem(x, i)) == 0.0 {
      NetworkAmbient(b, amb, n, i);
      DirectlyConnected(b, amb, n, i);
    }
    forall i | 0 <= i < n ensures LinksQuiet(b, x, n, i) {
      forall j | 0 <= j < n ensures Link(b, i, j) * Square(Elem(x, i) - Elem(x, j)) == 0.0 {
        LinkSymmetric(b, amb, n, i, j);
        if Link(b, i, j) > 0.0 {
          BothConnected(b, amb, n, i, j);
        }
      }
    }
  }

  lemma DirectlyConnected(b: Matrix, amb: Vector, n: nat, i: int)
    requires 0 <= i < n
    ensures Elem(amb, i) > 0.0 ==> Connected(b, amb, n, i)
  {
    assert Elem(amb, i) > 0.0 ==> Reaches(b, amb, n, i, 0);
  }

  lemma BothConnected(b: Matrix, amb: Vector, n: nat, i: int, j: int)
    requires IsNetwork(b, amb, n) && 0 <= i < n && 0 <= j < n && Link(b, i, j) > 0.0
    ensures Connected(b, amb, n, i) <==> Connected(b, amb, n, j)
  {
    hide IsNetwork;
    hide Link;
    hide Connected;
    LinkSymmetric(b, amb, n, i, j);
    if Connected(b, amb, n, i) {
      LinkConnects(b, amb, n, j, i);
    } else if Connected(b, amb, n, j) {
      LinkConnects(b, amb, n, i, j);
    }
  }

  /** B is positive definite exactly when every node has a way to ambient. */
  lemma PositiveDefiniteIffConnected(b: Matrix, amb: Vector, n: nat)
    requires IsNetwork(b, amb, n)
    ensures PositiveDefinite(b, n) <==> AllConnected(b, amb, n)
  {
    hide IsNetwork;
    hide NoCurrent;
    hide Reaches;
    hide Quadratic;
    hide Dissipation;
    hide Isolated;
    if AllConnected(b, amb, n) {
      forall x: Vector | |x| == n && x != Zeros(n) ensures Quadratic(b, x, n) > 0.0 {
        QuadraticIsDissipation(b, amb, x, n);
        DissipationSign(b, amb, x, n);
        var i := SomeNonZero(x, n);
        assert Connected(b, amb, n, i);
        var s: nat :| Reaches(b, amb, n, i, s);
        SomePotential(b, amb, x, n, i, s);
      }
    } else {
      var i :| 0 <= i < n && !Connected(b, amb, n, i);
      var x := Isolated(b, amb, n);
      IsolatedCarriesNothing(b, amb, n);
      QuadraticIsDissipation(b, amb, x, n);
      DissipationSign(b, amb, x, n);
      assert Elem(x, i) == 1.0;
      assert x != Zeros(n);
    }
  }

  lemma SomeNonZero(x: Vector, n: nat) returns (i: int)
    requires |x| == n && x != Zeros(n)
    ensures 0 <= i < n && Elem(x, i) != 0.0
  {
    i :| 0 <= i < n && x[i] != Zeros(n)[i];
  }

  lemma SomePotential(b: Matrix, amb: Vector, x: Vector, n: nat, i: int, s: nat)
    requires IsNetwork(b, amb, n) && Reaches(b, amb, n, i, s) && Elem(x, i) != 0.0
    ensures !NoCurrent(b, amb, x, n)
  {
    hide IsNetwork;
    hide NoCurrent;
    hide Elem;
    if NoCurrent(b, amb, x, n) {
      NoCurrentNoPotential(b, amb, x, n, i, s);
    }
  }

  lemma PositiveDefiniteIsNonSingular(b: Matrix, n: nat)
    requires PositiveDefinite(b, n)
    ensures TrivialKernel(b, n)
  {
    hide RowTimes;
    hide Sum;
    forall x: Vector | |x| == n && Solves(b, x, Zeros(n), n) ensures x == Zeros(n) {
      var f := i => Elem(x, i) * RowTimes(b, i, x, n);
      forall i | 0 <= i < n ensures f(i) == 0.0 {
        assert RowTimes(b, i, x, n) == Elem(Zeros(n), i);
      }
      SumZero(0, n, f);
    }
  }

  /** Temperatures that are equal wherever a link conducts and zero where ambient is reached put no heat through. */
  lemma QuietRow(b: Matrix, amb: Vector, n: nat, i: int)
    requires IsNetwork(b, amb, n) && 0 <= i < n
    ensures RowTimes(b, i, Isolated(b, amb, n), n) == 0.0
  {
    hide IsNetwork;
    hide RowTimes;
    hide Sum;
    hide Elem;
    hide Link;
    hide Connected;
    hide Isolated;
    var x := Isolated(b, amb, n);
    var f := j => Link(b, i, j) * (Elem(x, i) - Elem(x, j));
    RowIsHeat(b, amb, i, x, n);
    NetworkAmbient(b, amb, n, i);
    DirectlyConnected(b, amb, n, i);
    forall j | 0 <= j < n ensures f(j) == 0.0 {
      LinkSymmetric(b, amb, n, i, j);
      if Link(b, i, j) > 0.0 {
        BothConnected(b, amb, n, i, j);
      }
    }
    SumZero(0, n, f);
  }

  /** The matrix of a network is non-singular exactly when every node has a way to ambient. */
  lemma NonSingularIffConnected(b: Matrix, amb: Vector, n: nat)
    requires IsNetwork(b, amb, n)
    ensures TrivialKernel(b, n) <==> AllConnected(b, amb, n)
  {
    hide IsNetwork;
    hide Connected;
    hide RowTimes;
    hide Isolated;
    hide PositiveDefinite;
    PositiveDefiniteIffConnected(b, amb, n);
    if AllConnected(b, amb, n) {
      PositiveDefiniteIsNonSingular(b, n);
    } else {
      var i :| 0 <= i < n && !Connected(b, amb, n, i);
      var x := Isolated(b, amb, n);
      forall k | 0 <= k < n ensures RowTimes(b, k, x, n) == Elem(Zeros(n), k) {
        QuietRow(b, amb, n, k);
      }
      assert Elem(x, i) == 1.0;
      assert Solves(b, x, Zeros(n), n) && x != Zeros(n);
    }
  }

  // ---------------------------------------------------------------- steady state

  /** Temperatures relative to ambient. */
  function Relative(temp: Vector, ambient: real): (x: Vector)
    ensures |x| == |temp| && forall i :: 0 <= i < |temp| ==> Elem(x, i) == Elem(temp, i) - ambient
  {
    seq(|temp|, i requires 0 <= i < |temp| => temp[i] - ambient)
  }

  lemma RelativeRow(b: Matrix, amb: Vector, n: nat, temp: Vector, ambient: real, i: int)
    requires IsNetwork(b, amb, n) && |temp| == n && 0 <= i < n
    ensures RowTimes(b, i, Relative(temp, ambient), n) == RowTimes(b, i, temp, n) - ambient * Elem(amb, i)
  {
    hide Sum;
    hide At;
    hide Elem;
    hide IsNetwork;
    var x := Relative(temp, ambient);
    var f, row, g := j => At(b, i, j) * Elem(temp, j), j => At(b, i, j), j => -ambient * At(b, i, j);
    SumScale(0, n, -ambient, row);
    SumEqual(0, n, g, j => -ambient * row(j));
    SumAdd(0, n, f, g);
    forall j | 0 <= j < n ensures At(b, i, j) * Elem(x, j) == f(j) + g(j) {
    }
    SumEqual(0, n, j => At(b, i, j) * Elem(x, j), j => f(j) + g(j));
    NetworkRowSum(b, amb, n, i);
    SumEqual(0, n, row, j => At(b, i, j));
  }

  lemma NetworkRowSum(b: Matrix, amb: Vector, n: nat, i: int)
    requires IsNetwork(b, amb, n) && 0 <= i < n
    ensures Sum(0, n, j => At(b, i, j)) == Elem(amb, i)
  {
    hide Sum;
    hide At;
  }

  /** All the heat put in leaves to ambient. */
  lemma HeatIsConserved(b: Matrix, amb: Vector, n: nat, x: Vector)
    requires IsNetwork(b, amb, n)
    ensures Sum(0, n, i => RowTimes(b, i, x, n)) == Sum(0, n, i => Elem(amb, i) * Elem(x, i))
  {
    hide Sum;
    hide Elem;
    hide Link;
    hide IsNetwork;
    hide RowTimes;
    var f := (i: int, j: int) => Link(b, i, j) * (Elem(x, i) - Elem(x, j));
    var rows, cols, out := i => Sum(0, n, j => f(i, j)), j => Sum(0, n, i => f(i, j)), i => Elem(amb, i) * Elem(x, i);
    SumSwap(0, n, 0, n, f);
    forall i | 0 <= i < n ensures RowTimes(b, i, x, n) == out(i) + rows(i) && cols(i) == -1.0 * rows(i) {
      RowIsHeat(b, amb, i, x, n);
      SumEqual(0, n, j => Link(b, i, j) * (Elem(x, i) - Elem(x, j)), j => f(i, j));
      var row := j => f(i, j);
      SumScale(0, n, -1.0, row);
      forall j | 0 <= j < n ensures f(j, i) == -1.0 * row(j) {
        LinkSymmetric(b, amb, n, i, j);
      }
      SumEqual(0, n, j => f(j, i), j => -1.0 * row(j));
    }
    SumEqual(0, n, i => RowTimes(b, i, x, n), i => out(i) + rows(i));
    SumAdd(0, n, out, rows);
    SumEqual(0, n, cols, i => -1.0 * rows(i));
    SumScale(0, n, -1.0, rows);
  }
}
