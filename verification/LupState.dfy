/** lupdcmp, lusolve and matinv on the arrays they work on (RCutil.c). */
module LupState {
  import opened RealArithmetic
  import opened RealMatrix
  import opened Lup

  /** The rows of a two-dimensional array. */
  ghost function Rows(a: array2<real>): (m: Matrix)
    reads a
    ensures |m| == a.Length0
    ensures forall i :: 0 <= i < a.Length0 ==> |m[i]| == a.Length1
    ensures forall i, j :: 0 <= i < a.Length0 && 0 <= j < a.Length1 ==> m[i][j] == a[i, j]
  {
    seq(a.Length0, i requires 0 <= i < a.Length0 reads a =>
      seq(a.Length1, j requires 0 <= j < a.Length1 reads a => a[i, j]))
  }

  lemma SameMatrix(m: Matrix, m': Matrix)
    requires |m| == |m'| && forall i :: 0 <= i < |m| ==> |m[i]| == |m'[i]|
    requires forall i, j :: 0 <= i < |m| && 0 <= j < |m[i]| ==> m[i][j] == m'[i][j]
    ensures m == m'
  {
    forall i | 0 <= i < |m| ensures m[i] == m'[i] {
    }
  }

  /** The pivot search of stage k. */
  method FindPivot(a: array2<real>, k: int, previous: int) returns (pivot: int, max: real)
    requires a.Length0 == a.Length1 && 0 <= k < a.Length0
    ensures max == PivotMax(Rows(a), k, a.Length0) && pivot == PivotRow(Rows(a), k, a.Length0, previous)
  {
    max, pivot := 0.0, previous;
    for i := k to a.Length0
      invariant max == PivotMax(Rows(a), k, i) && pivot == PivotRow(Rows(a), k, i, previous)
    {
      if Abs(a[i, k]) > max {
        max := Abs(a[i, k]);
        pivot := i;
      }
    }
  }

  method SwapRows(a: array2<real>, k: int, row: int)
    requires 0 <= k < a.Length0 && 0 <= row < a.Length0
    modifies a
    ensures Rows(a) == Swap(old(Rows(a)), k, row)
  {
    ghost var m := Rows(a);
    for j := 0 to a.Length1
      invariant forall i, q :: 0 <= i < a.Length0 && 0 <= q < a.Length1 ==>
        a[i, q] == if q < j then Swap(m, k, row)[i][q] else m[i][q]
    {
      a[k, j], a[row, j] := a[row, j], a[k, j];
    }
    SameMatrix(Rows(a), Swap(m, k, row));
  }

  /** The elimination of one row of stage k. */
  method EliminateOne(a: array2<real>, i: int, k: int)
    requires a.Length0 == a.Length1 && 0 <= k < i < a.Length0 && a[k, k] != 0.0
    modifies a
    ensures var m := old(Rows(a));
            Rows(a) == m[i := EliminateRow(m[i], m[k], k)]
  {
    ghost var m := Rows(a);
    ghost var r := EliminateRow(m[i], m[k], k);
    a[i, k] := a[i, k] / a[k, k];
    for j := k + 1 to a.Length0
      invariant forall h, q :: 0 <= h < a.Length0 && 0 <= q < a.Length0 ==>
        a[h, q] == if h == i && q < j then r[q] else m[h][q]
    {
      a[i, j] := a[i, j] - a[i, k] * a[k, j];
    }
    SameMatrix(Rows(a), m[i := r]);
  }

  method EliminateBelow(a: array2<real>, k: int)
    requires a.Length0 == a.Length1 && 0 <= k < a.Length0 && a[k, k] != 0.0
    modifies a
    ensures Rows(a) == Eliminate(old(Rows(a)), k)
  {
    hide EliminateRow;
    ghost var m := Rows(a);
    ghost var e := Eliminate(m, k);
    for i := k + 1 to a.Length0
      invariant forall h :: 0 <= h < a.Length0 ==> Rows(a)[h] == if h < i then e[h] else m[h]
    {
      EliminateOne(a, i, k);
    }
    assert Rows(a) == e;
  }

  lemma PivotIsUsable(m: Matrix, k: int, n: nat, previous: int)
    requires IsSquare(m, n) && 0 <= k < n && !Eq(PivotMax(m, k, n), 0.0)
    ensures k <= PivotRow(m, k, n, previous) < n
    ensures Swap(m, k, PivotRow(m, k, n, previous))[k][k] != 0.0
  {
  }

  method SwapEntries(p: array<int>, i: int, j: int)
    requires 0 <= i < p.Length && 0 <= j < p.Length
    modifies p
    ensures p[..] == Swap(old(p[..]), i, j)
  {
    p[i], p[j] := p[j], p[i];
  }

  /** lupdcmp: fails exactly when the decomposition gets stuck, otherwise leaves the factors in a and the
      permutation in p. */
  method LupdcmpInPlace(a: array2<real>, p: array<int>) returns (ok: bool)
    requires a.Length0 == a.Length1 == p.Length
    modifies a, p
    ensures ok <==> Lupdcmp(old(Rows(a))).Factors?
    ensures ok ==> Lupdcmp(old(Rows(a))) == Factors(Rows(a), p[..])
    ensures ok && p.Length >= 1 ==> IsLUP(old(Rows(a)), Rows(a), p[..], p.Length)
  {
    hide Eliminate;
    hide Rows;
    hide Swap;
    hide IsLUP;
    hide PivotRow;
    hide PivotMax;
    ghost var m := Rows(a);
    var n, pivot := p.Length, 0;
    for i := 0 to n
      invariant forall h :: 0 <= h < i ==> p[h] == h
      invariant Rows(a) == m
    {
      p[i] := i;
    }
    assert p[..] == Identity(n);
    var k := 0;
    while k < n - 1
      invariant 0 <= k && (k < n || k == n == 0)
      invariant Decompose(Rows(a), p[..], k, pivot) == Lupdcmp(m)
    {
      var max;
      ghost var previous := pivot;
      pivot, max := FindPivot(a, k, pivot);
      if Eq(max, 0.0) {
        return false;
      }
      PivotIsUsable(Rows(a), k, n, previous);
      SwapEntries(p, k, pivot);
      SwapRows(a, k, pivot);
      assert Rows(a)[k][k] == a[k, k];
      EliminateBelow(a, k);
      k := k + 1;
    }
    if n >= 1 {
      LupIsCorrect(m, n);
    }
    return true;
  }

  // ---------------------------------------------------------------- substitution

  /** The inner loop of the forward substitution. */
  method ForwardSum(a: array2<real>, y: array<real>, i: int) returns (sum: real)
    requires a.Length0 == a.Length1 == y.Length && 0 <= i < y.Length
    ensures var m, before := Rows(a), y[..i]; sum == Sum(0, i, j => Elem(before, j) * L(m, i, j))
  {
    hide Rows;
    ghost var m, before := Rows(a), y[..i];
    sum := 0.0;
    for j := 0 to i
      invariant sum == Sum(0, j, j => Elem(before, j) * L(m, i, j))
    {
      sum := sum + y[j] * (if i > j then a[i, j] else 0.0);
    }
  }

  /** The inner loop of the backward substitution. */
  method BackwardSum(a: array2<real>, x: array<real>, i: int) returns (sum: real)
    requires a.Length0 == a.Length1 == x.Length && 0 <= i < x.Length
    ensures var m, rest := Rows(a), x[i + 1..]; sum == Sum(i + 1, x.Length, j => Elem(rest, j - i - 1) * U(m, i, j))
  {
    hide Rows;
    ghost var m, rest := Rows(a), x[i + 1..];
    sum := 0.0;
    for j := i + 1 to x.Length
      invariant sum == Sum(i + 1, j, j => Elem(rest, j - i - 1) * U(m, i, j))
    {
      assert rest[j - i - 1] == x[j];
      sum := sum + x[j] * (if i <= j then a[i, j] else 0.0);
    }
  }

  /** The forward substitution of lusolve. */
  method ForwardArrays(a: array2<real>, p: array<int>, b: array<real>) returns (y: array<real>)
    requires a.Length0 == a.Length1 == p.Length == b.Length
    requires forall i :: 0 <= i < p.Length ==> 0 <= p[i] < p.Length
    ensures fresh(y) && y.Length == p.Length && y[..] == Forward(Rows(a), p[..], b[..], p.Length)
  {
    hide Sum;
    hide L;
    hide Rows;
    ghost var m := Rows(a);
    var n := p.Length;
    y := new real[n];
    for i := 0 to n
      invariant y[..i] == Forward(m, p[..], b[..], i)
    {
      var sum := ForwardSum(a, y, i);
      ghost var before := y[..i];
      y[i] := b[p[i]] - sum;
      assert y[..i + 1] == before + [Elem(b[..], p[..][i]) - sum];
    }
    assert y[..n] == y[..];
  }

  /** lusolve. The caller must not pass a zero on U's diagonal: the original divides by it. */
  method LusolveArrays(a: array2<real>, p: array<int>, b: array<real>, x: array<real>)
    requires a.Length0 == a.Length1 == p.Length == b.Length == x.Length && x != b
    requires forall i :: 0 <= i < p.Length ==> 0 <= p[i] < p.Length
    requires forall q :: 0 <= q < p.Length ==> U(Rows(a), q, q) != 0.0
    modifies x
    ensures x[..] == Lusolve(Rows(a), p[..], b[..])
  {
    hide Sum;
    hide Rows;
    hide Forward;
    hide Backward;
    hide U;
    ghost var m := Rows(a);
    var n := p.Length;
    var y := ForwardArrays(a, p, b);
    ghost var yy := y[..];
    assert x[n..] == [];
    var i := n - 1;
    while i >= 0
      invariant -1 <= i < n && y[..] == yy
      invariant x[i + 1..] == Backward(m, yy, [], i + 1, n)
    {
      ghost var rest := x[i + 1..];
      var sum := BackwardSum(a, x, i);
      UpperDiagonal(m, i);
      x[i] := (y[i] - sum) / a[i, i];
      BackwardStep(m, yy, rest, i, n, sum);
      assert x[i..] == [x[i]] + rest;
      i := i - 1;
    }
    assert x[0..] == x[..];
  }

  lemma UpperDiagonal(m: Matrix, i: int)
    requires 0 <= i < |m| && |m[i]| == |m|
    ensures U(m, i, i) == m[i][i]
  {
  }

  lemma BackwardStep(m: Matrix, y: Vector, rest: Vector, i: nat, n: nat, sum: real)
    requires i < n == |y| && forall q :: i <= q < n ==> U(m, q, q) != 0.0
    requires rest == Backward(m, y, [], i + 1, n)
    requires sum == Sum(i + 1, n, j => Elem(rest, j - i - 1) * U(m, i, j))
    ensures Backward(m, y, [], i, n) == [(Elem(y, i) - sum) / U(m, i, i)] + rest
  {
    hide U;
    hide Elem;
    hide Sum;
    hide Backward;
    BackwardDivides(m, y, [], i, n);
    var x := Backward(m, y, [], i, n);
    ElemInside(x, 0);
    forall j | 0 < j < n - i ensures x[j] == rest[j - 1] {
      ElemInside(x, j);
      ElemInside(rest, j - 1);
    }
    assert x == [x[0]] + rest;
  }

  lemma ElemInside(v: Vector, i: int)
    requires 0 <= i < |v|
    ensures Elem(v, i) == v[i]
  {
  }

  // ---------------------------------------------------------------- matinv

  function UnitVector(j: int, n: nat): (e: Vector)
    ensures |e| == n
  {
    seq(n, i => if i == j then 1.0 else 0.0)
  }

  function Column(m: Matrix, j: int, n: nat): (c: Vector)
    ensures |c| == n
  {
    seq(n, i => At(m, i, j))
  }

  /** a times inv is the identity, column by column. */
  ghost predicate IsRightInverse(a: Matrix, inv: Matrix, n: nat) {
    IsSquare(inv, n) && forall j :: 0 <= j < n ==> Solves(a, Column(inv, j, n), UnitVector(j, n), n)
  }

  datatype Inversion = Aborted | ZeroPivot | Inverted

  method WriteColumn(inv: array2<real>, work: array<real>, j: int)
    requires inv.Length0 == inv.Length1 == work.Length && 0 <= j < work.Length
    modifies inv
    ensures Column(Rows(inv), j, work.Length) == work[..]
    ensures forall q :: 0 <= q < work.Length && q != j ==>
      Column(Rows(inv), q, work.Length) == old(Column(Rows(inv), q, work.Length))
  {
    for i := 0 to work.Length
      invariant forall h, q :: 0 <= h < work.Length && 0 <= q < work.Length ==>
        inv[h, q] == if q == j && h < i then work[h] else old(inv[h, q])
    {
      inv[i, j] := work[i];
    }
  }

  method WriteUnit(col: array<real>, j: int)
    requires 0 <= j < col.Length
    modifies col
    ensures col[..] == UnitVector(j, col.Length)
  {
    for i := 0 to col.Length
      invariant forall h :: 0 <= h < i ==> col[h] == 0.0
    {
      col[i] := 0.0;
    }
    col[j] := 1.0;
  }

  /** The column loop of matinv: with a correct factorization and a non-zero last pivot, inv is a right inverse. */
  method InvertColumns(m: array2<real>, p: array<int>, inv: array2<real>, ghost a: Matrix)
    requires m.Length0 == m.Length1 == p.Length == inv.Length0 == inv.Length1 >= 1 && inv != m
    requires IsLUP(a, Rows(m), p[..], p.Length) && U(Rows(m), p.Length - 1, p.Length - 1) != 0.0
    modifies inv
    ensures IsRightInverse(a, Rows(inv), p.Length)
  {
    hide IsLUP;
    hide U;
    hide Solves;
    hide Rows;
    hide Column;
    var n := p.Length;
    ghost var lu, pp := Rows(m), p[..];
    PermutationRange(a, lu, pp, n);
    LusolveSolves(a, lu, pp, UnitVector(0, n), n);
    var col, work := new real[n], new real[n];
    for j := 0 to n
      invariant forall q :: 0 <= q < j ==> Solves(a, Column(Rows(inv), q, n), UnitVector(q, n), n)
      invariant Rows(m) == lu && p[..] == pp
    {
      WriteUnit(col, j);
      LusolveArrays(m, p, col, work);
      LusolveSolves(a, lu, pp, UnitVector(j, n), n);
      WriteColumn(inv, work, j);
    }
  }

  lemma PermutationRange(a: Matrix, m: Matrix, p: seq<int>, n: nat)
    requires IsLUP(a, m, p, n)
    ensures |p| == n && forall i :: 0 <= i < n ==> 0 <= p[i] < n
  {
  }

  /** matinv: aborts exactly when the decomposition gets stuck; otherwise it inverts exactly the non-singular
      matrices, and on the singular ones divides by the last pivot, which is zero. */
  method Matinv(inv: array2<real>, m: array2<real>) returns (r: Inversion)
    requires m.Length0 == m.Length1 == inv.Length0 == inv.Length1 >= 1 && inv != m
    modifies inv, m
    ensures r.Aborted? <==> GetsStuck(old(Rows(m)), m.Length0)
    ensures r.ZeroPivot? ==> exists x :: NonZero(x, m.Length0) && Solves(old(Rows(m)), x, Zeros(m.Length0), m.Length0)
    ensures !r.Aborted? ==> (r.Inverted? <==> TrivialKernel(old(Rows(m)), m.Length0))
    ensures r.Inverted? ==> IsRightInverse(old(Rows(m)), Rows(inv), m.Length0)
  {
    hide IsLUP;
    hide Lupdcmp;
    hide Rows;
    hide TrivialKernel;
    hide GetsStuck;
    ghost var a := Rows(m);
    var n := m.Length0;
    AbortsIffColumnVanishes(a, n);
    var p := new int[n];
    var ok := LupdcmpInPlace(m, p);
    if !ok {
      return Aborted;
    }
    UpperDiagonal(Rows(m), n - 1);
    NonSingularIffLastPivot(a, Rows(m), p[..], n);
    if m[n - 1, n - 1] == 0.0 {
      ghost var x := ZeroPivotMeansSingular(a, Rows(m), p[..], n);
      return ZeroPivot;
    }
    InvertColumns(m, p, inv, a);
    return Inverted;
  }
}
