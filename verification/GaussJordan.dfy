/** Gauss-Jordan elimination with full pivoting, as row operations on the effective system (util.c). */
module GaussJordan {
  import opened RealMatrix
  import opened Lup

  // ---------------------------------------------------------------- systems with the same solutions

  /** m x == t b: t = 1 is the system, t = 0 its kernel. */
  ghost predicate SolvesScaled(m: Matrix, x: Vector, b: Vector, t: real, n: nat) {
    forall i :: 0 <= i < n ==> RowTimes(m, i, x, n) == t * Elem(b, i)
  }

  ghost predicate Equivalent(m: Matrix, b: Vector, m': Matrix, b': Vector, n: nat) {
    forall x: Vector, t: real :: SolvesScaled(m, x, b, t, n) <==> SolvesScaled(m', x, b', t, n)
  }

  lemma EquivalentTrans(m: Matrix, b: Vector, m': Matrix, b': Vector, m'': Matrix, b'': Vector, n: nat)
    requires Equivalent(m, b, m', b', n) && Equivalent(m', b', m'', b'', n)
    ensures Equivalent(m, b, m'', b'', n)
  {
    hide SolvesScaled;
    forall x: Vector, t: real ensures SolvesScaled(m, x, b, t, n) <==> SolvesScaled(m'', x, b'', t, n) {
      assert SolvesScaled(m, x, b, t, n) <==> SolvesScaled(m', x, b', t, n);
    }
  }

  lemma SwapRowsEquivalent(m: Matrix, b: Vector, r: int, c: int, n: nat)
    requires IsSquare(m, n) && |b| == n && 0 <= r < n && 0 <= c < n
    ensures Equivalent(m, b, Swap(m, r, c), Swap(b, r, c), n)
  {
    var m', b' := Swap(m, r, c), Swap(b, r, c);
    forall x: Vector, i | 0 <= i < n
      ensures RowTimes(m', i, x, n) == RowTimes(m, if i == r then c else if i == c then r else i, x, n)
    {
      var i' := if i == r then c else if i == c then r else i;
      assert m'[i] == m[i'];
      SumEqual(0, n, j => At(m', i, j) * Elem(x, j), j => At(m, i', j) * Elem(x, j));
    }
    hide RowTimes;
    forall x: Vector, t: real ensures SolvesScaled(m, x, b, t, n) <==> SolvesScaled(m', x, b', t, n) {
      if SolvesScaled(m', x, b', t, n) {
        forall i | 0 <= i < n ensures RowTimes(m, i, x, n) == t * Elem(b, i) {
          var i' := if i == r then c else if i == c then r else i;
          assert RowTimes(m', i', x, n) == t * Elem(b', i');
        }
      }
    }
  }

  /** Row c multiplied by f, and d(i) times the result subtracted from every other row i. */
  ghost predicate RowReduced(m: Matrix, b: Vector, m': Matrix, b': Vector, c: int, f: real, d: int -> real, n: nat) {
    && (forall j :: 0 <= j < n ==> At(m', c, j) == f * At(m, c, j))
    && Elem(b', c) == f * Elem(b, c)
    && (forall i, j :: 0 <= i < n && 0 <= j < n && i != c ==> At(m', i, j) == At(m, i, j) - d(i) * At(m', c, j))
    && (forall i :: 0 <= i < n && i != c ==> Elem(b', i) == Elem(b, i) - d(i) * Elem(b', c))
  }

  lemma ReducedRowTimes(m: Matrix, b: Vector, m': Matrix, b': Vector, c: int, f: real, d: int -> real, x: Vector, i: int, n: nat)
    requires RowReduced(m, b, m', b', c, f, d, n) && 0 <= c < n && 0 <= i < n
    ensures RowTimes(m', i, x, n)
         == if i == c then f * RowTimes(m, c, x, n) else RowTimes(m, i, x, n) - d(i) * RowTimes(m', c, x, n)
  {
    hide Sum;
    hide At;
    hide Elem;
    var g := j => At(m', i, j) * Elem(x, j);
    if i == c {
      var h := j => At(m, c, j) * Elem(x, j);
      SumScale(0, n, f, h);
      SumEqual(0, n, g, j => f * h(j));
    } else {
      var h, k := j => At(m, i, j) * Elem(x, j), j => At(m', c, j) * Elem(x, j);
      var dk := j => -d(i) * k(j);
      SumScale(0, n, -d(i), k);
      SumAdd(0, n, h, dk);
      forall j | 0 <= j < n ensures g(j) == h(j) + dk(j) {
        Expand(At(m, i, j), d(i), At(m', c, j), Elem(x, j));
      }
      SumEqual(0, n, g, j => h(j) + dk(j));
      SumEqual(0, n, dk, j => -d(i) * k(j));
    }
  }

  lemma Expand(p: real, q: real, r: real, s: real)
    ensures (p - q * r) * s == p * s + -q * (r * s)
  {
  }

  lemma ReducedEquivalent(m: Matrix, b: Vector, m': Matrix, b': Vector, c: int, f: real, d: int -> real, n: nat)
    requires RowReduced(m, b, m', b', c, f, d, n) && 0 <= c < n && f != 0.0
    ensures Equivalent(m, b, m', b', n)
  {
    hide RowTimes;
    hide RowReduced;
    forall x: Vector, t: real ensures SolvesScaled(m, x, b, t, n) <==> SolvesScaled(m', x, b', t, n) {
      forall i | 0 <= i < n
        ensures RowTimes(m', c, x, n) == t * Elem(b', c) <==> RowTimes(m, c, x, n) == t * Elem(b, c)
        ensures RowTimes(m, c, x, n) == t * Elem(b, c) ==>
          (RowTimes(m', i, x, n) == t * Elem(b', i) <==> RowTimes(m, i, x, n) == t * Elem(b, i))
      {
        ReducedEquation(m, b, m', b', c, f, d, x, t, i, n);
      }
    }
  }

  lemma ReducedEquation(m: Matrix, b: Vector, m': Matrix, b': Vector, c: int, f: real, d: int -> real,
                        x: Vector, t: real, i: int, n: nat)
    requires RowReduced(m, b, m', b', c, f, d, n) && 0 <= c < n && 0 <= i < n && f != 0.0
    ensures RowTimes(m', c, x, n) == t * Elem(b', c) <==> RowTimes(m, c, x, n) == t * Elem(b, c)
    ensures RowTimes(m, c, x, n) == t * Elem(b, c) ==>
      (RowTimes(m', i, x, n) == t * Elem(b', i) <==> RowTimes(m, i, x, n) == t * Elem(b, i))
  {
    hide RowTimes;
    hide Elem;
    ReducedRowTimes(m, b, m', b', c, f, d, x, c, n);
    ReducedRowTimes(m, b, m', b', c, f, d, x, i, n);
  }

  // ---------------------------------------------------------------- the effective system

  /** Column j of the effective matrix: a processed column stands for a unit column, whatever the array holds. */
  function Eff(a: Matrix, ipiv: seq<int>, i: int, j: int): real {
    if 0 <= j < |ipiv| && ipiv[j] == 1 then (if i == j then 1.0 else 0.0) else At(a, i, j)
  }

  function Effective(a: Matrix, ipiv: seq<int>, n: nat): (m: Matrix)
    ensures IsSquare(m, n)
    ensures forall i, j :: 0 <= i < n && 0 <= j < n ==> At(m, i, j) == Eff(a, ipiv, i, j)
  {
    seq(n, i => seq(n, j => Eff(a, ipiv, i, j)))
  }

  ghost predicate Flags(ipiv: seq<int>, n: nat) {
    |ipiv| == n && forall j :: 0 <= j < n ==> ipiv[j] == 0 || ipiv[j] == 1
  }

  // ---------------------------------------------------------------- one pivot step on the array

  /** The pivot row after division: column c receives the reciprocal. */
  function DivideRow(row: Vector, c: int): (r: Vector)
    requires 0 <= c < |row| && row[c] != 0.0
    ensures |r| == |row|
  {
    seq(|row|, l requires 0 <= l < |row| => (if l == c then 1.0 else row[l]) * (1.0 / row[c]))
  }

  /** Another row after subtraction of its multiple of the pivot row. */
  function ReduceRow(row: Vector, pivot: Vector, c: int): (r: Vector)
    requires 0 <= c < |row| == |pivot|
    ensures |r| == |row|
  {
    seq(|row|, l requires 0 <= l < |row| => (if l == c then 0.0 else row[l]) - pivot[l] * row[c])
  }

  function ReduceMatrix(a: Matrix, c: int, n: nat): (r: Matrix)
    requires IsSquare(a, n) && 0 <= c < n && a[c][c] != 0.0
    ensures IsSquare(r, n)
  {
    seq(n, i requires 0 <= i < n && IsSquare(a, n) =>
      if i == c then DivideRow(a[c], c) else ReduceRow(a[i], DivideRow(a[c], c), c))
  }

  function ReduceVector(a: Matrix, b: Vector, c: int, n: nat): (r: Vector)
    requires IsSquare(a, n) && |b| == n && 0 <= c < n && a[c][c] != 0.0
    ensures |r| == n
  {
    seq(n, i requires 0 <= i < n && IsSquare(a, n) =>
      if i == c then b[c] * (1.0 / a[c][c]) else b[i] - b[c] * (1.0 / a[c][c]) * a[i][c])
  }

  lemma ReducedEntry(a: Matrix, c: int, n: nat, i: int, j: int)
    requires IsSquare(a, n) && 0 <= c < n && a[c][c] != 0.0 && 0 <= i < n && 0 <= j < n && j != c
    ensures At(ReduceMatrix(a, c, n), c, j) == 1.0 / At(a, c, c) * At(a, c, j)
    ensures i != c ==>
      At(ReduceMatrix(a, c, n), i, j) == At(a, i, j) - At(a, i, c) * (1.0 / At(a, c, c) * At(a, c, j))
  {
    var p, q, f := At(a, c, j), At(a, i, c), 1.0 / At(a, c, c);
    assert ReduceMatrix(a, c, n)[c][j] == p * f;
    assert i != c ==> ReduceMatrix(a, c, n)[i][j] == a[i][j] - p * f * q;
  }

  lemma ReducedRhs(a: Matrix, b: Vector, c: int, n: nat, i: int)
    requires IsSquare(a, n) && |b| == n && 0 <= c < n && a[c][c] != 0.0 && 0 <= i < n
    ensures Elem(ReduceVector(a, b, c, n), c) == 1.0 / At(a, c, c) * Elem(b, c)
    ensures i != c ==>
      Elem(ReduceVector(a, b, c, n), i) == Elem(b, i) - At(a, i, c) * Elem(ReduceVector(a, b, c, n), c)
  {
    var p, q, f := Elem(b, c), At(a, i, c), 1.0 / At(a, c, c);
    assert ReduceVector(a, b, c, n)[c] == p * f;
    assert i != c ==> ReduceVector(a, b, c, n)[i] == b[i] - p * f * q;
  }

  /** The same for the effective entries, processed columns included. */
  lemma ReducedEff(a: Matrix, ipiv: seq<int>, c: int, n: nat, i: int, j: int)
    requires IsSquare(a, n) && Flags(ipiv, n) && 0 <= c < n && ipiv[c] == 0 && a[c][c] != 0.0
    requires 0 <= i < n && 0 <= j < n
    ensures var r, q := ReduceMatrix(a, c, n), ipiv[c := 1];
            && Eff(r, q, c, j) == 1.0 / At(a, c, c) * Eff(a, ipiv, c, j)
            && (i != c ==> Eff(r, q, i, j) == Eff(a, ipiv, i, j) - At(a, i, c) * Eff(r, q, c, j))
  {
    hide ReduceMatrix;
    hide At;
    Inside(a, c, n);
    if j == c {
    } else if ipiv[j] == 0 {
      ReducedEntry(a, c, n, i, j);
    }
  }

  lemma ReduceIsRowReduction(a: Matrix, b: Vector, ipiv: seq<int>, c: int, n: nat)
    requires IsSquare(a, n) && |b| == n && Flags(ipiv, n) && 0 <= c < n && ipiv[c] == 0 && a[c][c] != 0.0
    ensures Equivalent(Effective(a, ipiv, n), b, Effective(ReduceMatrix(a, c, n), ipiv[c := 1], n), ReduceVector(a, b, c, n), n)
  {
    hide Equivalent;
    hide Effective;
    hide ReduceMatrix;
    hide ReduceVector;
    hide At;
    hide Elem;
    hide Eff;
    var m, m' := Effective(a, ipiv, n), Effective(ReduceMatrix(a, c, n), ipiv[c := 1], n);
    var b' := ReduceVector(a, b, c, n);
    var f, d := 1.0 / a[c][c], i => At(a, i, c);
    Inside(a, c, n);
    forall i, j | 0 <= i < n && 0 <= j < n
      ensures At(m', c, j) == f * At(m, c, j)
      ensures i != c ==> At(m', i, j) == At(m, i, j) - d(i) * At(m', c, j)
    {
      ReducedEff(a, ipiv, c, n, i, j);
    }
    forall j | 0 <= j < n ensures At(m', c, j) == f * At(m, c, j) {
      ReducedEff(a, ipiv, c, n, c, j);
    }
    forall i | 0 <= i < n && i != c ensures Elem(b', i) == Elem(b, i) - d(i) * Elem(b', c) {
      ReducedRhs(a, b, c, n, i);
    }
    ReducedRhs(a, b, c, n, c);
    ReducedEquivalent(m, b, m', b', c, f, d, n);
  }

  lemma Inside(a: Matrix, c: int, n: nat)
    requires IsSquare(a, n) && 0 <= c < n
    ensures At(a, c, c) == a[c][c]
  {
  }

  /** Exchanging two unprocessed rows of the array exchanges them in the effective system. */
  lemma SwapEffective(a: Matrix, ipiv: seq<int>, r: int, c: int, n: nat)
    requires IsSquare(a, n) && Flags(ipiv, n) && 0 <= r < n && 0 <= c < n && ipiv[r] == 0 && ipiv[c] == 0
    ensures Effective(Swap(a, r, c), ipiv, n) == Swap(Effective(a, ipiv, n), r, c)
  {
    hide Effective;
    var m, m' := Swap(Effective(a, ipiv, n), r, c), Effective(Swap(a, r, c), ipiv, n);
    forall i | 0 <= i < n ensures m[i] == m'[i] {
      forall j | 0 <= j < n ensures m[i][j] == m'[i][j] {
        assert m'[i][j] == At(m', i, j) == Eff(Swap(a, r, c), ipiv, i, j);
        var i' := if i == r then c else if i == c then r else i;
        assert m[i][j] == At(Effective(a, ipiv, n), i', j) == Eff(a, ipiv, i', j);
      }
    }
  }

  /** One whole pivot step keeps the solutions. */
  lemma PivotStepKeepsSolutions(a: Matrix, b: Vector, ipiv: seq<int>, r: int, c: int, n: nat)
    requires IsSquare(a, n) && |b| == n && Flags(ipiv, n) && 0 <= r < n && 0 <= c < n
    requires ipiv[r] == 0 && ipiv[c] == 0 && a[r][c] != 0.0
    ensures var s := Swap(a, r, c);
            Equivalent(Effective(a, ipiv, n), b,
              Effective(ReduceMatrix(s, c, n), ipiv[c := 1], n), ReduceVector(s, Swap(b, r, c), c, n), n)
  {
    hide Equivalent;
    hide Effective;
    var s, t := Swap(a, r, c), Swap(b, r, c);
    SwapEffective(a, ipiv, r, c, n);
    SwapRowsEquivalent(Effective(a, ipiv, n), b, r, c, n);
    ReduceIsRowReduction(s, t, ipiv, c, n);
    EquivalentTrans(Effective(a, ipiv, n), b, Effective(s, ipiv, n), t,
      Effective(ReduceMatrix(s, c, n), ipiv[c := 1], n), ReduceVector(s, t, c, n), n);
  }

  // ---------------------------------------------------------------- the beginning and the ends

  lemma NothingPivoted(a: Matrix, ipiv: seq<int>, b: Vector, n: nat)
    requires IsSquare(a, n) && |ipiv| == n && forall j :: 0 <= j < n ==> ipiv[j] == 0
    ensures Effective(a, ipiv, n) == a
  {
    hide Effective;
    var m := Effective(a, ipiv, n);
    forall i | 0 <= i < n ensures m[i] == a[i] {
      forall j | 0 <= j < n ensures m[i][j] == a[i][j] {
        assert m[i][j] == At(m, i, j) == Eff(a, ipiv, i, j);
      }
    }
  }

  /** The only solution. */
  ghost predicate UniqueSolution(a: Matrix, x: Vector, b: Vector, n: nat) {
    && Solves(a, x, b, n)
    && forall y: Vector :: |y| == n && Solves(a, y, b, n) ==> y == x
  }

  lemma UnitTimes(a: Matrix, ipiv: seq<int>, x: Vector, i: int, n: nat)
    requires |ipiv| == n && (forall j :: 0 <= j < n ==> ipiv[j] == 1) && 0 <= i < n
    ensures RowTimes(Effective(a, ipiv, n), i, x, n) == Elem(x, i)
  {
    hide Effective;
    hide Sum;
    var m := Effective(a, ipiv, n);
    SumSingle(0, n, i, j => At(m, i, j) * Elem(x, j));
  }

  lemma ScaledByOne(m: Matrix, x: Vector, b: Vector, n: nat)
    ensures SolvesScaled(m, x, b, 1.0, n) <==> Solves(m, x, b, n)
  {
    hide RowTimes;
    if SolvesScaled(m, x, b, 1.0, n) {
      forall i | 0 <= i < n ensures RowTimes(m, i, x, n) == Elem(b, i) {
        assert RowTimes(m, i, x, n) == 1.0 * Elem(b, i);
      }
    }
  }

  lemma ScaledByZero(m: Matrix, x: Vector, b: Vector, n: nat)
    ensures SolvesScaled(m, x, b, 0.0, n) <==> Solves(m, x, Zeros(n), n)
  {
    hide RowTimes;
    if Solves(m, x, Zeros(n), n) {
      forall i | 0 <= i < n ensures RowTimes(m, i, x, n) == 0.0 * Elem(b, i) {
        assert RowTimes(m, i, x, n) == Elem(Zeros(n), i);
      }
    }
  }

  /** With every column processed, b holds the one solution of the original system. */
  lemma AllPivoted(a0: Matrix, b0: Vector, a: Matrix, b: Vector, ipiv: seq<int>, n: nat)
    requires Equivalent(a0, b0, Effective(a, ipiv, n), b, n) && |b| == n
    requires |ipiv| == n && forall j :: 0 <= j < n ==> ipiv[j] == 1
    ensures UniqueSolution(a0, b, b0, n) && TrivialKernel(a0, n)
  {
    hide RowTimes;
    hide Effective;
    hide Equivalent;
    var m := Effective(a, ipiv, n);
    forall x: Vector | |x| == n
      ensures Solves(a0, x, b0, n) <==> x == b
      ensures Solves(a0, x, Zeros(n), n) <==> x == Zeros(n)
    {
      Instance(a0, b0, m, b, n, x);
      forall i | 0 <= i < n ensures RowTimes(m, i, x, n) == Elem(x, i) {
        UnitTimes(a, ipiv, x, i, n);
      }
      OnlyItself(m, x, b, n);
      OnlyItself(m, x, Zeros(n), n);
    }
  }

  lemma Instance(a0: Matrix, b0: Vector, m: Matrix, b: Vector, n: nat, x: Vector)
    requires Equivalent(a0, b0, m, b, n)
    ensures Solves(a0, x, b0, n) <==> Solves(m, x, b, n)
    ensures Solves(a0, x, Zeros(n), n) <==> Solves(m, x, Zeros(n), n)
  {
    hide Solves;
    hide SolvesScaled;
    ScaledByOne(a0, x, b0, n);
    ScaledByOne(m, x, b, n);
    ScaledByZero(a0, x, b0, n);
    ScaledByZero(m, x, b, n);
  }

  lemma OnlyItself(m: Matrix, x: Vector, y: Vector, n: nat)
    requires |x| == |y| == n && forall i :: 0 <= i < n ==> RowTimes(m, i, x, n) == Elem(x, i)
    ensures Solves(m, x, y, n) <==> x == y
  {
    hide RowTimes;
    if Solves(m, x, y, n) {
      forall i | 0 <= i < n ensures x[i] == y[i] {
        assert RowTimes(m, i, x, n) == Elem(y, i);
      }
    }
  }

  /** What the abort means: unprocessed rows vanish on unprocessed columns. */
  ghost predicate NoPivotLeft(a: Matrix, ipiv: seq<int>, n: nat)
    requires |ipiv| == n
  {
    forall i, j :: 0 <= i < n && 0 <= j < n && ipiv[i] == 0 && ipiv[j] == 0 ==> At(a, i, j) == 0.0
  }

  /** The abort happens only for singular matrices. */
  lemma NoPivotMeansSingular(a0: Matrix, b0: Vector, a: Matrix, b: Vector, ipiv: seq<int>, c: int, n: nat)
    requires Equivalent(a0, b0, Effective(a, ipiv, n), b, n) && Flags(ipiv, n) && |ipiv| == n
    requires NoPivotLeft(a, ipiv, n) && 0 <= c < n && ipiv[c] == 0
    ensures !TrivialKernel(a0, n)
  {
    hide Effective;
    hide Equivalent;
    hide Sum;
    var m := Effective(a, ipiv, n);
    var x := seq(n, i requires 0 <= i < n => if i == c then 1.0 else if ipiv[i] == 1 then -At(a, i, c) else 0.0);
    forall i | 0 <= i < n ensures RowTimes(m, i, x, n) == Elem(Zeros(n), i) {
      var f, g, h := j => At(m, i, j) * Elem(x, j), j => if j == c then At(a, i, c) else 0.0,
        j => if j == i && ipiv[i] == 1 then -At(a, i, c) else 0.0;
      forall j | 0 <= j < n ensures f(j) == g(j) + h(j) {
        assert At(m, i, j) == Eff(a, ipiv, i, j);
      }
      SumEqual(0, n, f, j => g(j) + h(j));
      SumAdd(0, n, g, h);
      SumSingle(0, n, c, g);
      SumSingle(0, n, i, h);
    }
    assert x[c] == 1.0 != Zeros(n)[c];
    Instance(a0, b0, m, b, n, x);
  }
}
