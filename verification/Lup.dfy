/** LUP decomposition as a function on matrices, and the factorization it computes (RCutil.c). */
module Lup {
  import opened RealArithmetic
  import opened RealMatrix

  const DELTA := 0.000001

  /** eq */
  predicate Eq(x: real, y: real) {
    Abs(x - y) < DELTA
  }

  // ---------------------------------------------------------------- the algorithm

  /** The largest magnitude in column k among rows k .. i-1 (0 when there is none). */
  function PivotMax(m: Matrix, k: int, i: int): (max: real)
    requires 0 <= k <= i <= |m| && forall r :: 0 <= r < |m| ==> |m[r]| == |m|
    requires k < |m|
    ensures max >= 0.0
    decreases i
  {
    if i == k then 0.0
    else
      var before := PivotMax(m, k, i - 1);
      if Abs(m[i - 1][k]) > before then Abs(m[i - 1][k]) else before
  }

  /** The first row attaining it; the previous pivot when column k vanishes. */
  function PivotRow(m: Matrix, k: int, i: int, previous: int): (row: int)
    requires 0 <= k <= i <= |m| && forall r :: 0 <= r < |m| ==> |m[r]| == |m|
    requires k < |m|
    ensures PivotMax(m, k, i) > 0.0 ==> k <= row < i && Abs(m[row][k]) == PivotMax(m, k, i)
    decreases i
  {
    if i == k then previous
    else if Abs(m[i - 1][k]) > PivotMax(m, k, i - 1) then i - 1
    else PivotRow(m, k, i - 1, previous)
  }

  function Swap<T>(s: seq<T>, i: int, j: int): (t: seq<T>)
    requires 0 <= i < |s| && 0 <= j < |s|
    ensures |t| == |s|
  {
    s[i := s[j]][j := s[i]]
  }

  /** A row after subtracting its multiple of the pivot row; the multiplier stays in column k. */
  function EliminateRow(row: Vector, pivot: Vector, k: int): (r: Vector)
    requires 0 <= k < |row| == |pivot| && pivot[k] != 0.0
    ensures |r| == |row|
  {
    seq(|row|, j requires 0 <= j < |row| =>
      if j < k then row[j]
      else if j == k then row[k] / pivot[k]
      else row[j] - row[k] / pivot[k] * pivot[j])
  }

  function Eliminate(m: Matrix, k: int): (r: Matrix)
    requires 0 <= k < |m| && IsSquare(m, |m|) && m[k][k] != 0.0
    ensures IsSquare(r, |m|)
  {
    seq(|m|, i requires 0 <= i < |m| && IsSquare(m, |m|) => if i <= k then m[i] else EliminateRow(m[i], m[k], k))
  }

  datatype LupResult = Factors(m: Matrix, p: seq<int>) | Singular

  /** The stages k .. n-2 of lupdcmp. */
  function Decompose(m: Matrix, p: seq<int>, k: nat, previous: int): LupResult
    requires IsSquare(m, |m|) && |p| == |m|
    decreases |m| - k
  {
    if k + 1 >= |m| then Factors(m, p)
    else
      var max, row := PivotMax(m, k, |m|), PivotRow(m, k, |m|, previous);
      if Eq(max, 0.0) then Singular
      else Decompose(Eliminate(Swap(m, k, row), k), Swap(p, k, row), k + 1, row)
  }

  function Identity(n: nat): seq<int> {
    seq(n, i => i)
  }

  function Lupdcmp(m: Matrix): LupResult
    requires IsSquare(m, |m|)
  {
    Decompose(m, Identity(|m|), 0, 0)
  }

  // ---------------------------------------------------------------- what has been factored

  ghost predicate IsPermutation(p: seq<int>, n: nat) {
    && |p| == n
    && (forall i :: 0 <= i < n ==> 0 <= p[i] < n)
    && (forall i, j :: 0 <= i < j < n ==> p[i] != p[j])
    && (forall r :: 0 <= r < n ==> r in p)
  }

  function Least(a: int, b: int): int {
    if a < b then a else b
  }

  /** The product of the factors stored below and above the diagonal, as far as stage k has got. */
  function Product(m: Matrix, i: int, j: int, k: int): real {
    Sum(0, Least(k, Least(i, j)), q => At(m, i, q) * At(m, q, j))
    + (if i > j && j < k then At(m, i, j) * At(m, j, j) else At(m, i, j))
  }

  ghost predicate Factored(a: Matrix, p: seq<int>, m: Matrix, k: int, n: nat) {
    && IsSquare(a, n) && IsSquare(m, n) && IsPermutation(p, n)
    && (forall i, j :: 0 <= i < n && 0 <= j < n ==> At(a, p[i], j) == Product(m, i, j, k))
    && (forall q :: 0 <= q < k ==> At(m, q, q) != 0.0)
  }

  lemma SwapPermutation(p: seq<int>, n: nat, i: int, j: int)
    requires IsPermutation(p, n) && 0 <= i < n && 0 <= j < n
    ensures IsPermutation(Swap(p, i, j), n)
  {
    var s := Swap(p, i, j);
    forall r | 0 <= r < n ensures r in s {
      assert r in p;
      var q :| 0 <= q < n && p[q] == r;
      assert s[if q == i then j else if q == j then i else q] == r;
    }
  }

  /** Exchanging two rows that are not yet factored only permutes the factored matrix. */
  lemma SwapKeepsFactored(a: Matrix, p: seq<int>, m: Matrix, k: int, n: nat, row: int)
    requires Factored(a, p, m, k, n) && 0 <= k <= row < n
    ensures Factored(a, Swap(p, k, row), Swap(m, k, row), k, n)
  {
    SwapPermutation(p, n, k, row);
    var s, q := Swap(m, k, row), Swap(p, k, row);
    forall i, j | 0 <= i < n && 0 <= j < n ensures At(a, q[i], j) == Product(s, i, j, k) {
      var i' := if i == k then row else if i == row then k else i;
      assert At(a, p[i'], j) == Product(m, i', j, k);
      SwapProduct(m, k, n, row, i, j);
    }
    forall q | 0 <= q < k ensures At(s, q, q) != 0.0 {
      assert At(s, q, q) == At(m, q, q);
    }
  }

  lemma SwapProduct(m: Matrix, k: int, n: nat, row: int, i: int, j: int)
    requires IsSquare(m, n) && 0 <= k <= row < n && 0 <= i < n && 0 <= j < n
    ensures Product(Swap(m, k, row), i, j, k)
         == Product(m, if i == k then row else if i == row then k else i, j, k)
  {
    hide Sum;
    var s := Swap(m, k, row);
    var i' := if i == k then row else if i == row then k else i;
    var f, g := q => At(s, i, q) * At(s, q, j), q => At(m, i', q) * At(m, q, j);
    var h := Least(k, Least(i, j));
    assert h == Least(k, Least(i', j));
    assert s[i] == m[i'];
    forall q | 0 <= q < h ensures f(q) == g(q) {
      assert s[q] == m[q];
    }
    SumEqual(0, h, f, g);
  }

  lemma EliminateAt(m: Matrix, k: int, n: nat, i: int, j: int)
    requires IsSquare(m, n) && 0 <= k < n && 0 <= i < n && 0 <= j < n && m[k][k] != 0.0
    ensures At(Eliminate(m, k), i, j)
         == if i <= k || j < k then At(m, i, j)
            else if j == k then At(m, i, k) / At(m, k, k)
            else At(m, i, j) - At(m, i, k) / At(m, k, k) * At(m, k, j)
  {
  }

  /** One elimination stage moves one more term of every product into the factors. */
  lemma EliminateProduct(m: Matrix, k: int, n: nat, i: int, j: int)
    requires IsSquare(m, n) && 0 <= k < n && 0 <= i < n && 0 <= j < n && m[k][k] != 0.0
    ensures Product(Eliminate(m, k), i, j, k + 1) == Product(m, i, j, k)
  {
    hide Eliminate;
    hide Sum;
    var e := Eliminate(m, k);
    var f, g := q => At(e, i, q) * At(e, q, j), q => At(m, i, q) * At(m, q, j);
    var h := Least(k, Least(i, j));
    forall q | 0 <= q < h ensures f(q) == g(q) {
      EliminateAt(m, k, n, i, q);
      EliminateAt(m, k, n, q, j);
    }
    SumEqual(0, h, f, g);
    EliminateAt(m, k, n, i, j);
    EliminateAt(m, k, n, j, j);
    EliminateAt(m, k, n, i, k);
    EliminateAt(m, k, n, k, j);
    if i > k && j > k {
      assert h == k && Least(k + 1, Least(i, j)) == k + 1;
      SumLast(0, k + 1, f);
    } else if i > k && j == k {
      assert h == k == Least(k + 1, Least(i, j));
      Quotient(At(m, i, k), At(m, k, k));
    } else {
      assert h == Least(k + 1, Least(i, j));
    }
  }

  lemma EliminateKeepsFactored(a: Matrix, p: seq<int>, m: Matrix, k: int, n: nat)
    requires Factored(a, p, m, k, n) && 0 <= k < n && m[k][k] != 0.0
    ensures Factored(a, p, Eliminate(m, k), k + 1, n)
  {
    hide Product;
    var e := Eliminate(m, k);
    forall i, j | 0 <= i < n && 0 <= j < n ensures At(a, p[i], j) == Product(e, i, j, k + 1) {
      EliminateProduct(m, k, n, i, j);
    }
    forall q | 0 <= q < k + 1 ensures At(e, q, q) != 0.0 {
      assert At(e, q, q) == At(m, q, q);
    }
  }

  lemma {:induction false} DecomposeFactors(a: Matrix, m: Matrix, p: seq<int>, k: nat, previous: int, n: nat)
    requires Factored(a, p, m, k, n) && k < n
    requires Decompose(m, p, k, previous).Factors?
    ensures var r := Decompose(m, p, k, previous); Factored(a, r.p, r.m, n - 1, n)
    decreases n - k
  {
    hide Factored;
    hide Eliminate;
    FactoredShape(a, p, m, k, n);
    if k + 1 < n {
      var max, row := PivotMax(m, k, n), PivotRow(m, k, n, previous);
      SwapKeepsFactored(a, p, m, k, n, row);
      EliminateKeepsFactored(a, Swap(p, k, row), Swap(m, k, row), k, n);
      DecomposeFactors(a, Eliminate(Swap(m, k, row), k), Swap(p, k, row), k + 1, row, n);
    }
  }

  lemma FactoredShape(a: Matrix, p: seq<int>, m: Matrix, k: int, n: nat)
    requires Factored(a, p, m, k, n)
    ensures IsSquare(a, n) && IsSquare(m, n) && IsPermutation(p, n)
  {
  }

  lemma NothingFactored(a: Matrix, n: nat)
    requires IsSquare(a, n)
    ensures Factored(a, Identity(n), a, 0, n)
  {
    var p := Identity(n);
    forall r | 0 <= r < n ensures r in p {
      assert p[r] == r;
    }
  }

  // ---------------------------------------------------------------- L, U and the product

  function L(m: Matrix, i: int, q: int): real {
    if i > q then At(m, i, q) else if i == q then 1.0 else 0.0
  }

  function U(m: Matrix, q: int, j: int): real {
    if q <= j then At(m, q, j) else 0.0
  }

  /** When all stages are done the stored product is that of a unit lower and an upper triangular matrix. */
  lemma ProductIsLU(m: Matrix, i: int, j: int, n: nat)
    requires IsSquare(m, n) && 0 <= i < n && 0 <= j < n
    ensures Product(m, i, j, n - 1) == Sum(0, n, q => L(m, i, q) * U(m, q, j))
  {
    var f, g := q => L(m, i, q) * U(m, q, j), q => At(m, i, q) * At(m, q, j);
    var t := Least(i, j);
    assert Least(n - 1, t) == t;
    SumSplit(0, t, n, f);
    SumSplit(t, t + 1, n, f);
    SumEqual(0, t, f, g);
    SumZero(t + 1, n, f);
    assert Sum(t, t + 1, f) == Sum(t, t, f) + f(t);
  }

  /** Row p[i] of the original matrix is row i of L U, and U's diagonal is non-zero except perhaps at the end. */
  ghost predicate IsLUP(a: Matrix, m: Matrix, p: seq<int>, n: nat) {
    && IsSquare(m, n) && IsPermutation(p, n)
    && (forall i, j :: 0 <= i < n && 0 <= j < n ==> At(a, p[i], j) == Sum(0, n, q => L(m, i, q) * U(m, q, j)))
    && (forall q :: 0 <= q < n - 1 ==> U(m, q, q) != 0.0)
  }

  lemma LupIsCorrect(a: Matrix, n: nat)
    requires IsSquare(a, n) && n >= 1 && Lupdcmp(a).Factors?
    ensures IsLUP(a, Lupdcmp(a).m, Lupdcmp(a).p, n)
  {
    var r := Lupdcmp(a);
    NothingFactored(a, n);
    DecomposeFactors(a, a, Identity(n), 0, 0, n);
    forall i, j | 0 <= i < n && 0 <= j < n
      ensures At(a, r.p[i], j) == Sum(0, n, q => L(r.m, i, q) * U(r.m, q, j))
    {
      ProductIsLU(r.m, i, j, n);
    }
  }

  // ---------------------------------------------------------------- the multipliers

  /** No multiplier stored so far exceeds one. */
  ghost predicate Tame(m: Matrix, k: int, n: int) {
    forall i, j :: 0 <= j < k && j < i < n ==> Abs(At(m, i, j)) <= 1.0
  }

  lemma RatioAtMostOne(x: real, y: real)
    requires y != 0.0 && Abs(x) <= Abs(y)
    ensures Abs(x / y) <= 1.0
  {
    var q := x / y;
    Quotient(x, y);
    TooLarge(q, y);
  }

  lemma TooLarge(q: real, y: real)
    requires y != 0.0
    ensures Abs(q) > 1.0 ==> Abs(q * y) > Abs(y)
  {
    var p, z := Abs(q), Abs(y);
    assert Abs(q * y) == p * z;
    if p > 1.0 {
      PositiveProduct(p - 1.0, z);
      assert (p - 1.0) * z == p * z - z;
    }
  }

  lemma SwapKeepsTame(m: Matrix, k: nat, n: nat, row: int)
    requires IsSquare(m, n) && k <= row < n && k < n && Tame(m, k, n)
    ensures Tame(Swap(m, k, row), k, n)
  {
    var t := Swap(m, k, row);
    forall i, j | 0 <= j < k && j < i < n ensures Abs(At(t, i, j)) <= 1.0 {
      assert At(t, i, j) == At(m, if i == k then row else if i == row then k else i, j);
    }
  }

  lemma EliminateKeepsTame(m: Matrix, k: nat, n: nat)
    requires IsSquare(m, n) && k < n && Tame(m, k, n) && m[k][k] != 0.0
    requires forall i :: k <= i < n ==> Abs(m[i][k]) <= Abs(m[k][k])
    ensures Tame(Eliminate(m, k), k + 1, n)
  {
    var e := Eliminate(m, k);
    forall i, j | 0 <= j < k + 1 && j < i < n ensures Abs(At(e, i, j)) <= 1.0 {
      if j < k {
        assert At(e, i, j) == At(m, i, j);
      } else {
        RatioAtMostOne(m[i][k], m[k][k]);
      }
    }
  }

  lemma {:induction false} DecomposeIsTame(m: Matrix, p: seq<int>, k: nat, previous: int, n: nat)
    requires IsSquare(m, n) && |p| == n && k < n && Tame(m, k, n) && Decompose(m, p, k, previous).Factors?
    ensures Tame(Decompose(m, p, k, previous).m, n - 1, n)
    decreases n - k
  {
    hide Eliminate;
    hide Tame;
    if k + 1 < n {
      var max, row := PivotMax(m, k, n), PivotRow(m, k, n, previous);
      var t := Swap(m, k, row);
      forall i | k <= i < n ensures Abs(t[i][k]) <= Abs(t[k][k]) {
        PivotMaxBounds(m, k, n, i);
        PivotMaxBounds(m, k, n, k);
      }
      SwapKeepsTame(m, k, n, row);
      EliminateKeepsTame(t, k, n);
      DecomposeIsTame(Eliminate(t, k), Swap(p, k, row), k + 1, row, n);
    }
  }

  /** Partial pivoting keeps every multiplier, and so every entry of L, at most one in magnitude. */
  lemma MultipliersAtMostOne(a: Matrix, n: nat)
    requires IsSquare(a, n) && n >= 1 && Lupdcmp(a).Factors?
    ensures forall i, j :: 0 <= i < n && 0 <= j < n ==> Abs(L(Lupdcmp(a).m, i, j)) <= 1.0
  {
    hide Decompose;
    DecomposeIsTame(a, Identity(n), 0, 0, n);
  }

  /** Column k has nothing left to pivot on. */
  ghost predicate Stuck(a: Matrix, p: seq<int>, m: Matrix, k: int, n: nat) {
    && Factored(a, p, m, k, n) && 0 <= k < n - 1
    && forall i :: k <= i < n ==> Abs(At(m, i, k)) < DELTA
  }

  lemma {:induction false} PivotMaxBounds(m: Matrix, k: int, i: int, r: int)
    requires 0 <= k <= r < i <= |m| && IsSquare(m, |m|)
    ensures Abs(m[r][k]) <= PivotMax(m, k, i)
    decreases i
  {
    if r < i - 1 {
      PivotMaxBounds(m, k, i - 1, r);
    }
  }

  /** The decomposition aborts only at a stage whose whole remaining column is below the tolerance. */
  lemma {:induction false} DecomposeStuck(a: Matrix, m: Matrix, p: seq<int>, k: nat, previous: int, n: nat)
    returns (p': seq<int>, m': Matrix, k': int)
    requires Factored(a, p, m, k, n) && k < n
    requires Decompose(m, p, k, previous).Singular?
    ensures Stuck(a, p', m', k', n)
    decreases n - k
  {
    hide Factored;
    hide Eliminate;
    FactoredShape(a, p, m, k, n);
    var max, row := PivotMax(m, k, n), PivotRow(m, k, n, previous);
    if Eq(max, 0.0) {
      p', m', k' := p, m, k;
      forall i | k <= i < n ensures Abs(At(m, i, k)) < DELTA {
        PivotMaxBounds(m, k, n, i);
      }
    } else {
      SwapKeepsFactored(a, p, m, k, n, row);
      EliminateKeepsFactored(a, Swap(p, k, row), Swap(m, k, row), k, n);
      p', m', k' := DecomposeStuck(a, Eliminate(Swap(m, k, row), k), Swap(p, k, row), k + 1, row, n);
    }
  }

  // ---------------------------------------------------------------- substitution

  /** The first i components of the solution of L y = P b. */
  function Forward(m: Matrix, p: seq<int>, b: Vector, i: nat): (y: Vector)
    requires i <= |p|
    ensures |y| == i
  {
    if i == 0 then []
    else
      var y := Forward(m, p, b, i - 1);
      y + [Elem(b, p[i - 1]) - Sum(0, i - 1, j => Elem(y, j) * L(m, i - 1, j))]
  }

  /** Components i .. n-1 of the solution of U x = y, given the ones from k on. */
  function Backward(m: Matrix, y: Vector, tail: Vector, i: nat, n: nat): (x: Vector)
    requires i + |tail| <= n && forall q :: i <= q < n - |tail| ==> U(m, q, q) != 0.0
    ensures |x| == n - i && x[n - i - |tail|..] == tail
    decreases n - i
  {
    if i + |tail| == n then tail
    else
      var x := Backward(m, y, tail, i + 1, n);
      [(Elem(y, i) - Sum(i + 1, n, j => Elem(x, j - i - 1) * U(m, i, j))) / U(m, i, i)] + x
  }

  function Lusolve(m: Matrix, p: seq<int>, b: Vector): (x: Vector)
    requires |p| == |m| && forall q :: 0 <= q < |m| ==> U(m, q, q) != 0.0
    ensures |x| == |m|
  {
    Backward(m, Forward(m, p, b, |m|), [], 0, |m|)
  }

  lemma {:induction false} ForwardPrefix(m: Matrix, p: seq<int>, b: Vector, i: nat, k: nat)
    requires k <= i <= |p|
    ensures Forward(m, p, b, i)[..k] == Forward(m, p, b, k)
  {
    if k < i {
      ForwardPrefix(m, p, b, i - 1, k);
      assert Forward(m, p, b, i)[..k] == Forward(m, p, b, i - 1)[..k];
    }
  }

  lemma ForwardUnfolds(m: Matrix, p: seq<int>, b: Vector, i: nat, n: nat)
    requires |p| == n && i < n
    ensures var y, before := Forward(m, p, b, n), Forward(m, p, b, i);
            && Elem(y, i) == Elem(b, p[i]) - Sum(0, i, j => Elem(before, j) * L(m, i, j))
            && forall q :: 0 <= q < i ==> Elem(y, q) == Elem(before, q)
  {
    hide Sum;
    hide L;
    var y, before := Forward(m, p, b, n), Forward(m, p, b, i);
    ForwardPrefix(m, p, b, n, i + 1);
    ForwardPrefix(m, p, b, n, i);
    assert y[i] == Forward(m, p, b, i + 1)[i] by { assert y[i] == y[..i + 1][i]; }
    forall q | 0 <= q < i ensures Elem(y, q) == Elem(before, q) {
      assert y[q] == y[..i][q];
    }
  }

  /** Forward substitution solves L y = P b. */
  lemma ForwardSolves(m: Matrix, p: seq<int>, b: Vector, i: nat, n: nat)
    requires |p| == n && i < n
    ensures var y := Forward(m, p, b, n);
            Sum(0, n, q => L(m, i, q) * Elem(y, q)) == Elem(b, p[i])
  {
    hide Sum;
    hide Forward;
    hide Elem;
    hide At;
    var y, before := Forward(m, p, b, n), Forward(m, p, b, i);
    ForwardUnfolds(m, p, b, i, n);
    var f, g := q => L(m, i, q) * Elem(y, q), j => Elem(before, j) * L(m, i, j);
    forall q | 0 <= q < i ensures f(q) == g(q) {
      assert Elem(y, q) == Elem(before, q);
    }
    SumEqual(0, i, f, g);
    assert f(i) == Elem(y, i);
    SumOneMore(i, n, f);
  }

  /** A sum whose terms past index i vanish. */
  lemma SumOneMore(i: int, n: int, f: int -> real)
    requires 0 <= i < n && forall q :: i < q < n ==> f(q) == 0.0
    ensures Sum(0, n, f) == Sum(0, i, f) + f(i)
  {
    hide Sum;
    SumSplit(0, i + 1, n, f);
    SumLast(0, i + 1, f);
    SumZero(i + 1, n, f);
  }

  lemma BackwardDivides(m: Matrix, y: Vector, tail: Vector, i: nat, n: nat)
    requires i + |tail| < n && forall q :: i <= q < n - |tail| ==> U(m, q, q) != 0.0
    ensures var x, rest := Backward(m, y, tail, i, n), Backward(m, y, tail, i + 1, n);
            && Elem(x, 0) == (Elem(y, i) - Sum(i + 1, n, j => Elem(rest, j - i - 1) * U(m, i, j))) / U(m, i, i)
            && forall j :: 0 < j < n - i ==> Elem(x, j) == Elem(rest, j - 1)
  {
    hide Sum;
    hide U;
  }

  lemma BackwardUnfolds(m: Matrix, y: Vector, tail: Vector, i: nat, n: nat)
    requires i + |tail| < n && forall q :: i <= q < n - |tail| ==> U(m, q, q) != 0.0
    ensures var x, rest := Backward(m, y, tail, i, n), Backward(m, y, tail, i + 1, n);
            && U(m, i, i) * Elem(x, 0) == Elem(y, i) - Sum(i + 1, n, j => Elem(rest, j - i - 1) * U(m, i, j))
            && forall j :: 0 < j < n - i ==> Elem(x, j) == Elem(rest, j - 1)
  {
    hide Sum;
    hide U;
    hide Elem;
    hide Backward;
    BackwardDivides(m, y, tail, i, n);
    var x, rest := Backward(m, y, tail, i, n), Backward(m, y, tail, i + 1, n);
    var s := Sum(i + 1, n, j => Elem(rest, j - i - 1) * U(m, i, j));
    QuotientTimes(Elem(y, i) - s, U(m, i, i), Elem(x, 0));
  }

  /** The same sum with the solution itself. */
  lemma TailTerms(m: Matrix, x: Vector, rest: Vector, i: nat, n: nat)
    requires forall j :: 0 < j < n - i ==> Elem(x, j) == Elem(rest, j - 1)
    ensures Sum(i + 1, n, j => U(m, i, j) * Elem(x, j - i)) == Sum(i + 1, n, j => Elem(rest, j - i - 1) * U(m, i, j))
  {
    hide Sum;
    hide U;
    hide Elem;
    var f, g := j => U(m, i, j) * Elem(x, j - i), j => Elem(rest, j - i - 1) * U(m, i, j);
    forall j | i + 1 <= j < n ensures f(j) == g(j) {
      assert Elem(x, j - i) == Elem(rest, j - i - 1);
    }
    SumEqual(i + 1, n, f, g);
  }

  lemma SumFirst(lo: int, hi: int, f: int -> real)
    requires lo < hi
    ensures Sum(lo, hi, f) == f(lo) + Sum(lo + 1, hi, f)
  {
    hide Sum;
    SumSplit(lo, lo + 1, hi, f);
    SumLast(lo, lo + 1, f);
    SumEmpty(lo, lo, f);
  }

  /** The row solved last. */
  lemma BackwardDiagonal(m: Matrix, y: Vector, tail: Vector, i: nat, n: nat)
    requires i + |tail| < n && forall q :: i <= q < n - |tail| ==> U(m, q, q) != 0.0
    ensures var x := Backward(m, y, tail, i, n);
            Sum(i, n, j => U(m, i, j) * Elem(x, j - i)) == Elem(y, i)
  {
    hide Sum;
    hide Backward;
    hide U;
    hide Elem;
    var x := Backward(m, y, tail, i, n);
    SumFirst(i, n, j => U(m, i, j) * Elem(x, j - i));
    assert Sum(i, n, j => U(m, i, j) * Elem(x, j - i))
        == U(m, i, i) * Elem(x, 0) + Sum(i + 1, n, j => U(m, i, j) * Elem(x, j - i));
    BackwardUnfolds(m, y, tail, i, n);
    TailTerms(m, x, Backward(m, y, tail, i + 1, n), i, n);
  }

  /** Backward substitution solves U x = y above the given tail. */
  lemma {:induction false} BackwardSolves(m: Matrix, y: Vector, tail: Vector, i: nat, k: nat, n: nat)
    requires i + |tail| <= n && forall q :: i <= q < n - |tail| ==> U(m, q, q) != 0.0
    requires i <= k < n - |tail|
    ensures var x := Backward(m, y, tail, i, n);
            Sum(k, n, j => U(m, k, j) * Elem(x, j - i)) == Elem(y, k)
    decreases n - i
  {
    hide Sum;
    hide Backward;
    hide U;
    hide Elem;
    if i == k {
      BackwardDiagonal(m, y, tail, i, n);
    } else {
      BackwardUnfolds(m, y, tail, i, n);
      BackwardSolves(m, y, tail, i + 1, k, n);
      var x, rest := Backward(m, y, tail, i, n), Backward(m, y, tail, i + 1, n);
      var f, g := j => U(m, k, j) * Elem(x, j - i), j => U(m, k, j) * Elem(rest, j - (i + 1));
      forall j | k <= j < n ensures f(j) == g(j) {
        assert Elem(x, j - i) == Elem(rest, j - i - 1);
      }
      SumEqual(k, n, f, g);
      assert Sum(k, n, f) == Elem(y, k);
    }
  }

  // ---------------------------------------------------------------- A x = b

  /** Entry j of row p[i], times x_j, as a sum down the stored column. */
  lemma EntryThroughFactors(a: Matrix, m: Matrix, p: seq<int>, x: Vector, i: int, j: int, n: nat)
    requires IsLUP(a, m, p, n) && 0 <= i < n && 0 <= j < n
    ensures At(a, p[i], j) * Elem(x, j) == Sum(0, n, q => L(m, i, q) * (U(m, q, j) * Elem(x, j)))
  {
    hide Sum;
    hide L;
    hide U;
    hide At;
    hide Elem;
    var g, e := q => L(m, i, q) * U(m, q, j), Elem(x, j);
    assert At(a, p[i], j) == Sum(0, n, g);
    SumScale(0, n, e, g);
    var f, h := q => e * g(q), q => L(m, i, q) * (U(m, q, j) * Elem(x, j));
    forall q | 0 <= q < n ensures f(q) == h(q) {
      Associate(L(m, i, q), U(m, q, j), e);
    }
    SumEqual(0, n, f, h);
  }

  /** Row p[i] of A times x is row i of L times (U x). */
  lemma RowThroughFactors(a: Matrix, m: Matrix, p: seq<int>, x: Vector, i: int, n: nat)
    requires IsLUP(a, m, p, n) && 0 <= i < n
    ensures RowTimes(a, p[i], x, n)
         == Sum(0, n, q => L(m, i, q) * Sum(0, n, j => U(m, q, j) * Elem(x, j)))
  {
    hide Sum;
    hide L;
    hide U;
    hide At;
    hide Elem;
    var f := (q: int, j: int) => L(m, i, q) * (U(m, q, j) * Elem(x, j));
    var row, cols := j => At(a, p[i], j) * Elem(x, j), j => Sum(0, n, q => f(q, j));
    forall j | 0 <= j < n ensures row(j) == cols(j) {
      EntryThroughFactors(a, m, p, x, i, j, n);
      SumEqual(0, n, q => f(q, j), q => L(m, i, q) * (U(m, q, j) * Elem(x, j)));
    }
    SumEqual(0, n, row, cols);
    SumSwap(0, n, 0, n, f);
    var rows := q => Sum(0, n, j => f(q, j));
    var outer := q => L(m, i, q) * Sum(0, n, j => U(m, q, j) * Elem(x, j));
    forall q | 0 <= q < n ensures rows(q) == outer(q) {
      var h := j => U(m, q, j) * Elem(x, j);
      SumScale(0, n, L(m, i, q), h);
      SumEqual(0, n, j => f(q, j), j => L(m, i, q) * h(j));
    }
    SumEqual(0, n, rows, outer);
  }

  lemma UpperSum(m: Matrix, x: Vector, q: int, n: nat)
    requires 0 <= q < n
    ensures Sum(0, n, j => U(m, q, j) * Elem(x, j)) == Sum(q, n, j => U(m, q, j) * Elem(x, j))
  {
    var f := j => U(m, q, j) * Elem(x, j);
    SumSplit(0, q, n, f);
    SumZero(0, q, f);
  }

  lemma LusolveRow(a: Matrix, m: Matrix, p: seq<int>, b: Vector, i: int, n: nat)
    requires IsLUP(a, m, p, n) && |b| == n >= 1 && forall q :: 0 <= q < n ==> U(m, q, q) != 0.0
    requires 0 <= i < n
    ensures RowTimes(a, p[i], Lusolve(m, p, b), n) == Elem(b, p[i])
  {
    hide Sum;
    hide L;
    hide U;
    hide Elem;
    var x, y := Lusolve(m, p, b), Forward(m, p, b, n);
    RowThroughFactors(a, m, p, x, i, n);
    var f, g := q => L(m, i, q) * Sum(0, n, j => U(m, q, j) * Elem(x, j)), q => L(m, i, q) * Elem(y, q);
    forall q | 0 <= q < n ensures f(q) == g(q) {
      UpperSum(m, x, q, n);
      BackwardSolves(m, y, [], 0, q, n);
      SumEqual(q, n, j => U(m, q, j) * Elem(x, j), j => U(m, q, j) * Elem(x, j - 0));
    }
    SumEqual(0, n, f, g);
    ForwardSolves(m, p, b, i, n);
  }

  /** lusolve solves the original system. */
  lemma LusolveSolves(a: Matrix, m: Matrix, p: seq<int>, b: Vector, n: nat)
    requires IsLUP(a, m, p, n) && |b| == n >= 1 && U(m, n - 1, n - 1) != 0.0
    ensures forall q :: 0 <= q < n ==> U(m, q, q) != 0.0
    ensures Solves(a, Lusolve(m, p, b), b, n)
  {
    hide U;
    hide L;
    hide RowTimes;
    hide Sum;
    assert forall q :: 0 <= q < n ==> U(m, q, q) != 0.0;
    forall r | 0 <= r < n ensures RowTimes(a, r, Lusolve(m, p, b), n) == Elem(b, r) {
      assert r in p;
      var i :| 0 <= i < n && p[i] == r;
      LusolveRow(a, m, p, b, i, n);
    }
  }

  // ---------------------------------------------------------------- when the last pivot vanishes

  ghost predicate NonZero(x: Vector, n: nat) {
    |x| == n && exists i :: 0 <= i < n && x[i] != 0.0
  }

  function Zeros(n: nat): (z: Vector)
    ensures |z| == n && forall i :: 0 <= i < n ==> z[i] == 0.0
  {
    seq(n, i => 0.0)
  }

  /** If U's last diagonal entry is zero, the original matrix maps a non-zero vector to zero: the division
      lusolve performs is by zero only for singular matrices. */
  lemma ZeroPivotMeansSingular(a: Matrix, m: Matrix, p: seq<int>, n: nat) returns (x: Vector)
    requires IsLUP(a, m, p, n) && n >= 1 && U(m, n - 1, n - 1) == 0.0
    ensures NonZero(x, n) && Solves(a, x, Zeros(n), n)
  {
    hide L;
    hide U;
    hide Sum;
    hide Elem;
    x := Backward(m, Zeros(n), [1.0], 0, n);
    assert x[n - 1] == x[n - 1..][0] == 1.0;
    forall r | 0 <= r < n ensures RowTimes(a, r, x, n) == Elem(Zeros(n), r) {
      assert r in p;
      var i :| 0 <= i < n && p[i] == r;
      RowThroughFactors(a, m, p, x, i, n);
      var f := q => L(m, i, q) * Sum(0, n, j => U(m, q, j) * Elem(x, j));
      forall q | 0 <= q < n ensures f(q) == 0.0 {
        KernelRow(m, x, q, n);
      }
      SumZero(0, n, f);
      ElemOfZeros(r, n);
    }
  }

  lemma ElemOfZeros(r: int, n: nat)
    ensures Elem(Zeros(n), r) == 0.0
  {
  }

  lemma KernelRow(m: Matrix, x: Vector, q: int, n: nat)
    requires n >= 1 && 0 <= q < n && forall k :: 0 <= k < n - 1 ==> U(m, k, k) != 0.0
    requires U(m, n - 1, n - 1) == 0.0 && x == Backward(m, Zeros(n), [1.0], 0, n)
    ensures Sum(0, n, j => U(m, q, j) * Elem(x, j)) == 0.0
  {
    hide U;
    hide Sum;
    var f := j => U(m, q, j) * Elem(x, j);
    UpperSum(m, x, q, n);
    if q == n - 1 {
      SumLast(n - 1, n, f);
      SumEmpty(n - 1, n - 1, f);
    } else {
      BackwardSolves(m, Zeros(n), [1.0], 0, q, n);
      SumEqual(q, n, f, j => U(m, q, j) * Elem(x, j - 0));
    }
  }

  /** Only the zero vector is mapped to zero: the matrix is non-singular. */
  ghost predicate TrivialKernel(a: Matrix, n: nat) {
    forall x: Vector :: |x| == n && Solves(a, x, Zeros(n), n) ==> x == Zeros(n)
  }

  /** Component q of U x. */
  function UpperTimes(m: Matrix, x: Vector, q: int, n: nat): real {
    Sum(0, n, j => U(m, q, j) * Elem(x, j))
  }

  /** Forward substitution with a zero right-hand side: L z = 0 has only the zero solution. */
  lemma {:induction false} UpperVanishes(a: Matrix, m: Matrix, p: seq<int>, x: Vector, i: nat, n: nat)
    requires IsLUP(a, m, p, n) && i < n && Solves(a, x, Zeros(n), n)
    ensures UpperTimes(m, x, i, n) == 0.0
  {
    hide Sum;
    hide U;
    hide At;
    hide Elem;
    hide UpperTimes;
    var f, g := q => L(m, i, q) * UpperTimes(m, x, q, n), q => L(m, i, q) * Sum(0, n, j => U(m, q, j) * Elem(x, j));
    RowThroughFactors(a, m, p, x, i, n);
    forall q | 0 <= q < n ensures f(q) == g(q) {
      UpperTimesIs(m, x, q, n);
    }
    SumEqual(0, n, f, g);
    forall q | 0 <= q < i ensures f(q) == 0.0 {
      UpperVanishes(a, m, p, x, q, n);
    }
    SumZero(0, i, f);
    SumOneMore(i, n, f);
    assert RowTimes(a, p[i], x, n) == Elem(Zeros(n), p[i]);
    ElemOfZeros(p[i], n);
    assert f(i) == UpperTimes(m, x, i, n);
  }

  lemma UpperTimesIs(m: Matrix, x: Vector, q: int, n: nat)
    ensures UpperTimes(m, x, q, n) == Sum(0, n, j => U(m, q, j) * Elem(x, j))
  {
  }

  /** Backward substitution with a zero right-hand side. */
  lemma {:induction false} SolutionVanishes(a: Matrix, m: Matrix, p: seq<int>, x: Vector, q: nat, n: nat)
    requires IsLUP(a, m, p, n) && q < n && Solves(a, x, Zeros(n), n) && forall k :: 0 <= k < n ==> U(m, k, k) != 0.0
    ensures Elem(x, q) == 0.0
    decreases n - q
  {
    hide Sum;
    hide U;
    hide At;
    hide Elem;
    hide IsLUP;
    hide Solves;
    var f := j => U(m, q, j) * Elem(x, j);
    UpperVanishes(a, m, p, x, q, n);
    UpperTimesIs(m, x, q, n);
    UpperSum(m, x, q, n);
    SumFirst(q, n, f);
    forall j | q + 1 <= j < n ensures f(j) == 0.0 {
      SolutionVanishes(a, m, p, x, j, n);
    }
    SumZero(q + 1, n, f);
    assert f(q) == U(m, q, q) * Elem(x, q);
    ZeroFactor(U(m, q, q), Elem(x, q));
  }

  lemma ZeroFactor(x: real, y: real)
    requires x != 0.0 && x * y == 0.0
    ensures y == 0.0
  {
  }

  /** With correct factors, the matrix is non-singular exactly when the last pivot does not vanish: the case in
      which lusolve divides by zero is exactly the singular one that the decomposition did not stop at. */
  lemma NonSingularIffLastPivot(a: Matrix, m: Matrix, p: seq<int>, n: nat)
    requires IsLUP(a, m, p, n) && n >= 1
    ensures TrivialKernel(a, n) <==> U(m, n - 1, n - 1) != 0.0
  {
    hide U;
    hide Solves;
    if U(m, n - 1, n - 1) == 0.0 {
      var x := ZeroPivotMeansSingular(a, m, p, n);
      assert x != Zeros(n);
    } else {
      assert forall k :: 0 <= k < n ==> U(m, k, k) != 0.0;
      forall x: Vector | |x| == n && Solves(a, x, Zeros(n), n) ensures x == Zeros(n) {
        forall q | 0 <= q < n ensures x[q] == 0.0 {
          SolutionVanishes(a, m, p, x, q, n);
        }
      }
    }
  }

  /** A singular matrix the decomposition accepts: the loop never looks at the last pivot. */
  lemma LastPivotUnchecked()
    ensures var a := [[1.0, 1.0], [1.0, 1.0]];
            && Lupdcmp(a).Factors? && U(Lupdcmp(a).m, 1, 1) == 0.0 && !TrivialKernel(a, 2)
  {
    var a := [[1.0, 1.0], [1.0, 1.0]];
    assert PivotMax(a, 0, 1) == 1.0 && PivotMax(a, 0, 2) == 1.0 && PivotRow(a, 0, 2, 0) == 0;
    assert Swap(a, 0, 0) == a;
    var e := Eliminate(a, 0);
    assert e[1] == EliminateRow(a[1], a[0], 0) == [1.0, 0.0];
    assert Decompose(a, Identity(2), 0, 0) == Decompose(e, Swap(Identity(2), 0, 0), 1, 0);
    LupIsCorrect(a, 2);
    NonSingularIffLastPivot(a, Lupdcmp(a).m, Lupdcmp(a).p, 2);
  }

  // ---------------------------------------------------------------- when the decomposition stops

  /** The state of lupdcmp before a stage, unless it has stopped. */
  datatype Progress = Before(m: Matrix, p: seq<int>, previous: int) | Stopped

  /** Its state before stage k. */
  function Stages(a: Matrix, k: nat): (s: Progress)
    requires IsSquare(a, |a|) && k < |a|
    ensures s.Before? ==> IsSquare(s.m, |a|) && |s.p| == |a|
  {
    if k == 0 then Before(a, Identity(|a|), 0)
    else
      var s := Stages(a, k - 1);
      if s.Stopped? then Stopped
      else
        var max, row := PivotMax(s.m, k - 1, |a|), PivotRow(s.m, k - 1, |a|, s.previous);
        if Eq(max, 0.0) then Stopped
        else Before(Eliminate(Swap(s.m, k - 1, row), k - 1), Swap(s.p, k - 1, row), row)
  }

  /** All that is left of column k is below the tolerance. */
  ghost predicate ColumnVanishes(s: Progress, k: nat, n: nat) {
    s.Before? && forall i :: k <= i < n ==> Abs(At(s.m, i, k)) < DELTA
  }

  ghost predicate GetsStuck(a: Matrix, n: nat)
    requires IsSquare(a, n)
  {
    exists k: nat :: k < n - 1 && ColumnVanishes(Stages(a, k), k, n)
  }

  lemma {:induction false} PivotMaxAttained(m: Matrix, k: int, i: int)
    requires 0 <= k < i <= |m| && IsSquare(m, |m|) && forall r :: k <= r < i ==> Abs(m[r][k]) < DELTA
    ensures PivotMax(m, k, i) < DELTA
    decreases i
  {
    if i > k + 1 {
      PivotMaxAttained(m, k, i - 1);
    }
  }

  lemma StopsHere(m: Matrix, k: nat, n: nat)
    requires IsSquare(m, n) && k < n
    ensures Eq(PivotMax(m, k, n), 0.0) <==> forall i :: k <= i < n ==> Abs(At(m, i, k)) < DELTA
  {
    if forall i :: k <= i < n ==> Abs(At(m, i, k)) < DELTA {
      forall r | k <= r < n ensures Abs(m[r][k]) < DELTA {
        assert At(m, r, k) == m[r][k];
      }
      PivotMaxAttained(m, k, n);
    } else {
      var i :| k <= i < n && Abs(At(m, i, k)) >= DELTA;
      PivotMaxBounds(m, k, n, i);
    }
  }

  lemma {:induction false} StagesDecompose(a: Matrix, k: nat, n: nat)
    requires IsSquare(a, n) && k < n && Stages(a, k).Before?
    ensures var s := Stages(a, k); Lupdcmp(a) == Decompose(s.m, s.p, k, s.previous)
  {
    hide Eliminate;
    hide Swap;
    if k > 0 {
      StagesDecompose(a, k - 1, n);
    }
  }

  /** The decomposition aborts exactly when at some stage before the last nothing but entries below the
      tolerance are left in the column to be eliminated. */
  lemma AbortsIffColumnVanishes(a: Matrix, n: nat)
    requires IsSquare(a, n) && n >= 1
    ensures Lupdcmp(a).Singular? <==> GetsStuck(a, n)
  {
    hide Stages;
    hide Lupdcmp;
    hide Decompose;
    if k: nat :| k < n - 1 && ColumnVanishes(Stages(a, k), k, n) {
      StopsAt(a, k, n);
    } else {
      NeverStops(a, n - 1, n);
      StagesDecompose(a, n - 1, n);
      LastStage(Stages(a, n - 1), n);
    }
  }

  lemma StopsAt(a: Matrix, k: nat, n: nat)
    requires IsSquare(a, n) && k < n - 1 && ColumnVanishes(Stages(a, k), k, n)
    ensures Lupdcmp(a).Singular?
  {
    hide Stages;
    hide Lupdcmp;
    StagesDecompose(a, k, n);
    StopsHere(Stages(a, k).m, k, n);
  }

  lemma LastStage(s: Progress, n: nat)
    requires n >= 1 && s.Before? && IsSquare(s.m, n) && |s.p| == n
    ensures Decompose(s.m, s.p, n - 1, s.previous).Factors?
  {
  }

  lemma {:induction false} NeverStops(a: Matrix, k: nat, n: nat)
    requires IsSquare(a, n) && k < n && forall j: nat :: j < k ==> !ColumnVanishes(Stages(a, j), j, n)
    ensures Stages(a, k).Before?
  {
    hide Eliminate;
    hide Swap;
    hide PivotMax;
    hide PivotRow;
    hide At;
    hide Eq;
    hide Abs;
    if k > 0 {
      NeverStops(a, k - 1, n);
      StopsHere(Stages(a, k - 1).m, k - 1, n);
    }
  }
}
