/** Finite sums of reals, and matrices as sequences of rows. */
module RealMatrix {
  import opened RealArithmetic
  type Vector = seq<real>
  type Matrix = seq<seq<real>>

  function At(m: Matrix, i: int, j: int): real {
    if 0 <= i < |m| && 0 <= j < |m[i]| then m[i][j] else 0.0
  }

  function Elem(v: Vector, i: int): real {
    if 0 <= i < |v| then v[i] else 0.0
  }

  ghost predicate IsSquare(m: Matrix, n: nat) {
    |m| == n && forall i :: 0 <= i < n ==> |m[i]| == n
  }

  // ---------------------------------------------------------------- sums

  /** f(lo) + ... + f(hi - 1) */
  function Sum(lo: int, hi: int, f: int -> real): real
    decreases hi - lo
  {
    if hi <= lo then 0.0 else Sum(lo, hi - 1, f) + f(hi - 1)
  }

  lemma SumLast(lo: int, hi: int, f: int -> real)
    requires lo < hi
    ensures Sum(lo, hi, f) == Sum(lo, hi - 1, f) + f(hi - 1)
  {
  }

  lemma SumEmpty(lo: int, hi: int, f: int -> real)
    requires hi <= lo
    ensures Sum(lo, hi, f) == 0.0
  {
  }

  lemma {:induction false} SumEqual(lo: int, hi: int, f: int -> real, g: int -> real)
    requires forall i :: lo <= i < hi ==> f(i) == g(i)
    ensures Sum(lo, hi, f) == Sum(lo, hi, g)
    decreases hi - lo
  {
    if lo < hi {
      SumEqual(lo, hi - 1, f, g);
    }
  }

  lemma {:induction false} SumZero(lo: int, hi: int, f: int -> real)
    requires forall i :: lo <= i < hi ==> f(i) == 0.0
    ensures Sum(lo, hi, f) == 0.0
    decreases hi - lo
  {
    if lo < hi {
      SumZero(lo, hi - 1, f);
    }
  }

  lemma {:induction false} SumSplit(lo: int, mid: int, hi: int, f: int -> real)
    requires lo <= mid <= hi
    ensures Sum(lo, hi, f) == Sum(lo, mid, f) + Sum(mid, hi, f)
    decreases hi - mid
  {
    if mid < hi {
      SumSplit(lo, mid, hi - 1, f);
    }
  }

  lemma {:induction false} SumAdd(lo: int, hi: int, f: int -> real, g: int -> real)
    ensures Sum(lo, hi, i => f(i) + g(i)) == Sum(lo, hi, f) + Sum(lo, hi, g)
    decreases hi - lo
  {
    if lo < hi {
      SumAdd(lo, hi - 1, f, g);
    }
  }

  lemma {:induction false} SumScale(lo: int, hi: int, c: real, f: int -> real)
    ensures Sum(lo, hi, i => c * f(i)) == c * Sum(lo, hi, f)
    decreases hi - lo
  {
    if lo < hi {
      SumScale(lo, hi - 1, c, f);
      Distribute(Sum(lo, hi - 1, f), f(hi - 1), c);
    }
  }

  /** Counting from elsewhere. */
  lemma {:induction false} SumShift(lo: int, hi: int, d: int, f: int -> real)
    ensures Sum(lo, hi, q => f(q + d)) == Sum(lo + d, hi + d, f)
    decreases hi - lo
  {
    if lo < hi {
      SumShift(lo, hi - 1, d, f);
    }
  }

  /** A sum with one interesting term. */
  lemma SumSingle(lo: int, hi: int, k: int, f: int -> real)
    requires lo <= k < hi && forall i :: lo <= i < hi && i != k ==> f(i) == 0.0
    ensures Sum(lo, hi, f) == f(k)
  {
    SumSplit(lo, k, hi, f);
    SumSplit(k, k + 1, hi, f);
    SumZero(lo, k, f);
    SumZero(k + 1, hi, f);
    assert Sum(k, k + 1, f) == Sum(k, k, f) + f(k);
  }

  /** Exchanging the order of a double sum. */
  lemma {:induction false} SumSwap(lo: int, hi: int, lo': int, hi': int, f: (int, int) -> real)
    ensures Sum(lo, hi, i => Sum(lo', hi', j => f(i, j))) == Sum(lo', hi', j => Sum(lo, hi, i => f(i, j)))
    decreases hi - lo
  {
    var rows := i => Sum(lo', hi', j => f(i, j));
    var cols := j => Sum(lo, hi, i => f(i, j));
    if hi <= lo {
      SumZero(lo', hi', cols);
    } else {
      SumSwap(lo, hi - 1, lo', hi', f);
      var before := j => Sum(lo, hi - 1, i => f(i, j));
      var last := j => f(hi - 1, j);
      SumAdd(lo', hi', before, last);
      SumEqual(lo', hi', cols, j => before(j) + last(j));
    }
  }

  lemma {:induction false} SumNonNegative(lo: int, hi: int, f: int -> real)
    requires forall i :: lo <= i < hi ==> f(i) >= 0.0
    ensures Sum(lo, hi, f) >= 0.0
    ensures forall i :: lo <= i < hi ==> f(i) <= Sum(lo, hi, f)
    decreases hi - lo
  {
    if lo < hi {
      SumNonNegative(lo, hi - 1, f);
    }
  }

  // ---------------------------------------------------------------- products

  /** Row i of m times x. */
  function RowTimes(m: Matrix, i: int, x: Vector, n: nat): real {
    Sum(0, n, j => At(m, i, j) * Elem(x, j))
  }

  /** m x == b */
  ghost predicate Solves(m: Matrix, x: Vector, b: Vector, n: nat) {
    forall i :: 0 <= i < n ==> RowTimes(m, i, x, n) == Elem(b, i)
  }
}
