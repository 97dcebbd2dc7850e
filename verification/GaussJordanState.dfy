/** gaussj on the arrays it overwrites (util.c). */
module GaussJordanState {
  import opened RealArithmetic
  import opened RealMatrix
  import opened Lup
  import opened LupState
  import opened GaussJordan

  /** The largest unprocessed entry, the last one in row order among equals. */
  ghost predicate IsPivot(m: Matrix, ipiv: seq<int>, n: nat, irow: int, icol: int)
    requires IsSquare(m, n) && |ipiv| == n
  {
    && 0 <= irow < n && 0 <= icol < n && ipiv[irow] == 0 && ipiv[icol] == 0
    && (forall j, k :: 0 <= j < n && 0 <= k < n && ipiv[j] == 0 && ipiv[k] == 0 ==>
         Abs(m[j][k]) <= Abs(m[irow][icol]))
    && (forall j, k :: 0 <= j < n && 0 <= k < n && ipiv[j] == 0 && ipiv[k] == 0 && (j > irow || (j == irow && k > icol)) ==>
         Abs(m[j][k]) < Abs(m[irow][icol]))
  }

  /** The pivot search. The original leaves irow and icol unset when it meets no candidate; an unprocessed
      column always provides one because the comparison accepts equality with the initial zero. */
  method SearchPivot(a: array2<real>, ipiv: array<int>) returns (irow: int, icol: int)
    requires a.Length0 == a.Length1 == ipiv.Length && Flags(ipiv[..], ipiv.Length)
    requires exists c :: 0 <= c < ipiv.Length && ipiv[c] == 0
    ensures IsPivot(Rows(a), ipiv[..], ipiv.Length, irow, icol)
  {
    var n := ipiv.Length;
    var big := 0.0;
    irow, icol := -1, -1;
    for j := 0 to n
      invariant Candidate(a, ipiv, big, irow, icol)
      invariant irow < j
      invariant irow < 0 ==> forall c :: 0 <= c < j ==> ipiv[c] == 1
      invariant forall h, k :: 0 <= h < j && 0 <= k < n && ipiv[h] == 0 && ipiv[k] == 0 ==>
        Abs(a[h, k]) <= big && (h > irow || (h == irow && k > icol) ==> Abs(a[h, k]) < big)
    {
      if ipiv[j] != 1 {
        for k := 0 to n
          invariant Candidate(a, ipiv, big, irow, icol)
          invariant irow <= j && (irow == j ==> icol < k)
          invariant irow < 0 ==> (forall c :: 0 <= c < j ==> ipiv[c] == 1) && (forall c :: 0 <= c < k ==> ipiv[c] == 1)
          invariant forall h, q :: 0 <= h < n && 0 <= q < n && (h < j || (h == j && q < k)) && ipiv[h] == 0 && ipiv[q] == 0 ==>
            Abs(a[h, q]) <= big && (h > irow || (h == irow && q > icol) ==> Abs(a[h, q]) < big)
        {
          if ipiv[k] == 0 {
            if Abs(a[j, k]) >= big {
              big := Abs(a[j, k]);
              irow := j;
              icol := k;
            }
          }
        }
      }
    }
  }

  ghost predicate Candidate(a: array2<real>, ipiv: array<int>, big: real, irow: int, icol: int)
    requires a.Length0 == a.Length1 == ipiv.Length
    reads a, ipiv
  {
    && big >= 0.0
    && (irow < 0 ==> big == 0.0 && icol < 0)
    && (irow >= 0 ==> irow < ipiv.Length && 0 <= icol < ipiv.Length && ipiv[irow] == 0 && ipiv[icol] == 0
                      && big == Abs(a[irow, icol]))
  }

  method DivideInPlace(a: array2<real>, c: int)
    requires a.Length0 == a.Length1 && 0 <= c < a.Length0 && a[c, c] != 0.0
    modifies a
    ensures var m := old(Rows(a)); Rows(a) == m[c := DivideRow(m[c], c)]
  {
    ghost var m := Rows(a);
    ghost var r := DivideRow(m[c], c);
    var pivinv := 1.0 / a[c, c];
    a[c, c] := 1.0;
    for l := 0 to a.Length1
      invariant forall i, q :: 0 <= i < a.Length0 && 0 <= q < a.Length1 ==>
        a[i, q] == if i != c then m[i][q] else if q < l then r[q] else if q == c then 1.0 else m[c][q]
    {
      a[c, l] := a[c, l] * pivinv;
    }
    SameMatrix(Rows(a), m[c := r]);
  }

  method ReduceInPlace(a: array2<real>, ll: int, c: int)
    requires a.Length0 == a.Length1 && 0 <= c < a.Length0 && 0 <= ll < a.Length0 && ll != c
    modifies a
    ensures var m := old(Rows(a)); Rows(a) == m[ll := ReduceRow(m[ll], m[c], c)]
  {
    ghost var m := Rows(a);
    ghost var r := ReduceRow(m[ll], m[c], c);
    var dum := a[ll, c];
    a[ll, c] := 0.0;
    for l := 0 to a.Length1
      invariant forall i, q :: 0 <= i < a.Length0 && 0 <= q < a.Length1 ==>
        a[i, q] == if i != ll then m[i][q] else if q < l then r[q] else if q == c then 0.0 else m[ll][q]
    {
      a[ll, l] := a[ll, l] - a[c, l] * dum;
    }
    SameMatrix(Rows(a), m[ll := r]);
  }

  /** Division of the pivot row and reduction of all the others, on the matrix and the right-hand side. */
  method Eliminate(a: array2<real>, b: array<real>, c: int)
    requires a.Length0 == a.Length1 == b.Length && 0 <= c < b.Length && a[c, c] != 0.0
    modifies a, b
    ensures Rows(a) == ReduceMatrix(old(Rows(a)), c, b.Length)
    ensures b[..] == ReduceVector(old(Rows(a)), old(b[..]), c, b.Length)
  {
    hide DivideRow;
    hide ReduceRow;
    hide Rows;
    ghost var m, v, n := Rows(a), b[..], b.Length;
    ghost var r, w := ReduceMatrix(m, c, n), ReduceVector(m, v, c, n);
    assert m[c][c] == a[c, c];
    b[c] := b[c] * (1.0 / a[c, c]);
    DivideInPlace(a, c);
    for ll := 0 to b.Length
      invariant forall i :: 0 <= i < n ==> Rows(a)[i] == if i < ll || i == c then r[i] else m[i]
      invariant forall i :: 0 <= i < n ==> b[i] == if i < ll || i == c then w[i] else v[i]
    {
      if ll != c {
        assert a[ll, c] == Rows(a)[ll][c] == m[ll][c];
        b[ll] := b[ll] - b[c] * a[ll, c];
        ReduceInPlace(a, ll, c);
      }
    }
    assert Rows(a) == r;
    assert b[..] == w;
  }

  method SwapReals(b: array<real>, i: int, j: int)
    requires 0 <= i < b.Length && 0 <= j < b.Length
    modifies b
    ensures b[..] == Swap(old(b[..]), i, j)
  {
    b[i], b[j] := b[j], b[i];
  }

  /** One iteration of the main loop after the search: false when the pivot is zero. */
  method PivotOn(a: array2<real>, b: array<real>, irow: int, icol: int) returns (ok: bool)
    requires a.Length0 == a.Length1 == b.Length && 0 <= irow < b.Length && 0 <= icol < b.Length
    modifies a, b
    ensures ok <==> old(a[irow, icol]) != 0.0
    ensures ok ==>
      var m, n := Swap(old(Rows(a)), irow, icol), b.Length;
      && m[icol][icol] == old(a[irow, icol])
      && Rows(a) == ReduceMatrix(m, icol, n)
      && b[..] == ReduceVector(m, Swap(old(b[..]), irow, icol), icol, n)
  {
    hide Rows;
    ghost var m, v := Rows(a), b[..];
    assert m[irow][icol] == a[irow, icol];
    if irow != icol {
      SwapRows(a, irow, icol);
      SwapReals(b, irow, icol);
    }
    assert Rows(a) == Swap(m, irow, icol);
    assert b[..] == Swap(v, irow, icol);
    assert a[icol, icol] == Rows(a)[icol][icol];
    if a[icol, icol] == 0.0 {
      return false;
    }
    Eliminate(a, b, icol);
    return true;
  }

  /** gaussj succeeds exactly on the matrices with a trivial kernel, and then b holds the only solution of the
      original system. */
  method Gaussj(a: array2<real>, b: array<real>) returns (ok: bool)
    requires a.Length0 == a.Length1 == b.Length
    modifies a, b
    ensures ok <==> TrivialKernel(old(Rows(a)), b.Length)
    ensures ok ==> UniqueSolution(old(Rows(a)), b[..], old(b[..]), b.Length)
  {
    hide Rows;
    hide Equivalent;
    hide Effective;
    hide UniqueSolution;
    hide TrivialKernel;
    hide ReduceMatrix;
    hide ReduceVector;
    hide Swap;
    ghost var a0, b0 := Rows(a), b[..];
    var n := b.Length;
    var ipiv := new int[n](_ => 0);
    NothingPivoted(a0, ipiv[..], b0, n);
    CountZero(ipiv[..]);
    Reflexive(a0, b0, n);
    for i := 0 to n
      invariant Flags(ipiv[..], n) && Count(ipiv[..]) == i
      invariant IsSquare(Rows(a), n)
      invariant Equivalent(a0, b0, Effective(Rows(a), ipiv[..], n), b[..], n)
    {
      SomeUnprocessed(ipiv[..]);
      var irow, icol := SearchPivot(a, ipiv);
      ghost var m, v, flags := Rows(a), b[..], ipiv[..];
      ok := PivotOn(a, b, irow, icol);
      if !ok {
        SingularStop(a0, b0, m, v, flags, irow, icol, n);
        return;
      }
      PivotStepKeepsSolutions(m, v, flags, irow, icol, n);
      EquivalentTrans(a0, b0, Effective(m, flags, n), v, Effective(Rows(a), flags[icol := 1], n), b[..], n);
      CountUpdate(flags, icol);
      ipiv[icol] := ipiv[icol] + 1;
      assert ipiv[..] == flags[icol := 1];
    }
    AllProcessed(ipiv[..]);
    AllPivoted(a0, b0, Rows(a), b[..], ipiv[..], n);
    ok := true;
  }

  lemma Reflexive(a: Matrix, b: Vector, n: nat)
    ensures Equivalent(a, b, a, b, n)
  {
  }

  lemma SingularStop(a0: Matrix, b0: Vector, m: Matrix, v: Vector, ipiv: seq<int>, irow: int, icol: int, n: nat)
    requires IsSquare(m, n) && Flags(ipiv, n) && IsPivot(m, ipiv, n, irow, icol) && m[irow][icol] == 0.0
    requires Equivalent(a0, b0, Effective(m, ipiv, n), v, n)
    ensures !TrivialKernel(a0, n)
  {
    hide Equivalent;
    hide Effective;
    hide TrivialKernel;
    forall i, j | 0 <= i < n && 0 <= j < n && ipiv[i] == 0 && ipiv[j] == 0 ensures At(m, i, j) == 0.0 {
      assert Abs(m[i][j]) <= Abs(m[irow][icol]);
    }
    NoPivotMeansSingular(a0, b0, m, v, ipiv, icol, n);
  }

  // ---------------------------------------------------------------- how many columns are processed

  function Count(ipiv: seq<int>): nat {
    if ipiv == [] then 0 else Count(ipiv[..|ipiv| - 1]) + (if ipiv[|ipiv| - 1] == 0 then 0 else 1)
  }

  lemma {:induction false} CountZero(ipiv: seq<int>)
    requires forall c :: 0 <= c < |ipiv| ==> ipiv[c] == 0
    ensures Count(ipiv) == 0
  {
    if ipiv != [] {
      CountZero(ipiv[..|ipiv| - 1]);
    }
  }

  lemma {:induction false} CountUpdate(ipiv: seq<int>, c: int)
    requires 0 <= c < |ipiv| && ipiv[c] == 0
    ensures Count(ipiv[c := 1]) == Count(ipiv) + 1
  {
    var k := |ipiv| - 1;
    assert ipiv[c := 1][..k] == if c == k then ipiv[..k] else ipiv[..k][c := 1];
    if c < k {
      CountUpdate(ipiv[..k], c);
    }
  }

  lemma {:induction false} SomeUnprocessed(ipiv: seq<int>)
    requires Count(ipiv) < |ipiv|
    ensures exists c :: 0 <= c < |ipiv| && ipiv[c] == 0
  {
    var k := |ipiv| - 1;
    if ipiv[k] != 0 {
      SomeUnprocessed(ipiv[..k]);
    }
  }

  lemma {:induction false} CountBound(ipiv: seq<int>)
    ensures Count(ipiv) <= |ipiv|
  {
    if ipiv != [] {
      CountBound(ipiv[..|ipiv| - 1]);
    }
  }

  lemma {:induction false} AllProcessed(ipiv: seq<int>)
    requires Count(ipiv) == |ipiv|
    ensures forall c :: 0 <= c < |ipiv| ==> ipiv[c] != 0
  {
    if ipiv != [] {
      CountBound(ipiv[..|ipiv| - 1]);
      AllProcessed(ipiv[..|ipiv| - 1]);
    }
  }
}
