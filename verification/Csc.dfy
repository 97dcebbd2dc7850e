/** coo2csc: coordinate format to compressed columns (util.c). */
module CompressedColumns {
  /** coo_elem: row, column and value. */
  datatype Coo = Coo(x: int, y: int, val: real)

  // ---------------------------------------------------------------- sorting, column major

  /** The order of c2c_cmp. */
  predicate AtMost(a: Coo, b: Coo) {
    a.y < b.y || (a.y == b.y && a.x <= b.x)
  }

  predicate Sorted(s: seq<Coo>) {
    forall i, j :: 0 <= i < j < |s| ==> AtMost(s[i], s[j])
  }

  function Insert(e: Coo, s: seq<Coo>): seq<Coo> {
    if s == [] || AtMost(e, s[0]) then [e] + s else [s[0]] + Insert(e, s[1..])
  }

  /** Stands for qsort: any sorted rearrangement would do, see ColumnsAreRight. */
  function Sort(s: seq<Coo>): seq<Coo> {
    if s == [] then [] else Insert(s[0], Sort(s[1..]))
  }

  lemma {:induction false} InsertSorts(e: Coo, s: seq<Coo>)
    requires Sorted(s)
    ensures Sorted(Insert(e, s)) && multiset(Insert(e, s)) == multiset{e} + multiset(s)
  {
    if s != [] && !AtMost(e, s[0]) {
      assert Sorted(s[1..]);
      InsertSorts(e, s[1..]);
      var t := Insert(e, s[1..]);
      assert s == [s[0]] + s[1..];
      forall k | 0 <= k < |t| ensures AtMost(s[0], t[k]) {
        assert t[k] in multiset(t);
        assert t[k] == e || t[k] in s[1..];
      }
    } else {
      assert forall k :: 0 <= k < |s| ==> AtMost(e, s[k]);
    }
  }

  lemma {:induction false} SortSorts(s: seq<Coo>)
    ensures Sorted(Sort(s)) && multiset(Sort(s)) == multiset(s)
  {
    if s != [] {
      SortSorts(s[1..]);
      InsertSorts(s[0], Sort(s[1..]));
      assert s == [s[0]] + s[1..];
    }
  }

  // ---------------------------------------------------------------- column pointers

  /** How many entries lie in columns before q. */
  function CountBelow(s: seq<Coo>, q: int): (c: nat)
    ensures c <= |s|
  {
    if s == [] then 0 else CountBelow(s[..|s| - 1], q) + (if s[|s| - 1].y < q then 1 else 0)
  }

  /** The last non-empty column, -1 when there is none. */
  function LastColumn(s: seq<Coo>): int {
    if s == [] then -1 else s[|s| - 1].y
  }

  /** The pointers the conversion writes: up to one past the last non-empty column. The rest stays as it was. */
  function Pointers(s: seq<Coo>, was: seq<int>): (p: seq<int>)
    ensures |p| == |was|
  {
    seq(|was|, q requires 0 <= q < |was| => if q <= LastColumn(s) + 1 then CountBelow(s, q) else was[q])
  }

  /** All n + 1 pointers are right. */
  ghost predicate ColumnsAreComplete(s: seq<Coo>, p: seq<int>, n: nat) {
    |p| == n + 1 && forall q :: 0 <= q <= n ==> p[q] == CountBelow(s, q)
  }

  ghost predicate InMatrix(s: seq<Coo>, n: nat) {
    forall i :: 0 <= i < |s| ==> 0 <= s[i].y < n
  }

  lemma {:induction false} CountAll(s: seq<Coo>, q: int)
    requires forall i :: 0 <= i < |s| ==> s[i].y < q
    ensures CountBelow(s, q) == |s|
  {
    if s != [] {
      CountAll(s[..|s| - 1], q);
    }
  }

  /** In a sorted sequence the entries before column q are exactly the first CountBelow ones. */
  lemma {:induction false} CountSplits(s: seq<Coo>, q: int, i: int)
    requires Sorted(s) && 0 <= i < |s|
    ensures s[i].y < q <==> i < CountBelow(s, q)
  {
    var k := |s| - 1;
    if i < k {
      CountSplits(s[..k], q, i);
      assert s[..k][i] == s[i] && AtMost(s[i], s[k]);
      if s[k].y < q {
        forall j | 0 <= j < k ensures s[j].y < q {
          assert AtMost(s[j], s[k]);
        }
        CountAll(s[..k], q);
      }
    } else if s[k].y < q {
      forall j | 0 <= j < k ensures s[j].y < q {
        assert AtMost(s[j], s[k]);
      }
      CountAll(s, q);
    } else {
      CountBound(s, q);
    }
  }

  lemma CountBound(s: seq<Coo>, q: int)
    requires s != [] && s[|s| - 1].y >= q
    ensures CountBelow(s, q) <= |s| - 1
  {
  }

  lemma {:induction false} CountMonotone(s: seq<Coo>, q: int, r: int)
    requires q <= r
    ensures CountBelow(s, q) <= CountBelow(s, r)
  {
    if s != [] {
      CountMonotone(s[..|s| - 1], q, r);
    }
  }

  /** Complete pointers represent the matrix: they rise from 0 to the number of entries, column q is the slice
      between pointers q and q + 1, and its rows ascend. */
  lemma ColumnsAreRight(s: seq<Coo>, p: seq<int>, n: nat, q: nat)
    requires Sorted(s) && InMatrix(s, n) && ColumnsAreComplete(s, p, n) && q < n
    ensures p[0] == 0 && p[n] == |s| && 0 <= p[q] <= p[q + 1] <= |s|
    ensures forall i :: 0 <= i < |s| ==> (s[i].y == q <==> p[q] <= i < p[q + 1])
    ensures forall i, j :: p[q] <= i < j < p[q + 1] ==> s[i].x <= s[j].x
  {
    CountAll(s, n);
    CountNone(s);
    CountMonotone(s, q, q + 1);
    forall i | 0 <= i < |s| ensures s[i].y == q <==> p[q] <= i < p[q + 1] {
      CountSplits(s, q, i);
      CountSplits(s, q + 1, i);
    }
    forall i, j | p[q] <= i < j < p[q + 1] ensures s[i].x <= s[j].x {
      assert AtMost(s[i], s[j]) && s[i].y == q && s[j].y == q;
    }
  }

  lemma {:induction false} CountNone(s: seq<Coo>)
    requires forall i :: 0 <= i < |s| ==> s[i].y >= 0
    ensures CountBelow(s, 0) == 0
  {
    if s != [] {
      CountNone(s[..|s| - 1]);
    }
  }

  /** The conversion writes all pointers, whatever the array held before, exactly when the last column of the
      matrix has an entry: the pointers of trailing empty columns are never written. */
  lemma CompleteIffLastColumn(s: seq<Coo>, n: nat)
    requires Sorted(s) && InMatrix(s, n)
    ensures (forall p: seq<int> :: |p| == n + 1 ==> ColumnsAreComplete(s, Pointers(s, p), n)) <==> LastColumn(s) == n - 1
  {
    if LastColumn(s) != n - 1 {
      var p := seq(n + 1, q => -1);
      assert Pointers(s, p)[n] == -1;
      assert !ColumnsAreComplete(s, Pointers(s, p), n);
    }
  }

  /** A two-column matrix with an empty second column: its last pointer keeps the old value. */
  lemma TrailingEmptyColumn()
    ensures var s, p := [Coo(0, 0, 1.0)], Pointers([Coo(0, 0, 1.0)], [7, 7, 7]);
            Sorted(s) && InMatrix(s, 2) && p == [0, 1, 7] && !ColumnsAreComplete(s, p, 2)
  {
    var s := [Coo(0, 0, 1.0)];
    assert s[..0] == [];
    assert CountBelow(s, 0) == 0 && CountBelow(s, 1) == 1 && CountBelow(s, 2) == 1;
  }

  // ---------------------------------------------------------------- the conversion

  ghost predicate PointersSoFar(s: seq<Coo>, i: int, j: int, p: seq<int>, before: seq<int>)
    requires 0 <= i <= |s| && |p| == |before|
  {
    forall q :: 0 <= q < |p| ==> p[q] == if q <= j then CountBelow(s, q) else before[q]
  }

  /** The copy-out loop on the sorted entries. */
  method CopyOut(s: seq<Coo>, n: nat, rowInd: array<int>, colPtr: array<int>, values: array<real>)
    requires Sorted(s) && InMatrix(s, n) && rowInd.Length == values.Length == |s| && colPtr.Length == n + 1
    requires rowInd != colPtr
    modifies rowInd, colPtr, values
    ensures forall i :: 0 <= i < |s| ==> rowInd[i] == s[i].x && values[i] == s[i].val
    ensures colPtr[..] == Pointers(s, old(colPtr[..]))
  {
    ghost var before := colPtr[..];
    var j := -1;
    for i := 0 to |s|
      invariant forall q :: 0 <= q < i ==> rowInd[q] == s[q].x && values[q] == s[q].val
      invariant j == LastColumn(s[..i]) && PointersSoFar(s, i, j, colPtr[..], before)
    {
      rowInd[i] := s[i].x;
      values[i] := s[i].val;
      ghost var from := j;
      while j < s[i].y
        invariant forall q :: 0 <= q <= i ==> rowInd[q] == s[q].x && values[q] == s[q].val
        invariant from <= j <= s[i].y && PointersSoFar(s, i, j, colPtr[..], before)
      {
        j := j + 1;
        CountHere(s, i, j);
        colPtr[j] := i;
      }
    }
    assert s[..|s|] == s;
    CountEnd(s);
    colPtr[j + 1] := |s|;
  }

  /** A column newly reached at entry i has exactly i entries before it. */
  lemma CountHere(s: seq<Coo>, i: int, j: int)
    requires Sorted(s) && 0 <= i < |s| && LastColumn(s[..i]) < j <= s[i].y
    ensures CountBelow(s, j) == i
  {
    CountSplits(s, j, i);
    if i > 0 {
      CountSplits(s, j, i - 1);
    }
  }

  lemma CountEnd(s: seq<Coo>)
    requires Sorted(s)
    ensures CountBelow(s, LastColumn(s) + 1) == |s|
  {
    if s != [] {
      forall k | 0 <= k < |s| ensures s[k].y < LastColumn(s) + 1 {
        assert k < |s| - 1 ==> AtMost(s[k], s[|s| - 1]);
      }
      CountAll(s, LastColumn(s) + 1);
    }
  }

  /** coo2csc */
  method Coo2Csc(n: nat, coo: seq<Coo>, rowInd: array<int>, colPtr: array<int>, values: array<real>) returns (s: seq<Coo>)
    requires InMatrix(coo, n) && rowInd.Length == values.Length == |coo| && colPtr.Length == n + 1 && rowInd != colPtr
    modifies rowInd, colPtr, values
    ensures Sorted(s) && multiset(s) == multiset(coo) && |s| == |coo|
    ensures forall i :: 0 <= i < |s| ==> rowInd[i] == s[i].x && values[i] == s[i].val
    ensures colPtr[..] == Pointers(s, old(colPtr[..]))
  {
    var sorted := Sort(coo);
    SortSorts(coo);
    SameLength(sorted, coo);
    forall i | 0 <= i < |sorted| ensures 0 <= sorted[i].y < n {
      assert sorted[i] in multiset(sorted);
    }
    CopyOut(sorted, n, rowInd, colPtr, values);
    s := sorted;
  }

  lemma SameLength(s: seq<Coo>, t: seq<Coo>)
    requires multiset(s) == multiset(t)
    ensures |s| == |t|
  {
    assert |multiset(s)| == |s| && |multiset(t)| == |t|;
  }

  // ---------------------------------------------------------------- no coordinates twice

  /** No two entries have the same coordinates. */
  ghost predicate DistinctCoordinates(s: seq<Coo>) {
    forall a, b :: 0 <= a < b < |s| ==> s[a].x != s[b].x || s[a].y != s[b].y
  }

  lemma {:induction false} AtMostOnce(s: seq<Coo>, e: Coo)
    requires DistinctCoordinates(s)
    ensures multiset(s)[e] <= 1
  {
    if s != [] {
      var k := |s| - 1;
      assert s == s[..k] + [s[k]];
      AtMostOnce(s[..k], e);
      if s[k] == e {
        assert forall i :: 0 <= i < k ==> s[..k][i] == s[i] != e;
        assert e !in s[..k];
      }
    }
  }

  lemma TwiceCounts(s: seq<Coo>, a: int, b: int)
    requires 0 <= a < b < |s| && s[a] == s[b]
    ensures multiset(s)[s[a]] >= 2
  {
    assert s == s[..b] + s[b..];
    assert s[..b][a] == s[a] && s[b..][0] == s[a];
  }

  /** Rearranging keeps coordinates distinct. */
  lemma RearrangedDistinct(s: seq<Coo>, t: seq<Coo>)
    requires multiset(s) == multiset(t) && DistinctCoordinates(t)
    ensures DistinctCoordinates(s)
  {
    forall a, b | 0 <= a < b < |s| ensures s[a].x != s[b].x || s[a].y != s[b].y {
      if s[a] == s[b] {
        TwiceCounts(s, a, b);
        AtMostOnce(t, s[a]);
      } else {
        assert s[a] in multiset(s) && s[a] in multiset(t) && s[b] in multiset(s) && s[b] in multiset(t);
        var i :| 0 <= i < |t| && t[i] == s[a];
        var j :| 0 <= j < |t| && t[j] == s[b];
        assert i != j;
      }
    }
  }

  /** With distinct coordinates the rows of a column ascend strictly. */
  lemma RowsAscend(s: seq<Coo>, p: seq<int>, n: nat, q: nat)
    requires Sorted(s) && InMatrix(s, n) && ColumnsAreComplete(s, p, n) && q < n && DistinctCoordinates(s)
    ensures 0 <= p[q] <= p[q + 1] <= |s|
    ensures forall i, j :: p[q] <= i < j < p[q + 1] ==> s[i].x < s[j].x
  {
    ColumnsAreRight(s, p, n, q);
    forall i, j | p[q] <= i < j < p[q + 1] ensures s[i].x < s[j].x {
      assert s[i].y == q && s[j].y == q;
    }
  }
}
