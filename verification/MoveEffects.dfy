/** What the moves on Polish expressions do, said of the cuts and of the order of the units, and which orders of the
    units they reach (npe.c). */
module MoveEffects {
  import opened PolishExpression

  // ---------------------------------------------------------------- cuts and units apart

  /** The cuts are the same, at the same places. */
  ghost predicate SameCuts(s: seq<int>, t: seq<int>) {
    |s| == |t| && forall i :: 0 <= i < |s| && (s[i] < 0 || t[i] < 0) ==> s[i] == t[i]
  }

  /** The units among the first k elements, in order. */
  function UnitsUpTo(s: seq<int>, k: nat): (u: seq<int>)
    requires k <= |s|
    ensures |u| == |UnitPositions(s, k)|
  {
    if k == 0 then [] else UnitsUpTo(s, k - 1) + (if s[k - 1] >= 0 then [s[k - 1]] else [])
  }

  function UnitsOf(s: seq<int>): seq<int> {
    UnitsUpTo(s, |s|)
  }

  /** Unit m stands at the m-th unit position. */
  lemma {:induction false} UnitsAtPositions(s: seq<int>, k: nat, m: nat)
    requires k <= |s| && m < |UnitPositions(s, k)|
    ensures 0 <= UnitPositions(s, k)[m] < k && UnitsUpTo(s, k)[m] == s[UnitPositions(s, k)[m]]
  {
    if m < |UnitPositions(s, k - 1)| {
      UnitsAtPositions(s, k - 1, m);
    }
  }

  lemma {:induction false} LaterUnits(s: seq<int>, j: nat, k: nat)
    requires j <= k <= |s|
    ensures UnitPositions(s, j) <= UnitPositions(s, k) && UnitsUpTo(s, j) <= UnitsUpTo(s, k)
  {
    if j < k {
      LaterUnits(s, j, k - 1);
    }
  }

  lemma {:induction false} NoUnitsBetween(s: seq<int>, j: nat, k: nat)
    requires j <= k <= |s| && forall i :: j <= i < k ==> s[i] < 0
    ensures UnitPositions(s, j) == UnitPositions(s, k) && UnitsUpTo(s, j) == UnitsUpTo(s, k)
  {
    if j < k {
      NoUnitsBetween(s, j, k - 1);
    }
  }

  lemma {:induction false} SameCutsSamePositions(s: seq<int>, t: seq<int>, k: nat)
    requires SameCuts(s, t) && k <= |s|
    ensures UnitPositions(s, k) == UnitPositions(t, k)
  {
    if k > 0 {
      SameCutsSamePositions(s, t, k - 1);
    }
  }

  // ---------------------------------------------------------------- M1

  /** Elements m and m + 1 have changed places. */
  function Transposed(u: seq<int>, m: int): seq<int>
    requires 0 <= m && m + 1 < |u|
  {
    u[..m] + [u[m + 1], u[m]] + u[m + 2..]
  }

  /** The unit at pos and the one after it have changed places in the order of units; no cut has moved. */
  ghost predicate UnitsExchanged(s: seq<int>, t: seq<int>, pos: int) {
    && SameCuts(s, t)
    && exists m :: 0 <= m && m + 1 < |UnitsOf(s)| && UnitPositions(s, |s|)[m] == pos && UnitsOf(t) == Transposed(UnitsOf(s), m)
  }

  /** The units up to a position behind the exchange. */
  lemma {:induction false} ExchangedPrefix(s: seq<int>, t: seq<int>, pos: nat, i: nat, k: nat)
    requires pos < i < k <= |s| && t == s[pos := s[i]][i := s[pos]] && s[pos] >= 0 && s[i] >= 0
    requires forall j :: pos < j < i ==> s[j] < 0
    ensures var m := |UnitsUpTo(s, pos)|;
            m + 1 < |UnitsUpTo(s, k)| && UnitPositions(s, k)[m] == pos && UnitsUpTo(t, k) == Transposed(UnitsUpTo(s, k), m)
  {
    hide UnitsUpTo;
    hide UnitPositions;
    var m := |UnitsUpTo(s, pos)|;
    UnitsStep(s, k - 1);
    UnitsStep(t, k - 1);
    if k == i + 1 {
      UnitsStep(s, pos);
      UnitsStep(t, pos);
      NoUnitsBetween(s, pos + 1, i);
      NoUnitsBetween(t, pos + 1, i);
      SameUnits(s, t, pos);
    } else {
      ExchangedPrefix(s, t, pos, i, k - 1);
    }
  }

  lemma UnitsStep(s: seq<int>, k: nat)
    requires k < |s|
    ensures UnitsUpTo(s, k + 1) == UnitsUpTo(s, k) + (if s[k] >= 0 then [s[k]] else [])
    ensures UnitPositions(s, k + 1) == UnitPositions(s, k) + (if s[k] >= 0 then [k] else [])
  {
  }

  lemma {:induction false} SameUnits(s: seq<int>, t: seq<int>, k: nat)
    requires k <= |s| == |t| && forall i :: 0 <= i < k ==> s[i] == t[i]
    ensures UnitsUpTo(s, k) == UnitsUpTo(t, k) && UnitPositions(s, k) == UnitPositions(t, k)
  {
    if k > 0 {
      SameUnits(s, t, k - 1);
    }
  }

  /** M1 exchanges neighbours in the order of units and leaves every cut where it is. */
  lemma SwapUnitsExchanges(s: seq<int>, pos: nat)
    requires pos < |s| && s[pos] >= 0 && NextUnit(s, pos + 1) < |s|
    ensures UnitsExchanged(s, SwapUnits(s, pos), pos)
  {
    hide UnitsUpTo;
    hide UnitPositions;
    hide NextUnit;
    var i := NextUnit(s, pos + 1);
    ExchangedPrefix(s, SwapUnits(s, pos), pos, i, |s|);
  }

  /** From unit position m the next unit is at position m + 1 of the index, and the exchange is of m and m + 1. */
  lemma SwapUnitsAt(s: seq<int>, m: nat)
    requires m + 1 < |UnitPositions(s, |s|)|
    ensures var pos := UnitPositions(s, |s|)[m];
            && 0 <= pos < |s| && s[pos] >= 0 && NextUnit(s, pos + 1) < |s|
            && SameCuts(s, SwapUnits(s, pos)) && UnitsOf(SwapUnits(s, pos)) == Transposed(UnitsOf(s), m)
  {
    hide UnitPositions;
    hide NextUnit;
    hide UnitsUpTo;
    UnitPositionsExact(s, |s|);
    var p := UnitPositions(s, |s|);
    assert p[m] in p && p[m + 1] in p;
    assert s[p[m + 1]] >= 0;
    SwapUnitsExchanges(s, p[m]);
    var q :| 0 <= q && q + 1 < |UnitsOf(s)| && p[q] == p[m] && UnitsOf(SwapUnits(s, p[m])) == Transposed(UnitsOf(s), q);
    assert q == m;
  }

  // ---------------------------------------------------------------- M1 reaches every order

  ghost predicate IsM1(s: seq<int>, t: seq<int>) {
    exists pos: nat :: pos < |s| && s[pos] >= 0 && NextUnit(s, pos + 1) < |s| && t == SwapUnits(s, pos)
  }

  ghost predicate M1Run(run: seq<seq<int>>, s: seq<int>, t: seq<int>) {
    && |run| > 0 && run[0] == s && run[|run| - 1] == t
    && forall i :: 0 <= i < |run| - 1 ==> IsM1(run[i], run[i + 1])
  }

  lemma M1Prepend(run: seq<seq<int>>, s: seq<int>, s': seq<int>, t: seq<int>)
    requires M1Run(run, s', t) && IsM1(s, s')
    ensures M1Run([s] + run, s, t)
  {
    hide IsM1;
    var longer := [s] + run;
    forall i | 0 <= i < |longer| - 1 ensures IsM1(longer[i], longer[i + 1]) {
      if i > 0 {
        assert longer[i] == run[i - 1] && longer[i + 1] == run[i - 1 + 1];
      }
    }
  }

  /** Words with the same cuts and the same order of units are equal. */
  lemma SameUnitsSameWord(s: seq<int>, t: seq<int>)
    requires SameCuts(s, t) && UnitsOf(s) == UnitsOf(t)
    ensures s == t
  {
    hide UnitPositions;
    hide UnitsUpTo;
    SameCutsSamePositions(s, t, |s|);
    UnitPositionsExact(s, |s|);
    var p := UnitPositions(s, |s|);
    forall i | 0 <= i < |s| ensures s[i] == t[i] {
      if s[i] >= 0 {
        assert i in p;
        var m :| 0 <= m < |p| && p[m] == i;
        UnitsAtPositions(s, |s|, m);
        UnitsAtPositions(t, |s|, m);
      }
    }
  }

  lemma SameUnitsEverywhere(s: seq<int>, n: nat)
    requires UnitsOnce(s, n)
    ensures forall u :: u in UnitsOf(s) <==> 0 <= u < n
    ensures forall i, j :: 0 <= i < j < |UnitsOf(s)| ==> UnitsOf(s)[i] != UnitsOf(s)[j]
  {
    hide UnitPositions;
    hide UnitsUpTo;
    UnitPositionsExact(s, |s|);
    var p, us := UnitPositions(s, |s|), UnitsOf(s);
    forall m | 0 <= m < |us| ensures 0 <= p[m] < |s| && us[m] == s[p[m]] && s[p[m]] >= 0 {
      UnitsAtPositions(s, |s|, m);
      assert p[m] in p;
    }
    forall u ensures u in us <==> 0 <= u < n {
      if 0 <= u < n {
        assert u in s;
        var i :| 0 <= i < |s| && s[i] == u;
        assert i in p;
        var m :| 0 <= m < |p| && p[m] == i;
        assert us[m] == u;
      }
    }
  }

  /** With the first k units in place, bring the next one forward step by step. */
  lemma {:induction false} Reorder(s: seq<int>, t: seq<int>, n: nat, k: nat, j: nat) returns (run: seq<seq<int>>)
    requires IsExpression(s, n) && IsExpression(t, n) && SameCuts(s, t)
    requires k <= |UnitsOf(s)| == |UnitsOf(t)| && UnitsOf(s)[..k] == UnitsOf(t)[..k]
    requires k < |UnitsOf(s)| ==> k <= j < |UnitsOf(s)| && UnitsOf(s)[j] == UnitsOf(t)[k]
    ensures M1Run(run, s, t)
    decreases |UnitsOf(s)| - k, j
  {
    hide IsExpression;
    hide UnitsUpTo;
    hide UnitPositions;
    hide SameCuts;
    hide M1Run;
    hide SwapUnits;
    hide NextUnit;
    var us, ws := UnitsOf(s), UnitsOf(t);
    if k == |us| {
      assert us == us[..k] && ws == ws[..k];
      SameUnitsSameWord(s, t);
      run := [s];
      TrivialRun(s);
    } else if j == k {
      assert us[..k + 1] == us[..k] + [us[k]] && ws[..k + 1] == ws[..k] + [ws[k]];
      var j' := FindUnit(s, t, n, k + 1);
      run := Reorder(s, t, n, k + 1, j');
    } else {
      SwapUnitsAt(s, j - 1);
      var pos := UnitPositions(s, |s|)[j - 1];
      var s' := SwapUnits(s, pos);
      SwapUnitsKeepsExpression(s, n, pos);
      CutsTransitive(s, s', t);
      assert UnitsOf(s')[..k] == us[..k] && UnitsOf(s')[j - 1] == us[j];
      run := Reorder(s', t, n, k, j - 1);
      M1Prepend(run, s, s', t);
      run := [s] + run;
    }
  }

  lemma TrivialRun(s: seq<int>)
    ensures M1Run([s], s, s)
  {
  }

  lemma CutsTransitive(s: seq<int>, s': seq<int>, t: seq<int>)
    requires SameCuts(s, s') && SameCuts(s, t)
    ensures SameCuts(s', t)
  {
  }

  /** Where the unit that belongs at place k stands. */
  lemma FindUnit(s: seq<int>, t: seq<int>, n: nat, k: nat) returns (j: nat)
    requires IsExpression(s, n) && IsExpression(t, n) && |UnitsOf(s)| == |UnitsOf(t)| && k <= |UnitsOf(s)|
    requires UnitsOf(s)[..k] == UnitsOf(t)[..k]
    ensures k < |UnitsOf(s)| ==> k <= j < |UnitsOf(s)| && UnitsOf(s)[j] == UnitsOf(t)[k]
  {
    hide UnitsUpTo;
    var us, ws := UnitsOf(s), UnitsOf(t);
    SameUnitsEverywhere(s, n);
    SameUnitsEverywhere(t, n);
    j := 0;
    forall m | 0 <= m < k ensures us[m] == ws[m] {
      assert us[..k][m] == ws[..k][m];
    }
    if k < |us| {
      var u := ws[k];
      assert u in UnitsOf(t);
      assert 0 <= u < n;
      assert u in UnitsOf(s);
      var i :| 0 <= i < |us| && us[i] == u;
      j := i;
    }
  }

  /** Every order of the units is reached by M1 moves alone, the cuts staying where they are. */
  lemma EveryOrderIsReached(s: seq<int>, t: seq<int>, n: nat) returns (run: seq<seq<int>>)
    requires IsExpression(s, n) && IsExpression(t, n) && SameCuts(s, t)
    ensures M1Run(run, s, t)
  {
    hide UnitsUpTo;
    hide UnitPositions;
    hide IsExpression;
    SameCutsSamePositions(s, t, |s|);
    assert |UnitsOf(s)| == |UnitPositions(s, |s|)| && |UnitsOf(t)| == |UnitPositions(t, |t|)|;
    var j := FindUnit(s, t, n, 0);
    run := Reorder(s, t, n, 0, j);
  }

  // ---------------------------------------------------------------- M2

  /** From pos to the end e of its run every cut has become one of the other kind; nothing else has changed. */
  ghost predicate RunInverted(s: seq<int>, t: seq<int>, pos: int) {
    && |s| == |t|
    && exists e :: InvertedUntil(s, t, pos, e)
  }

  ghost predicate InvertedUntil(s: seq<int>, t: seq<int>, pos: int, e: int)
    requires |s| == |t|
  {
    && 0 <= pos < e <= |s| && (e == |s| || s[e] >= 0)
    && (forall i :: pos <= i < e ==> s[i] < 0 && IsCut(t[i]) && t[i] != s[i])
    && (forall i :: 0 <= i < |s| && !(pos <= i < e) ==> t[i] == s[i])
  }

  lemma InvertChainInverts(s: seq<int>, pos: nat)
    requires pos < |s| && s[pos] < 0 && forall i :: 0 <= i < |s| && s[i] < 0 ==> IsCut(s[i])
    ensures RunInverted(s, InvertChain(s, pos), pos)
  {
    var e := NextUnit(s, pos);
    var t := InvertChain(s, pos);
    assert forall i :: pos <= i < e ==> s[i] < 0 && IsCut(s[i]) && t[i] == Opposite(s[i]);
    assert InvertedUntil(s, t, pos, e);
  }

  /** Applied twice at the same place, M2 restores the word. */
  lemma InvertTwice(s: seq<int>, pos: nat)
    requires pos < |s| && forall i :: 0 <= i < |s| && s[i] < 0 ==> IsCut(s[i])
    ensures InvertChain(InvertChain(s, pos), pos) == s
  {
    var t := InvertChain(s, pos);
    SameSignsNextUnit(s, t, pos);
    forall i | 0 <= i < |s| ensures InvertChain(t, pos)[i] == s[i] {
      assert s[i] < 0 ==> IsCut(s[i]);
    }
  }

  lemma {:induction false} SameSignsNextUnit(s: seq<int>, t: seq<int>, i: nat)
    requires SameSigns(s, t) && i <= |s|
    ensures NextUnit(s, i) == NextUnit(t, i)
    decreases |s| - i
  {
    if i < |s| {
      SameSignsNextUnit(s, t, i + 1);
    }
  }

  // ---------------------------------------------------------------- M3

  /** The elements at pos and pos + 1 have changed places. */
  ghost predicate NeighboursExchanged(s: seq<int>, t: seq<int>, pos: int) {
    && |s| == |t| && 0 <= pos && pos + 1 < |s| && t[pos] == s[pos + 1] && t[pos + 1] == s[pos]
    && forall i :: 0 <= i < |s| && i != pos && i != pos + 1 ==> t[i] == s[i]
  }

  // ---------------------------------------------------------------- the start

  /** The annealing starts with all units in order, each cut directly after its second operand, all cuts vertical:
      one row of blocks. */
  lemma InitialIsRow(n: nat)
    requires n >= 1
    ensures |UnitsOf(Initial(n))| == n && forall u :: 0 <= u < n ==> UnitsOf(Initial(n))[u] == u
    ensures forall i :: 0 <= i < |Initial(n)| && Initial(n)[i] < 0 ==> Initial(n)[i] == CUT_VERTICAL && i >= 2 && i % 2 == 0
  {
    hide UnitPositions;
    var s := Initial(n);
    InitialPrefix(n, |s|);
  }

  lemma {:induction false} InitialPrefix(n: nat, k: nat)
    requires n >= 1 && k <= |Initial(n)|
    ensures var us := UnitsUpTo(Initial(n), k);
            |us| == (if k == 0 then 0 else k / 2 + 1) && forall u :: 0 <= u < |us| ==> us[u] == u
  {
    hide UnitPositions;
    if k > 0 {
      InitialPrefix(n, k - 1);
    }
  }
}
