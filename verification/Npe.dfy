/** Normalized Polish expressions and the annealing moves on them (npe.c).

    An expression over n units is a postfix word of n unit numbers (>= 0) and n - 1 cuts (< 0).
    The object keeps four index arrays derived from the word; the moves change the word in place
    and patch or recompute the index arrays. */
module PolishExpression {
  const CUT_VERTICAL := -2
  const CUT_HORIZONTAL := -3
  const MAX_MOVES := 1024

  // ---------------------------------------------------------------- the words

  predicate IsCut(e: int) {
    e == CUT_VERTICAL || e == CUT_HORIZONTAL
  }

  /** Number of cuts among the first k elements. */
  function CutsIn(s: seq<int>, k: nat): (c: nat)
    requires k <= |s|
    ensures c <= k
  {
    if k == 0 then 0 else CutsIn(s, k - 1) + (if s[k - 1] < 0 then 1 else 0)
  }

  /** In every prefix the units outnumber the cuts. */
  ghost predicate Balloted(s: seq<int>) {
    forall k :: 1 <= k <= |s| ==> 2 * CutsIn(s, k) < k
  }

  ghost predicate NormalizedBetween(s: seq<int>, lo: int, hi: int) {
    forall i :: 0 <= lo <= i && i + 1 < hi <= |s| && s[i] < 0 && s[i + 1] < 0 ==> s[i] != s[i + 1]
  }

  /** No two adjacent cuts are equal. */
  ghost predicate Normalized(s: seq<int>) {
    NormalizedBetween(s, 0, |s|)
  }

  ghost predicate UnitsOnce(s: seq<int>, n: nat) {
    && (forall i, j :: 0 <= i < j < |s| && s[i] >= 0 ==> s[i] != s[j])
    && (forall i :: 0 <= i < |s| ==> s[i] < n)
    && (forall u :: 0 <= u < n ==> u in s)
  }

  /** A normalized Polish expression over the units 0 .. n-1. */
  ghost predicate IsExpression(s: seq<int>, n: nat) {
    && n >= 1
    && |s| == 2 * n - 1
    && CutsIn(s, |s|) == n - 1
    && (forall i :: 0 <= i < |s| && s[i] < 0 ==> IsCut(s[i]))
    && UnitsOnce(s, n)
    && Balloted(s)
    && Normalized(s)
  }

  // ---------------------------------------------------------------- the derived index sequences

  /** Positions below k holding a unit, in increasing order. */
  function UnitPositions(s: seq<int>, k: nat): (p: seq<int>)
    requires k <= |s|
    ensures |p| == k - CutsIn(s, k)
  {
    if k == 0 then [] else UnitPositions(s, k - 1) + (if s[k - 1] >= 0 then [k - 1] else [])
  }

  /** Positions i < k where a unit and a cut are adjacent at i, i + 1. */
  function FlipPositions(s: seq<int>, k: nat): (p: seq<int>)
    requires k == 0 || k < |s|
    ensures |p| <= k
  {
    if k == 0 then []
    else FlipPositions(s, k - 1) + (if (s[k - 1] < 0) != (s[k] < 0) then [k - 1] else [])
  }

  predicate StartsChain(s: seq<int>, i: int) {
    0 <= i < |s| && s[i] < 0 && (i > 0 ==> s[i - 1] >= 0)
  }

  /** Positions below k at which a maximal run of cuts starts. */
  function ChainPositions(s: seq<int>, k: nat): (p: seq<int>)
    requires k <= |s|
    ensures |p| <= CutsIn(s, k)
  {
    if k == 0 then []
    else ChainPositions(s, k - 1)
         + (if StartsChain(s, k - 1) then [k - 1] else [])
  }

  function BallotCounts(s: seq<int>): seq<int> {
    seq(|s|, i requires 0 <= i < |s| => CutsIn(s, i + 1))
  }

  ghost predicate IncreasingBelow(p: seq<int>, k: int) {
    && (forall m :: 0 <= m < |p| ==> 0 <= p[m] < k)
    && (forall m, m' :: 0 <= m < m' < |p| ==> p[m] < p[m'])
  }

  lemma ListOneMore(q: seq<int>, k: int, listed: bool)
    requires IncreasingBelow(q, k) && k >= 0
    ensures var p := q + if listed then [k] else [];
            && IncreasingBelow(p, k + 1)
            && forall i :: i in p <==> i in q || (listed && i == k)
  {
  }

  /** The three index sequences increase strictly and list exactly the positions they are named for. */
  lemma {:induction false} UnitPositionsExact(s: seq<int>, k: nat)
    requires k <= |s|
    ensures IncreasingBelow(UnitPositions(s, k), k)
    ensures forall i :: i in UnitPositions(s, k) <==> 0 <= i < k && s[i] >= 0
  {
    if k > 0 {
      UnitPositionsExact(s, k - 1);
      ListOneMore(UnitPositions(s, k - 1), k - 1, s[k - 1] >= 0);
    }
  }

  lemma {:induction false} FlipPositionsExact(s: seq<int>, k: nat)
    requires k == 0 || k < |s|
    ensures IncreasingBelow(FlipPositions(s, k), k)
    ensures forall i :: i in FlipPositions(s, k) <==> 0 <= i < k && (s[i] < 0) != (s[i + 1] < 0)
  {
    if k > 0 {
      FlipPositionsExact(s, k - 1);
      ListOneMore(FlipPositions(s, k - 1), k - 1, (s[k - 1] < 0) != (s[k] < 0));
    }
  }

  lemma {:induction false} ChainPositionsExact(s: seq<int>, k: nat)
    requires k <= |s|
    ensures IncreasingBelow(ChainPositions(s, k), k)
    ensures forall i :: i in ChainPositions(s, k) <==> i < k && StartsChain(s, i)
  {
    if k > 0 {
      ChainPositionsExact(s, k - 1);
      ListOneMore(ChainPositions(s, k - 1), k - 1, StartsChain(s, k - 1));
    }
  }

  /** Do s and t hold cuts at the same positions? */
  ghost predicate SameSigns(s: seq<int>, t: seq<int>) {
    |s| == |t| && forall i :: 0 <= i < |s| ==> (s[i] < 0 <==> t[i] < 0)
  }

  lemma {:induction false} SameSignsCuts(s: seq<int>, t: seq<int>, k: nat)
    requires SameSigns(s, t) && k <= |s|
    ensures CutsIn(s, k) == CutsIn(t, k)
  {
    if k > 0 {
      SameSignsCuts(s, t, k - 1);
    }
  }

  lemma SameSignsBalloted(s: seq<int>, t: seq<int>)
    requires SameSigns(s, t) && Balloted(s)
    ensures Balloted(t)
  {
    forall k | 1 <= k <= |t| ensures 2 * CutsIn(t, k) < k {
      SameSignsCuts(s, t, k);
    }
  }

  lemma {:induction false} SameSignsUnits(s: seq<int>, t: seq<int>, k: nat)
    requires SameSigns(s, t) && k <= |s|
    ensures UnitPositions(s, k) == UnitPositions(t, k)
  {
    if k > 0 {
      SameSignsUnits(s, t, k - 1);
    }
  }

  lemma {:induction false} SameSignsFlips(s: seq<int>, t: seq<int>, k: nat)
    requires SameSigns(s, t) && (k == 0 || k < |s|)
    ensures FlipPositions(s, k) == FlipPositions(t, k)
  {
    if k > 0 {
      SameSignsFlips(s, t, k - 1);
    }
  }

  lemma {:induction false} SameSignsChains(s: seq<int>, t: seq<int>, k: nat)
    requires SameSigns(s, t) && k <= |s|
    ensures ChainPositions(s, k) == ChainPositions(t, k)
  {
    if k > 0 {
      SameSignsChains(s, t, k - 1);
    }
  }

  /** The index sequences depend only on which positions hold cuts. */
  lemma SameSignsSameIndices(s: seq<int>, t: seq<int>)
    requires SameSigns(s, t) && |s| > 0
    ensures UnitPositions(s, |s|) == UnitPositions(t, |t|)
    ensures FlipPositions(s, |s| - 1) == FlipPositions(t, |t| - 1)
    ensures ChainPositions(s, |s|) == ChainPositions(t, |t|)
    ensures BallotCounts(s) == BallotCounts(t)
  {
    SameSignsUnits(s, t, |s|);
    SameSignsFlips(s, t, |s| - 1);
    SameSignsChains(s, t, |s|);
    forall i | 0 <= i < |s| ensures BallotCounts(s)[i] == BallotCounts(t)[i] {
      SameSignsCuts(s, t, i + 1);
    }
  }

  lemma {:induction false} SamePrefix(s: seq<int>, t: seq<int>, k: nat)
    requires k <= |s| && k <= |t| && s[..k] == t[..k]
    ensures CutsIn(s, k) == CutsIn(t, k)
    ensures UnitPositions(s, k) == UnitPositions(t, k)
  {
    if k > 0 {
      assert s[k - 1] == s[..k][k - 1] == t[k - 1];
      assert s[..k - 1] == s[..k][..k - 1] == t[..k - 1];
      SamePrefix(s, t, k - 1);
    }
  }

  lemma {:induction false} CutsInMonotone(s: seq<int>, j: nat, k: nat)
    requires j <= k <= |s|
    ensures CutsIn(s, j) <= CutsIn(s, k) <= CutsIn(s, j) + (k - j)
  {
    if j < k {
      CutsInMonotone(s, j, k - 1);
    }
  }

  // ---------------------------------------------------------------- the moves on words

  /** The first unit at or after position i, or |s| when there is none. */
  function NextUnit(s: seq<int>, i: nat): (r: nat)
    requires i <= |s|
    ensures i <= r <= |s|
    ensures r < |s| ==> s[r] >= 0
    ensures forall j :: i <= j < r ==> s[j] < 0
    decreases |s| - i
  {
    if i == |s| || s[i] >= 0 then i else NextUnit(s, i + 1)
  }

  /** Move M1: exchange the unit at pos with the next unit. */
  function SwapUnits(s: seq<int>, pos: nat): seq<int>
    requires pos < |s| && NextUnit(s, pos + 1) < |s|
  {
    var i := NextUnit(s, pos + 1);
    s[pos := s[i]][i := s[pos]]
  }

  function Opposite(e: int): int {
    if e == CUT_VERTICAL then CUT_HORIZONTAL else CUT_VERTICAL
  }

  /** Move M2: invert every cut from pos to the end of its run of cuts. */
  function InvertChain(s: seq<int>, pos: nat): seq<int>
    requires pos < |s|
  {
    var e := NextUnit(s, pos);
    seq(|s|, i requires 0 <= i < |s| => if pos <= i < e then Opposite(s[i]) else s[i])
  }

  /** Is exchanging the unit/cut pair at pos, pos + 1 allowed? */
  predicate SwapAllowed(s: seq<int>, pos: nat)
    requires 0 < pos < |s| - 1
  {
    if s[pos] >= 0 then
      s[pos - 1] != s[pos + 1] && 2 * CutsIn(s, pos + 2) < pos + 1
    else
      pos >= |s| - 2 || s[pos] != s[pos + 2]
  }

  /** Move M3: exchange the elements at pos, pos + 1. */
  function SwapAt(s: seq<int>, pos: nat): seq<int>
    requires pos + 1 < |s|
  {
    s[pos := s[pos + 1]][pos + 1 := s[pos]]
  }

  lemma ExchangeKeepsUnits(s: seq<int>, t: seq<int>, n: nat, i: nat, j: nat)
    requires i < j < |s| && UnitsOnce(s, n)
    requires t == s[i := s[j]][j := s[i]]
    ensures UnitsOnce(t, n)
  {
    forall u | 0 <= u < n ensures u in t {
      assert u in s;
      var k :| 0 <= k < |s| && s[k] == u;
      assert t[if k == i then j else if k == j then i else k] == u;
    }
    forall a, b | 0 <= a < b < |t| && t[a] >= 0 ensures t[a] != t[b] {
      var a' := if a == i then j else if a == j then i else a;
      var b' := if b == i then j else if b == j then i else b;
      assert t[a] == s[a'] && t[b] == s[b'] && a' != b';
    }
  }

  /** Exchanging two units keeps the expression. */
  lemma ExchangeKeepsExpression(s: seq<int>, t: seq<int>, n: nat, i: nat, j: nat)
    requires IsExpression(s, n) && i < j < |s| && s[i] >= 0 && s[j] >= 0
    requires t == s[i := s[j]][j := s[i]]
    ensures IsExpression(t, n)
  {
    hide UnitsOnce;
    hide Balloted;
    hide CutsIn;
    hide IsCut;
    ExchangeKeepsUnits(s, t, n, i, j);
    assert SameSigns(s, t);
    SameSignsCuts(s, t, |s|);
    SameSignsBalloted(s, t);
    assert forall k :: 0 <= k < |s| && t[k] < 0 ==> t[k] == s[k];
  }

  lemma SwapUnitsKeepsExpression(s: seq<int>, n: nat, pos: nat)
    requires IsExpression(s, n) && pos < |s| && s[pos] >= 0 && NextUnit(s, pos + 1) < |s|
    ensures IsExpression(SwapUnits(s, pos), n)
  {
    hide IsExpression;
    hide NextUnit;
    ExchangeKeepsExpression(s, SwapUnits(s, pos), n, pos, NextUnit(s, pos + 1));
  }

  lemma InvertKeepsUnits(s: seq<int>, n: nat, pos: nat)
    requires UnitsOnce(s, n) && StartsChain(s, pos)
    ensures UnitsOnce(InvertChain(s, pos), n)
  {
    var t := InvertChain(s, pos);
    forall u | 0 <= u < n ensures u in t {
      assert u in s;
      var k :| 0 <= k < |s| && s[k] == u;
      assert t[k] == u;
    }
  }

  lemma InvertKeepsNormalized(s: seq<int>, pos: nat)
    requires Normalized(s) && StartsChain(s, pos) && forall i :: 0 <= i < |s| && s[i] < 0 ==> IsCut(s[i])
    ensures Normalized(InvertChain(s, pos))
  {
    var t := InvertChain(s, pos);
    var e := NextUnit(s, pos);
    forall i | 0 <= i && i + 1 < |t| && t[i] < 0 && t[i + 1] < 0 ensures t[i] != t[i + 1] {
      assert s[i] < 0 && s[i + 1] < 0 && s[i] != s[i + 1];
      assert pos <= i < e <==> pos <= i + 1 < e;
      assert IsCut(s[i]) && IsCut(s[i + 1]);
    }
  }

  lemma InvertChainKeepsExpression(s: seq<int>, n: nat, pos: nat)
    requires IsExpression(s, n) && StartsChain(s, pos)
    ensures IsExpression(InvertChain(s, pos), n)
  {
    hide UnitsOnce;
    hide Balloted;
    hide Normalized;
    hide CutsIn;
    hide NextUnit;
    var t := InvertChain(s, pos);
    assert SameSigns(s, t);
    SameSignsCuts(s, t, |s|);
    SameSignsBalloted(s, t);
    InvertKeepsUnits(s, n, pos);
    InvertKeepsNormalized(s, pos);
  }

  /** Inverting only the rear of a run of cuts leaves two equal cuts where it begins. */
  lemma InvertRearBreaksExpression(s: seq<int>, n: nat, pos: nat)
    requires IsExpression(s, n) && pos < |s| && s[pos] < 0 && !StartsChain(s, pos)
    ensures !IsExpression(InvertChain(s, pos), n)
  {
    hide CutsIn;
    hide UnitsOnce;
    hide Balloted;
    var t := InvertChain(s, pos);
    assert s[pos - 1] < 0 && s[pos - 1 + 1] < 0 && s[pos - 1] != s[pos];
    assert IsCut(s[pos - 1]) && IsCut(s[pos]);
    assert t[pos - 1] == t[pos - 1 + 1] == s[pos - 1];
  }

  /** Exchanging a unit/cut pair moves one cut across one prefix boundary only. */
  lemma {:induction false} SwapAtCuts(s: seq<int>, pos: nat, k: nat)
    requires pos + 1 < |s| && k <= |s|
    requires (s[pos] < 0) != (s[pos + 1] < 0)
    ensures CutsIn(SwapAt(s, pos), k)
         == CutsIn(s, k) + (if k != pos + 1 then 0 else if s[pos] >= 0 then 1 else -1)
  {
    if k > 0 {
      SwapAtCuts(s, pos, k - 1);
    }
  }

  lemma SwapKeepsBalloted(s: seq<int>, pos: nat)
    requires Balloted(s) && 0 < pos < |s| - 1
    requires (s[pos] < 0) != (s[pos + 1] < 0)
    requires SwapAllowed(s, pos)
    ensures Balloted(SwapAt(s, pos))
  {
    hide CutsIn;
    var t := SwapAt(s, pos);
    CutsInMonotone(s, pos + 1, pos + 2);
    CutAt(s, pos + 1);
    forall k | 1 <= k <= |t| ensures 2 * CutsIn(t, k) < k {
      SwapAtCuts(s, pos, k);
    }
  }

  lemma CutAt(s: seq<int>, k: nat)
    requires k < |s|
    ensures CutsIn(s, k + 1) == CutsIn(s, k) + (if s[k] < 0 then 1 else 0)
  {
  }

  lemma SwapKeepsNormalized(s: seq<int>, pos: nat)
    requires Normalized(s) && 0 < pos < |s| - 1
    requires (s[pos] < 0) != (s[pos + 1] < 0)
    requires SwapAllowed(s, pos)
    ensures Normalized(SwapAt(s, pos))
  {
    hide CutsIn;
    var t := SwapAt(s, pos);
    forall i | 0 <= i && i + 1 < |t| && t[i] < 0 && t[i + 1] < 0 ensures t[i] != t[i + 1] {
      if i != pos - 1 && i != pos + 1 {
        assert t[i] == s[i] && t[i + 1] == s[i + 1];
      }
    }
  }

  /** An allowed M3 keeps the expression; so the two rejection tests are sufficient ... */
  lemma SwapAtKeepsExpression(s: seq<int>, n: nat, pos: nat)
    requires IsExpression(s, n) && 0 < pos < |s| - 1
    requires (s[pos] < 0) != (s[pos + 1] < 0)
    requires SwapAllowed(s, pos)
    ensures IsExpression(SwapAt(s, pos), n)
  {
    hide CutsIn;
    hide UnitsOnce;
    hide Balloted;
    hide Normalized;
    hide SwapAllowed;
    ExchangeKeepsUnits(s, SwapAt(s, pos), n, pos, pos + 1);
    SwapAtCuts(s, pos, |s|);
    SwapKeepsBalloted(s, pos);
    SwapKeepsNormalized(s, pos);
  }

  /** ... and they are necessary: a rejected exchange would leave the set of expressions. */
  lemma RejectedSwapLeavesExpressions(s: seq<int>, n: nat, pos: nat)
    requires IsExpression(s, n) && 0 < pos < |s| - 1
    requires (s[pos] < 0) != (s[pos + 1] < 0)
    ensures SwapAllowed(s, pos) <==> IsExpression(SwapAt(s, pos), n)
  {
    var t := SwapAt(s, pos);
    if SwapAllowed(s, pos) {
      SwapAtKeepsExpression(s, n, pos);
    } else {
      SwapAtCuts(s, pos, pos + 1);
      assert CutsIn(s, pos + 2) == CutsIn(s, pos + 1) + (if s[pos + 1] < 0 then 1 else 0);
      if s[pos] < 0 {
        assert t[pos + 1] == t[pos + 2] == s[pos];
      } else if s[pos - 1] == s[pos + 1] {
        assert t[pos - 1] == t[pos - 1 + 1] == s[pos + 1];
      } else {
        assert 2 * CutsIn(t, pos + 1) >= pos + 1;
      }
    }
  }

  lemma UnitPositionsStep(s: seq<int>, k: nat)
    requires k < |s|
    ensures UnitPositions(s, k + 1) == UnitPositions(s, k) + (if s[k] >= 0 then [k] else [])
  {
  }

  lemma {:induction false} SwapAtUnitPositions(s: seq<int>, pos: nat, k: nat)
    requires pos + 2 <= k <= |s|
    requires (s[pos] < 0) != (s[pos + 1] < 0)
    ensures var m := |UnitPositions(s, pos)|;
            && m < |UnitPositions(s, k)|
            && UnitPositions(s, k)[m] == (if s[pos] >= 0 then pos else pos + 1)
            && UnitPositions(SwapAt(s, pos), k)
               == UnitPositions(s, k)[m := if s[pos] >= 0 then pos + 1 else pos]
  {
    hide UnitPositions;
    hide CutsIn;
    var t := SwapAt(s, pos);
    UnitPositionsStep(s, k - 1);
    UnitPositionsStep(t, k - 1);
    if k == pos + 2 {
      SamePrefix(s, t, pos);
      UnitPositionsStep(s, pos);
      UnitPositionsStep(t, pos);
    } else {
      SwapAtUnitPositions(s, pos, k - 1);
    }
  }

  /** The starting expression 0, 1, V, 2, V, ..., n-1, V. */
  function Initial(n: nat): seq<int>
    requires n >= 1
  {
    seq(2 * n - 1, i => if i == 0 then 0 else if i % 2 == 1 then (i + 1) / 2 else CUT_VERTICAL)
  }

  lemma {:induction false} InitialCuts(n: nat, k: nat)
    requires n >= 1 && k <= 2 * n - 1
    ensures CutsIn(Initial(n), k) == (if k == 0 then 0 else (k - 1) / 2)
  {
    if k > 0 {
      InitialCuts(n, k - 1);
    }
  }

  lemma InitialIsExpression(n: nat)
    requires n >= 1
    ensures IsExpression(Initial(n), n)
  {
    var s := Initial(n);
    InitialCuts(n, |s|);
    forall k | 1 <= k <= |s| ensures 2 * CutsIn(s, k) < k {
      InitialCuts(n, k);
    }
    forall u | 0 <= u < n ensures u in s {
      assert s[if u == 0 then 0 else 2 * u - 1] == u;
    }
  }

  // ---------------------------------------------------------------- runs of moves

  /** One move of the annealer, as a relation on words. */
  ghost predicate Move(s: seq<int>, t: seq<int>) {
    || (exists pos: nat :: pos < |s| && s[pos] >= 0 && NextUnit(s, pos + 1) < |s| && t == SwapUnits(s, pos))
    || (exists pos: nat :: StartsChain(s, pos) && t == InvertChain(s, pos))
    || (exists pos: nat :: 0 < pos < |s| - 1 && (s[pos] < 0) != (s[pos + 1] < 0)
                        && SwapAllowed(s, pos) && t == SwapAt(s, pos))
  }

  lemma MoveKeepsExpression(s: seq<int>, t: seq<int>, n: nat)
    requires IsExpression(s, n) && Move(s, t)
    ensures IsExpression(t, n)
  {
    if pos: nat :| pos < |s| && s[pos] >= 0 && NextUnit(s, pos + 1) < |s| && t == SwapUnits(s, pos) {
      SwapUnitsKeepsExpression(s, n, pos);
    } else if pos: nat :| StartsChain(s, pos) && t == InvertChain(s, pos) {
      InvertChainKeepsExpression(s, n, pos);
    } else {
      var pos: nat :| 0 < pos < |s| - 1 && (s[pos] < 0) != (s[pos + 1] < 0)
                      && SwapAllowed(s, pos) && t == SwapAt(s, pos);
      SwapAtKeepsExpression(s, n, pos);
    }
  }

  ghost predicate IsRun(run: seq<seq<int>>, n: nat)
    requires n >= 1
  {
    && |run| > 0
    && run[0] == Initial(n)
    && forall i :: 0 <= i < |run| - 1 ==> Move(run[i], run[i + 1])
  }

  /** Every word of every run from the initial expression is a normalized Polish expression. */
  lemma {:induction false} RunsKeepExpressions(run: seq<seq<int>>, n: nat, i: nat)
    requires n >= 1 && IsRun(run, n) && i < |run|
    ensures IsExpression(run[i], n)
  {
    if i == 0 {
      InitialIsExpression(n);
    } else {
      RunsKeepExpressions(run, n, i - 1);
      assert Move(run[i - 1], run[i - 1 + 1]);
      MoveKeepsExpression(run[i - 1], run[i], n);
    }
  }
}
