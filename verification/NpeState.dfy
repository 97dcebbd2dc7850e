/** The annealer's expression object: the word together with its four index arrays, updated in
    place by the moves (npe.c, NPE_t). */
module PolishExpressionState {
  import opened PolishExpression
  import opened MoveEffects

  lemma ExpressionCounts(s: seq<int>, n: nat)
    requires IsExpression(s, n)
    ensures n >= 1 && |s| == 2 * n - 1 && CutsIn(s, |s|) == n - 1
    ensures Normalized(s)
    ensures forall i :: 0 <= i < |s| && s[i] < 0 ==> IsCut(s[i])
  {
  }

  lemma ChainStep(s: seq<int>, i: nat)
    requires i < |s|
    ensures ChainPositions(s, i + 1) == ChainPositions(s, i) + (if StartsChain(s, i) then [i] else [])
    ensures ChainPositions(s, 0) == []
    ensures |ChainPositions(s, i + 1)| <= CutsIn(s, |s|)
  {
    CutsInMonotone(s, i + 1, |s|);
  }

  /** A whole run of cuts contributes its first position only. */
  lemma {:induction false} ChainRun(s: seq<int>, i: nat, j: nat)
    requires StartsChain(s, i) && i < j <= NextUnit(s, i)
    ensures ChainPositions(s, j) == ChainPositions(s, i) + [i]
    ensures |ChainPositions(s, j)| <= CutsIn(s, |s|)
  {
    ChainStep(s, j - 1);
    if i + 1 < j {
      ChainRun(s, i, j - 1);
    }
  }

  /** A prefix ending at a boundary of runs, and the run after it, are checked separately. */
  lemma NormalizedJoin(s: seq<int>, i: nat, j: nat)
    requires i < j <= |s| && (0 < i ==> s[i - 1] >= 0 || s[i] >= 0)
    ensures NormalizedBetween(s, 0, j) <==> NormalizedBetween(s, 0, i) && NormalizedBetween(s, i, j)
    ensures !NormalizedBetween(s, i, j) ==> !Normalized(s)
    ensures s[i] >= 0 && j == i + 1 ==> NormalizedBetween(s, i, j)
    ensures NormalizedBetween(s, 0, 0)
  {
  }

  /** The four index sequences are the ones recomputed from the word s. */
  ghost predicate IndexedBy(s: seq<int>, units: seq<int>, flips: seq<int>, chains: seq<int>, ballots: seq<int>)
    requires |s| >= 1
  {
    && units == UnitPositions(s, |s|)
    && flips == FlipPositions(s, |s| - 1)
    && chains == ChainPositions(s, |s|)
    && ballots == BallotCounts(s)
  }

  /** Moves that leave the cuts' positions alone leave every index sequence right. */
  lemma SameSignsIndexedBy(s: seq<int>, t: seq<int>, units: seq<int>, flips: seq<int>, chains: seq<int>,
                           ballots: seq<int>)
    requires SameSigns(s, t) && |s| > 0 && IndexedBy(s, units, flips, chains, ballots)
    ensures IndexedBy(t, units, flips, chains, ballots)
  {
    SameSignsSameIndices(s, t);
  }

  datatype SwapOutcome = Swapped | Refused | Fatal

  /** The numbers rand_upto draws from, one after another. */
  type Draws = nat -> nat

  /** The k-th draw, below the bound. */
  function Drawn(draw: Draws, k: nat, max: int): (r: int)
    requires max > 0
    ensures 0 <= r < max
  {
    draw(k) % max
  }

  class NPE {
    var elements: array<int>
    var size: int
    var unitPos: array<int>
    var nUnits: int
    var flipPos: array<int>
    var nFlips: int
    var chainPos: array<int>
    var nChains: int
    var ballotCount: array<int>

    /** The five arrays are distinct, and the word fills its array. */
    ghost predicate Separate()
      reads this
    {
      && size == elements.Length >= 1
      && elements != unitPos && elements != flipPos && elements != chainPos && elements != ballotCount
      && unitPos != flipPos && unitPos != chainPos && unitPos != ballotCount
      && flipPos != chainPos && flipPos != ballotCount
      && chainPos != ballotCount
    }

    ghost function Word(): (s: seq<int>)
      reads this, elements
      ensures |s| == elements.Length
    {
      elements[..]
    }

    ghost predicate UnitsFilled()
      reads this, elements, unitPos
      requires size == elements.Length
    {
      && 0 <= nUnits <= unitPos.Length
      && unitPos[..nUnits] == UnitPositions(Word(), size)
    }

    ghost predicate FlipsFilled()
      reads this, elements, flipPos
      requires size == elements.Length >= 1
    {
      && 0 <= nFlips <= flipPos.Length
      && flipPos[..nFlips] == FlipPositions(Word(), size - 1)
    }

    ghost predicate ChainsFilled()
      reads this, elements, chainPos
      requires size == elements.Length
    {
      && 0 <= nChains <= chainPos.Length
      && chainPos[..nChains] == ChainPositions(Word(), size)
    }

    ghost predicate BallotsFilled()
      reads this, elements, ballotCount
    {
      ballotCount[..] == BallotCounts(Word())
    }

    /** The arrays have the capacities they are allocated with. */
    ghost predicate Sized(n: int)
      reads this
    {
      && n >= 1
      && Separate()
      && size == 2 * n - 1
      && unitPos.Length == n
      && flipPos.Length == size
      && chainPos.Length == n - 1
      && ballotCount.Length == size
    }

    /** The state invariant: the word is an expression and every index array is what recomputing it gives. */
    ghost predicate Valid()
      reads this, elements, unitPos, flipPos, chainPos, ballotCount
    {
      && Sized(nUnits)
      && IsExpression(Word(), nUnits)
      && 0 <= nFlips <= flipPos.Length
      && 0 <= nChains <= chainPos.Length
      && IndexedBy(Word(), unitPos[..], flipPos[..nFlips], chainPos[..nChains], ballotCount[..])
    }

    // ---------------------------------------------------------------- recomputing the index arrays

    method FillUnitPos()
      requires Separate() && size - CutsIn(Word(), size) <= unitPos.Length
      modifies `nUnits, unitPos
      ensures UnitsFilled()
    {
      var i, j := 0, 0;
      while i < size
        invariant 0 <= i <= size
        invariant j == i - CutsIn(Word(), i)
        invariant 0 <= j <= unitPos.Length
        invariant unitPos[..j] == UnitPositions(Word(), i)
        invariant unchanged(elements)
      {
        CutsInMonotone(Word(), i + 1, size);
        if elements[i] >= 0 {
          unitPos[j] := i;
          j := j + 1;
        }
        i := i + 1;
      }
      nUnits := j;
    }

    method FillFlipPos()
      requires Separate() && size - 1 <= flipPos.Length
      modifies `nFlips, flipPos
      ensures FlipsFilled()
    {
      var i, j := 0, 0;
      while i < size - 1
        invariant 0 <= i <= size - 1
        invariant j == |FlipPositions(Word(), i)| <= flipPos.Length
        invariant flipPos[..j] == FlipPositions(Word(), i)
        invariant unchanged(elements)
      {
        if (elements[i] < 0 && elements[i + 1] >= 0) || (elements[i] >= 0 && elements[i + 1] < 0) {
          flipPos[j] := i;
          j := j + 1;
        }
        i := i + 1;
      }
      nFlips := j;
    }

    /** Walk over the run of cuts starting at i; fails exactly when it holds two equal neighbours. */
    method SkipChain(start: int) returns (end: int, ok: bool)
      requires Separate() && 0 <= start < size && elements[start] < 0
      ensures ok ==> end == NextUnit(Word(), start) && start < end
      ensures ok <==> NormalizedBetween(Word(), start, NextUnit(Word(), start))
    {
      ghost var e := NextUnit(Word(), start);
      var i, prev := start + 1, elements[start];
      while i < size && elements[i] < 0
        invariant start < i <= e <= size
        invariant elements[i - 1] == prev
        invariant NormalizedBetween(Word(), start, i)
      {
        if elements[i] == prev {
          assert Word()[i - 1] == Word()[i - 1 + 1];
          return i, false;
        }
        prev := elements[i];
        i := i + 1;
      }
      return i, true;
    }

    /** Fails exactly when two equal cuts are adjacent. */
    method FillChainPos() returns (ok: bool)
      requires Separate() && CutsIn(Word(), size) <= chainPos.Length
      modifies `nChains, chainPos
      ensures ok <==> Normalized(Word())
      ensures ok ==> ChainsFilled()
    {
      hide NormalizedBetween;
      hide ChainPositions;
      hide CutsIn;
      hide NextUnit;
      ghost var w := Word();
      NormalizedJoin(w, 0, size);
      ChainStep(w, 0);
      var i, j := 0, 0;
      while i < size
        invariant 0 <= i <= size && Word() == w
        invariant 0 < i < size ==> w[i - 1] >= 0 || w[i] >= 0
        invariant NormalizedBetween(w, 0, i)
        invariant j == |ChainPositions(w, i)| <= CutsIn(w, size)
        invariant chainPos[..j] == ChainPositions(w, i)
      {
        ChainStep(w, i);
        if elements[i] < 0 {
          chainPos[j] := i;
          assert chainPos[..j + 1] == ChainPositions(w, i + 1);
          j := j + 1;
          ghost var e := NextUnit(w, i);
          ChainRun(w, i, e);
          NormalizedJoin(w, i, e);
          var end, fine := SkipChain(i);
          if !fine {
            return false;
          }
          i := end;
        } else {
          NormalizedJoin(w, i, i + 1);
          i := i + 1;
        }
      }
      nChains := j;
      return true;
    }

    method FillBallotCount()
      requires Separate() && ballotCount.Length == size
      modifies ballotCount
      ensures BallotsFilled()
    {
      var i, count := 0, 0;
      while i < size
        invariant 0 <= i <= size
        invariant count == CutsIn(Word(), i)
        invariant forall k :: 0 <= k < i ==> ballotCount[k] == CutsIn(Word(), k + 1)
        invariant unchanged(elements)
      {
        if elements[i] < 0 {
          count := count + 1;
        }
        ballotCount[i] := count;
        i := i + 1;
      }
    }

    method FillIndices(n: int)
      requires Sized(n) && IsExpression(Word(), n)
      modifies `nUnits, `nFlips, `nChains, unitPos, flipPos, chainPos, ballotCount
      ensures Valid() && nUnits == n && Word() == old(Word())
    {
      hide IsExpression;
      hide UnitPositions;
      hide FlipPositions;
      hide ChainPositions;
      hide CutsIn;
      ExpressionCounts(Word(), n);
      FillUnitPos();
      FillFlipPos();
      var ok := FillChainPos();
      FillBallotCount();
    }

    /** Write 0, 1, V, 2, V, ..., n-1, V. */
    method WriteInitial(n: int)
      requires n >= 1 && size == elements.Length == 2 * n - 1
      modifies elements
      ensures Word() == Initial(n)
    {
      elements[0] := 0;
      var i := 1;
      while i < size
        invariant 1 <= i <= size && i % 2 == 1
        invariant elements[..i] == Initial(n)[..i]
      {
        elements[i] := (i + 1) / 2;
        elements[i + 1] := CUT_VERTICAL;
        assert elements[..i + 2] == elements[..i] + [(i + 1) / 2, CUT_VERTICAL];
        i := i + 2;
      }
      assert Word() == Initial(n);
    }

    constructor Allocate(n: int)
      requires n >= 1
      ensures Sized(n)
      ensures fresh(elements) && fresh(unitPos) && fresh(flipPos) && fresh(chainPos) && fresh(ballotCount)
    {
      size := 2 * n - 1;
      elements := new int[2 * n - 1];
      unitPos := new int[n];
      flipPos := new int[2 * n - 1];
      chainPos := new int[n - 1];
      ballotCount := new int[2 * n - 1];
      nUnits, nFlips, nChains := 0, 0, 0;
    }

    /** NPE_get_initial. */
    static method GetInitial(n: int) returns (e: NPE)
      requires n >= 1
      ensures fresh(e) && e.Valid() && e.nUnits == n && e.Word() == Initial(n)
    {
      hide IsExpression;
      hide Initial;
      InitialIsExpression(n);
      e := new NPE.Allocate(n);
      e.WriteInitial(n);
      e.FillIndices(n);
    }

    /** NPE_duplicate: an independent copy of the word and of every index array. */
    method Duplicate() returns (copy: NPE)
      requires Valid()
      ensures fresh(copy) && fresh(copy.elements) && fresh(copy.unitPos)
      ensures fresh(copy.flipPos) && fresh(copy.chainPos) && fresh(copy.ballotCount)
      ensures copy.Valid() && copy.Word() == Word() && copy.nUnits == nUnits
    {
      hide IsExpression;
      hide IndexedBy;
      copy := new NPE.Allocate(nUnits);
      copy.nUnits, copy.nFlips, copy.nChains := nUnits, nFlips, nChains;
      CopyPrefix(elements, copy.elements, size);
      CopyPrefix(unitPos, copy.unitPos, nUnits);
      CopyPrefix(flipPos, copy.flipPos, nFlips);
      CopyPrefix(chainPos, copy.chainPos, nChains);
      CopyPrefix(ballotCount, copy.ballotCount, size);
    }

    static method CopyPrefix(src: array<int>, dst: array<int>, len: int)
      requires src != dst && 0 <= len <= src.Length && len <= dst.Length
      modifies dst
      ensures dst[..len] == src[..len]
      ensures len == src.Length == dst.Length ==> dst[..] == src[..]
    {
      var i := 0;
      while i < len
        invariant 0 <= i <= len
        invariant dst[..i] == src[..i]
      {
        dst[i] := src[i];
        i := i + 1;
      }
    }

    // ---------------------------------------------------------------- the moves

    /** M1. Fails exactly when no unit follows pos. */
    method SwapAdjacentUnits(pos: int) returns (ok: bool)
      requires Valid() && 0 <= pos < size && elements[pos] >= 0
      modifies elements
      ensures ok <==> NextUnit(old(Word()), pos + 1) < size
      ensures Word() == if ok then SwapUnits(old(Word()), pos) else old(Word())
      ensures ok ==> UnitsExchanged(old(Word()), Word(), pos)
      ensures Valid()
    {
      hide IsExpression;
      hide IndexedBy;
      hide UnitsExchanged;
      ghost var s := Word();
      var i := pos + 1;
      while i < size && elements[i] < 0
        invariant pos < i <= size
        invariant NextUnit(s, pos + 1) == NextUnit(s, i)
      {
        i := i + 1;
      }
      if i >= size {
        return false;
      }
      var t := elements[pos];
      elements[pos] := elements[i];
      elements[i] := t;
      assert Word() == SwapUnits(s, pos);
      SwapUnitsExchanges(s, pos);
      SwapUnitsKeepsExpression(s, nUnits, pos);
      SameSignsIndexedBy(s, Word(), unitPos[..], flipPos[..nFlips], chainPos[..nChains], ballotCount[..]);
      return true;
    }

    /** Invert the cuts from pos to the end of their run. */
    method InvertRun(pos: int)
      requires Separate() && Normalized(Word())
      requires 0 <= pos < size && elements[pos] < 0
      requires forall k :: 0 <= k < size && elements[k] < 0 ==> IsCut(elements[k])
      modifies elements
      ensures Word() == InvertChain(old(Word()), pos)
    {
      hide NextUnit;
      ghost var s := Word();
      ghost var e := NextUnit(s, pos);
      var i, prev := pos + 1, elements[pos];
      if elements[pos] == CUT_VERTICAL {
        elements[pos] := CUT_HORIZONTAL;
      } else {
        elements[pos] := CUT_VERTICAL;
      }
      while i < size && elements[i] < 0
        invariant pos < i <= e
        invariant prev == s[i - 1] < 0
        invariant forall k :: 0 <= k < size ==>
          elements[k] == if pos <= k < i then Opposite(s[k]) else s[k]
      {
        assert s[i - 1] < 0 && s[i - 1 + 1] < 0;
        assert elements[i] != prev;
        prev := elements[i];
        if elements[i] == CUT_VERTICAL {
          elements[i] := CUT_HORIZONTAL;
        } else {
          elements[i] := CUT_VERTICAL;
        }
        i := i + 1;
      }
    }

    /** M2. Fails exactly when pos holds a unit; otherwise keeps the invariant exactly when pos starts a chain. */
    method InvertChainAt(pos: int) returns (ok: bool)
      requires Valid() && 0 <= pos < size
      modifies elements
      ensures ok <==> old(elements[pos]) < 0
      ensures Word() == if ok then InvertChain(old(Word()), pos) else old(Word())
      ensures ok ==> RunInverted(old(Word()), Word(), pos)
      ensures Valid() <==> !ok || StartsChain(old(Word()), pos)
    {
      hide IsExpression;
      hide IndexedBy;
      hide RunInverted;
      ghost var s := Word();
      ExpressionCounts(s, nUnits);
      if elements[pos] >= 0 {
        return false;
      }
      InvertRun(pos);
      InvertChainInverts(s, pos);
      if StartsChain(s, pos) {
        InvertChainKeepsExpression(s, nUnits, pos);
        SameSignsIndexedBy(s, Word(), unitPos[..], flipPos[..nFlips], chainPos[..nChains], ballotCount[..]);
      } else {
        InvertRearBreaksExpression(s, nUnits, pos);
      }
      return true;
    }

    /** Binary search in the unit positions, moving the one found by delta. */
    method UpdateUnitPos(pos: int, delta: int, start: int, end: int) returns (found: bool)
      requires 0 <= start && end < unitPos.Length && start <= end + 1
      requires forall m, m' :: start <= m < m' <= end ==> unitPos[m] < unitPos[m']
      modifies unitPos
      ensures found <==> exists m :: start <= m <= end && old(unitPos[m]) == pos
      ensures !found ==> unitPos[..] == old(unitPos[..])
      ensures forall m :: start <= m <= end && old(unitPos[m]) == pos
                      ==> unitPos[..] == old(unitPos[..])[m := pos + delta]
      decreases end - start + 1
    {
      if start > end {
        return false;
      }
      var mid := (start + end) / 2;
      if unitPos[mid] == pos {
        unitPos[mid] := unitPos[mid] + delta;
        return true;
      } else if unitPos[mid] > pos {
        found := UpdateUnitPos(pos, delta, start, mid - 1);
      } else {
        found := UpdateUnitPos(pos, delta, mid + 1, end);
      }
    }

    /** Exchange the elements at pos, pos + 1 and recompute the flip and chain positions. */
    method ExchangeAt(pos: int)
      requires Sized(nUnits) && 0 <= pos < size - 1
      requires IsExpression(SwapAt(Word(), pos), nUnits)
      modifies `nFlips, `nChains, elements, flipPos, chainPos
      ensures Word() == SwapAt(old(Word()), pos)
      ensures FlipsFilled() && ChainsFilled()
    {
      hide IsExpression;
      ghost var t := SwapAt(Word(), pos);
      ExpressionCounts(t, nUnits);
      elements[pos], elements[pos + 1] := elements[pos + 1], elements[pos];
      assert Word() == t;
      FillFlipPos();
      var ok := FillChainPos();
    }

    /** The two rejection tests of M3, and the patches to the unit positions and the ballot counts. */
    method ShiftUnit(pos: int) returns (legal: bool)
      requires Valid() && 0 < pos < size - 1 && (elements[pos] < 0) != (elements[pos + 1] < 0)
      modifies unitPos, ballotCount
      ensures legal == SwapAllowed(Word(), pos)
      ensures var s := if legal then SwapAt(Word(), pos) else Word();
              unitPos[..] == UnitPositions(s, size) && ballotCount[..] == BallotCounts(s)
    {
      hide IsExpression;
      hide UnitPositions;
      hide CutsIn;
      hide FlipPositions;
      hide ChainPositions;
      ghost var s := Word();
      SwapAtIndices(s, pos);
      assert unitPos[..] == UnitPositions(s, size);
      if elements[pos] >= 0 {
        if elements[pos - 1] == elements[pos + 1] {
          return false;
        }
        assert ballotCount[pos + 1] == BallotCounts(s)[pos + 1];
        if 2 * ballotCount[pos + 1] >= pos + 1 {
          return false;
        }
        var found := UpdateUnitPos(pos, 1, 0, nUnits - 1);
        ballotCount[pos] := ballotCount[pos] + 1;
        assert ballotCount[..] == BallotCounts(s)[pos := CutsIn(s, pos + 1) + 1];
      } else {
        if pos < size - 2 && elements[pos] == elements[pos + 2] {
          return false;
        }
        var found := UpdateUnitPos(pos + 1, -1, 0, nUnits - 1);
        ballotCount[pos] := ballotCount[pos] - 1;
        assert ballotCount[..] == BallotCounts(s)[pos := CutsIn(s, pos + 1) - 1];
      }
      return true;
    }

    /** M3. Refuses without touching anything, or exchanges pos and pos + 1 and repairs every index. */
    method SwapCutUnit(pos: int) returns (r: SwapOutcome)
      requires Valid()
      requires 0 < pos < size - 1 ==> (elements[pos] < 0) != (elements[pos + 1] < 0)
      modifies `nFlips, `nChains, elements, unitPos, flipPos, chainPos, ballotCount
      ensures Valid()
      ensures r == if pos <= 0 || pos >= size - 1 then Fatal
                   else if SwapAllowed(old(Word()), pos) then Swapped else Refused
      ensures Word() == if r == Swapped then SwapAt(old(Word()), pos) else old(Word())
      ensures r == Swapped ==> NeighboursExchanged(old(Word()), Word(), pos)
    {
      hide IsExpression;
      if pos <= 0 || pos >= size - 1 {
        return Fatal;
      }
      var legal := ShiftUnit(pos);
      if !legal {
        return Refused;
      }
      SwapAtKeepsExpression(Word(), nUnits, pos);
      ExchangeAt(pos);
      return Swapped;
    }
  }

  /** What an M3 exchange does to the unit positions and the ballot counts. */
  lemma SwapAtIndices(s: seq<int>, pos: nat)
    requires pos + 1 < |s| && (s[pos] < 0) != (s[pos + 1] < 0)
    ensures var delta := if s[pos] >= 0 then 1 else -1;
            var p, m := UnitPositions(s, |s|), |UnitPositions(s, pos)|;
            && IncreasingBelow(p, |s|)
            && m < |p| && p[m] == (if s[pos] >= 0 then pos else pos + 1)
            && UnitPositions(SwapAt(s, pos), |s|) == p[m := p[m] + delta]
            && BallotCounts(SwapAt(s, pos)) == BallotCounts(s)[pos := CutsIn(s, pos + 1) + delta]
  {
    hide UnitPositions;
    hide BallotCounts;
    hide CutsIn;
    UnitPositionsExact(s, |s|);
    SwapAtUnitPositions(s, pos, |s|);
    SwapAtBallots(s, pos);
  }

  lemma SwapAtBallots(s: seq<int>, pos: nat)
    requires pos + 1 < |s| && (s[pos] < 0) != (s[pos + 1] < 0)
    ensures BallotCounts(SwapAt(s, pos))
         == BallotCounts(s)[pos := CutsIn(s, pos + 1) + if s[pos] >= 0 then 1 else -1]
  {
    hide CutsIn;
    var b := BallotCounts(SwapAt(s, pos));
    forall k | 0 <= k < |s|
      ensures b[k] == CutsIn(s, k + 1) + (if k != pos then 0 else if s[pos] >= 0 then 1 else -1)
    {
      SwapAtCuts(s, pos, k + 1);
    }
  }

  /** An expression of at least two units starts with two units and ends with a cut. */
  lemma ExpressionEnds(s: seq<int>, n: nat)
    requires IsExpression(s, n) && n >= 2
    ensures |s| == 2 * n - 1 && s[0] >= 0 && s[1] >= 0 && s[|s| - 1] < 0
  {
    assert 2 * CutsIn(s, 2) < 2;
    assert CutsIn(s, 2) == CutsIn(s, 1) + (if s[1] < 0 then 1 else 0);
    assert 2 * CutsIn(s, |s| - 1) < |s| - 1;
  }

  lemma {:induction false} NoChainMeansUnits(s: seq<int>, k: nat, i: nat)
    requires i < k <= |s| && ChainPositions(s, k) == []
    ensures s[i] >= 0
  {
    if i < k - 1 {
      NoChainMeansUnits(s, k - 1, i);
    } else if i > 0 {
      NoChainMeansUnits(s, k - 1, i - 1);
    }
  }

  lemma {:induction false} NoFlipMeansUniform(s: seq<int>, k: nat)
    requires k < |s| && FlipPositions(s, k) == []
    ensures s[k] < 0 <==> s[0] < 0
  {
    if k > 0 {
      NoFlipMeansUniform(s, k - 1);
    }
  }

  /** Every index array offers something to choose, and every choice is a legal move position. */
  lemma ChoicesAreLegal(s: seq<int>, n: nat)
    requires IsExpression(s, n) && n >= 2
    ensures var u, f, c := UnitPositions(s, |s|), FlipPositions(s, |s| - 1), ChainPositions(s, |s|);
            && |u| == n && |f| > 0 && |c| > 0
            && (forall i :: 0 <= i < n - 1 ==> 0 <= u[i] < |s| && s[u[i]] >= 0 && NextUnit(s, u[i] + 1) < |s|)
            && (forall i :: 0 <= i < |c| ==> StartsChain(s, c[i]))
            && (forall i :: 0 <= i < |f| ==> 0 < f[i] < |s| - 1 && (s[f[i]] < 0) != (s[f[i] + 1] < 0))
  {
    hide IsExpression;
    hide UnitPositions;
    hide FlipPositions;
    hide ChainPositions;
    hide NextUnit;
    hide Normalized;
    ExpressionCounts(s, n);
    ExpressionEnds(s, n);
    UnitPositionsExact(s, |s|);
    FlipPositionsExact(s, |s| - 1);
    ChainPositionsExact(s, |s|);
    var u, f, c := UnitPositions(s, |s|), FlipPositions(s, |s| - 1), ChainPositions(s, |s|);
    if c == [] {
      NoChainMeansUnits(s, |s|, |s| - 1);
    }
    if f == [] {
      NoFlipMeansUniform(s, |s| - 1);
    }
    forall i | 0 <= i < n - 1 ensures 0 <= u[i] < |s| && s[u[i]] >= 0 && NextUnit(s, u[i] + 1) < |s| {
      assert u[i] in u && u[i + 1] in u && u[i] < u[i + 1];
      assert s[u[i + 1]] >= 0;
    }
    forall i | 0 <= i < |c| ensures StartsChain(s, c[i]) {
      assert c[i] in c;
    }
    forall i | 0 <= i < |f| ensures 0 < f[i] < |s| - 1 && (s[f[i]] < 0) != (s[f[i] + 1] < 0) {
      assert f[i] in f;
    }
  }

  /** The same, read off the index arrays the object stores. */
  lemma StoredChoicesAreLegal(e: NPE)
    requires e.Valid() && e.nUnits >= 2
    ensures e.nFlips > 0 && e.nChains > 0
    ensures forall i :: 0 <= i < e.nUnits - 1 ==>
      && 0 <= e.unitPos[i] < e.size
      && e.elements[e.unitPos[i]] >= 0
      && NextUnit(e.Word(), e.unitPos[i] + 1) < e.size
    ensures forall i :: 0 <= i < e.nChains ==>
      0 <= e.chainPos[i] < e.size && e.elements[e.chainPos[i]] < 0 && StartsChain(e.Word(), e.chainPos[i])
    ensures forall i :: 0 <= i < e.nFlips ==>
      && 0 < e.flipPos[i] < e.size - 1
      && (e.elements[e.flipPos[i]] < 0) != (e.elements[e.flipPos[i] + 1] < 0)
  {
    hide IsExpression;
    hide UnitPositions;
    hide FlipPositions;
    hide ChainPositions;
    hide NextUnit;
    ChoicesAreLegal(e.Word(), e.nUnits);
    assert forall i :: 0 <= i < e.nUnits ==> e.unitPos[i] == e.unitPos[..][i];
    assert forall i :: 0 <= i < e.nFlips ==> e.flipPos[i] == e.flipPos[..e.nFlips][i];
    assert forall i :: 0 <= i < e.nChains ==> e.chainPos[i] == e.chainPos[..e.nChains][i];
  }

  /** A position at which M3 may be tried. */
  predicate IsFlip(s: seq<int>, pos: int) {
    0 < pos < |s| - 1 && (s[pos] < 0) != (s[pos + 1] < 0)
  }

  // ---------------------------------------------------------------- random moves on words

  /** What is needed to choose a move. */
  ghost predicate Choosable(s: seq<int>, n: nat) {
    n >= 2 && IsExpression(s, n)
  }

  lemma ChoosableChoices(s: seq<int>, n: nat)
    requires Choosable(s, n)
    ensures var u, f, c := UnitPositions(s, |s|), FlipPositions(s, |s| - 1), ChainPositions(s, |s|);
            && n >= 2 && |s| > 0 && |u| == n && |f| > 0 && |c| > 0
            && (forall i :: 0 <= i < n - 1 ==> 0 <= u[i] < |s| && s[u[i]] >= 0 && NextUnit(s, u[i] + 1) < |s|)
            && (forall i :: 0 <= i < |c| ==> StartsChain(s, c[i]))
            && (forall i :: 0 <= i < |f| ==> IsFlip(s, f[i]))
  {
    hide IsExpression;
    hide UnitPositions;
    hide FlipPositions;
    hide ChainPositions;
    hide NextUnit;
    hide StartsChain;
    ExpressionCounts(s, n);
    ChoicesAreLegal(s, n);
  }

  /** The position found, -1 when there is none, and where the draws go on. */
  datatype Found = Found(pos: int, next: nat)

  ghost function FlipDrawn(s: seq<int>, n: nat, draw: Draws, k: nat): (pos: int)
    requires Choosable(s, n)
    ensures IsFlip(s, pos)
  {
    ChoosableChoices(s, n);
    FlipPositions(s, |s| - 1)[Drawn(draw, k, |FlipPositions(s, |s| - 1)|)]
  }

  /** The first flip drawn at which M3 is allowed, within the tries that are left. */
  ghost function FirstAllowed(s: seq<int>, n: nat, draw: Draws, k: nat, tries: nat): (r: Found)
    requires Choosable(s, n)
    ensures r.pos >= 0 ==> IsFlip(s, r.pos) && SwapAllowed(s, r.pos)
    decreases MAX_MOVES - tries
  {
    if tries >= MAX_MOVES then Found(-1, k)
    else
      var pos := FlipDrawn(s, n, draw, k);
      if SwapAllowed(s, pos) then Found(pos, k + 1) else FirstAllowed(s, n, draw, k + 1, tries + 1)
  }

  datatype PassResult = PassResult(word: seq<int>, done: bool, next: nat)

  ghost function UnitDrawn(s: seq<int>, n: nat, draw: Draws, k: nat): (pos: int)
    requires Choosable(s, n)
    ensures 0 <= pos < |s| && s[pos] >= 0 && NextUnit(s, pos + 1) < |s|
  {
    ChoosableChoices(s, n);
    UnitPositions(s, |s|)[Drawn(draw, k, n - 1)]
  }

  ghost function ChainDrawn(s: seq<int>, n: nat, draw: Draws, k: nat): (pos: int)
    requires Choosable(s, n)
    ensures StartsChain(s, pos) && 0 <= pos < |s|
  {
    ChoosableChoices(s, n);
    ChainPositions(s, |s|)[Drawn(draw, k, |ChainPositions(s, |s|)|)]
  }

  /** One pass: the kind of move is drawn first, then its place. */
  ghost function Pass(s: seq<int>, n: nat, draw: Draws, k: nat): (r: PassResult)
    requires Choosable(s, n)
  {
    var move := Drawn(draw, k, 3);
    if move == 0 then PassResult(SwapUnits(s, UnitDrawn(s, n, draw, k + 1)), true, k + 2)
    else if move == 1 then PassResult(InvertChain(s, ChainDrawn(s, n, draw, k + 1)), true, k + 2)
    else
      var r := FirstAllowed(s, n, draw, k + 1, 0);
      if r.pos >= 0 then PassResult(SwapAt(s, r.pos), true, r.next) else PassResult(s, false, r.next)
  }

  datatype MoveResult = MoveResult(word: seq<int>, done: bool, tries: int, next: nat)

  /** Passes until one makes a move or MAX_MOVES have been made. */
  ghost function Passes(s: seq<int>, n: nat, draw: Draws, k: nat, count: nat): (r: MoveResult)
    requires Choosable(s, n)
    decreases MAX_MOVES - count
  {
    if count >= MAX_MOVES then MoveResult(s, false, count, k)
    else
      var r := Pass(s, n, draw, k);
      if r.done then MoveResult(r.word, true, count + 1, r.next) else Passes(s, n, draw, r.next, count + 1)
  }

  lemma PassIsMove(s: seq<int>, n: nat, draw: Draws, k: nat)
    requires Choosable(s, n)
    ensures var r := Pass(s, n, draw, k); if r.done then Move(s, r.word) else r.word == s
  {
    hide Choosable;
    hide SwapUnits;
    hide InvertChain;
    hide SwapAt;
    hide SwapAllowed;
    hide FirstAllowed;
    hide UnitDrawn;
    hide ChainDrawn;
    hide StartsChain;
    hide NextUnit;
    var move := Drawn(draw, k, 3);
    if move == 0 {
      MoveBySwapUnits(s, UnitDrawn(s, n, draw, k + 1));
    } else if move == 1 {
      MoveByInvertChain(s, ChainDrawn(s, n, draw, k + 1));
    } else {
      var r := FirstAllowed(s, n, draw, k + 1, 0);
      if r.pos >= 0 {
        MoveBySwapAt(s, r.pos);
      }
    }
  }

  lemma {:induction false} PassesAreMoves(s: seq<int>, n: nat, draw: Draws, k: nat, count: nat)
    requires Choosable(s, n) && count <= MAX_MOVES
    ensures var r := Passes(s, n, draw, k, count);
            (if r.done then Move(s, r.word) else r.word == s) && count <= r.tries <= MAX_MOVES && (!r.done ==> r.tries == MAX_MOVES)
    decreases MAX_MOVES - count
  {
    hide Choosable;
    hide Pass;
    hide Move;
    if count < MAX_MOVES {
      PassIsMove(s, n, draw, k);
      if !Pass(s, n, draw, k).done {
        PassesAreMoves(s, n, draw, Pass(s, n, draw, k).next, count + 1);
      }
    }
  }

  /** Draws that start with a, then b. */
  function Two(a: nat, b: nat): Draws {
    k => if k == 0 then a else b
  }

  /** The first pass on these draws makes t of s. */
  ghost predicate DrawsTo(s: seq<int>, n: nat, draw: Draws, t: seq<int>)
    requires Choosable(s, n)
  {
    Pass(s, n, draw, 0).done && Pass(s, n, draw, 0).word == t
  }

  /** A random move is a move, and every move is drawn by some numbers, in the first pass. */
  lemma EveryMoveIsDrawn(s: seq<int>, t: seq<int>, n: nat)
    requires Choosable(s, n)
    ensures Move(s, t) <==> exists draw: Draws :: DrawsTo(s, n, draw, t)
  {
    hide Choosable;
    hide Pass;
    hide SwapUnits;
    hide InvertChain;
    hide SwapAt;
    hide SwapAllowed;
    hide NextUnit;
    hide StartsChain;
    if Move(s, t) {
      var draw := DrawMove(s, t, n);
    }
    if draw: Draws :| DrawsTo(s, n, draw, t) {
      PassIsMove(s, n, draw, 0);
    }
  }

  lemma DrawMove(s: seq<int>, t: seq<int>, n: nat) returns (draw: Draws)
    requires Choosable(s, n) && Move(s, t)
    ensures DrawsTo(s, n, draw, t)
  {
    hide Choosable;
    hide DrawsTo;
    hide SwapUnits;
    hide InvertChain;
    hide SwapAt;
    hide SwapAllowed;
    hide NextUnit;
    if pos: nat :| pos < |s| && s[pos] >= 0 && NextUnit(s, pos + 1) < |s| && t == SwapUnits(s, pos) {
      draw := DrawSwapUnits(s, n, pos);
    } else if pos: nat :| StartsChain(s, pos) && t == InvertChain(s, pos) {
      draw := DrawInvertChain(s, n, pos);
    } else {
      var pos: nat :| 0 < pos < |s| - 1 && (s[pos] < 0) != (s[pos + 1] < 0) && SwapAllowed(s, pos) && t == SwapAt(s, pos);
      draw := DrawSwapAt(s, n, pos);
    }
  }

  lemma TwoDrawn(a: nat, b: nat, max: int)
    requires a < 3 && b < max
    ensures Drawn(Two(a, b), 0, 3) == a && Drawn(Two(a, b), 1, max) == b
  {
  }

  /** Where a unit that is not the last stands in the index. */
  lemma UnitIndex(s: seq<int>, n: nat, pos: nat) returns (m: nat)
    requires Choosable(s, n) && pos < |s| && s[pos] >= 0 && NextUnit(s, pos + 1) < |s|
    ensures |UnitPositions(s, |s|)| == n && m < n - 1 && UnitPositions(s, |s|)[m] == pos
  {
    hide Choosable;
    hide NextUnit;
    hide UnitPositions;
    ChoosableChoices(s, n);
    UnitPositionsExact(s, |s|);
    var p, i := UnitPositions(s, |s|), NextUnit(s, pos + 1);
    assert pos in p && i in p;
    m :| 0 <= m < |p| && p[m] == pos;
    var m' :| 0 <= m' < |p| && p[m'] == i;
  }

  lemma DrawSwapUnits(s: seq<int>, n: nat, pos: nat) returns (draw: Draws)
    requires Choosable(s, n) && pos < |s| && s[pos] >= 0 && NextUnit(s, pos + 1) < |s|
    ensures DrawsTo(s, n, draw, SwapUnits(s, pos))
  {
    hide Choosable;
    hide SwapUnits;
    hide NextUnit;
    hide UnitPositions;
    hide Drawn;
    hide Two;
    hide FirstAllowed;
    hide InvertChain;
    hide SwapAt;
    var m := UnitIndex(s, n, pos);
    draw := Two(0, m);
    TwoDrawn(0, m, n - 1);
    assert UnitDrawn(s, n, draw, 1) == pos;
  }

  lemma DrawInvertChain(s: seq<int>, n: nat, pos: nat) returns (draw: Draws)
    requires Choosable(s, n) && StartsChain(s, pos)
    ensures pos < |s| && DrawsTo(s, n, draw, InvertChain(s, pos))
  {
    hide Choosable;
    hide InvertChain;
    hide ChainPositions;
    hide Drawn;
    hide Two;
    hide FirstAllowed;
    ChoosableChoices(s, n);
    ChainPositionsExact(s, |s|);
    var c := ChainPositions(s, |s|);
    assert pos in c;
    var m :| 0 <= m < |c| && c[m] == pos;
    draw := Two(1, m);
    TwoDrawn(1, m, |c|);
    assert ChainDrawn(s, n, draw, 1) == pos;
  }

  lemma DrawSwapAt(s: seq<int>, n: nat, pos: nat) returns (draw: Draws)
    requires Choosable(s, n) && IsFlip(s, pos) && SwapAllowed(s, pos)
    ensures DrawsTo(s, n, draw, SwapAt(s, pos))
  {
    hide Choosable;
    hide SwapAt;
    hide SwapAllowed;
    hide FlipPositions;
    hide Drawn;
    hide Two;
    hide FirstAllowed;
    ChoosableChoices(s, n);
    FlipPositionsExact(s, |s| - 1);
    var f := FlipPositions(s, |s| - 1);
    assert pos in f;
    var m :| 0 <= m < |f| && f[m] == pos;
    draw := Two(2, m);
    TwoDrawn(2, m, |f|);
    assert FlipDrawn(s, n, draw, 1) == pos;
    FirstAllowedStep(s, n, draw, 1, 0);
  }

  // ---------------------------------------------------------------- random moves in place

  /** A pass of the outer loop that came to nothing: MAX_MOVES tries of M3, each at a refused position. */
  ghost predicate RefusedPass(s: seq<int>, tried: seq<int>) {
    |tried| == MAX_MOVES && forall h :: 0 <= h < |tried| ==> IsFlip(s, tried[h]) && !SwapAllowed(s, tried[h])
  }

  ghost predicate AllSwapsAllowed(s: seq<int>) {
    forall pos :: IsFlip(s, pos) ==> SwapAllowed(s, pos)
  }

  lemma RefusalsNeedRefusedFlips(s: seq<int>, tried: seq<int>)
    requires RefusedPass(s, tried)
    ensures !AllSwapsAllowed(s)
  {
    hide SwapAllowed;
    assert IsFlip(s, tried[0]);
  }

  /** What lets make_random_move give up on s: all passes but perhaps the last came to nothing. */
  ghost predicate GivesUp(s: seq<int>, refused: seq<seq<int>>) {
    |refused| >= MAX_MOVES - 1 && forall k :: 0 <= k < |refused| ==> RefusedPass(s, refused[k])
  }

  lemma GivesUpNeedsRefusedFlips(s: seq<int>, refused: seq<seq<int>>)
    requires GivesUp(s, refused)
    ensures !AllSwapsAllowed(s)
  {
    hide RefusedPass;
    RefusalsNeedRefusedFlips(s, refused[0]);
  }

  /** The inner loop of the third kind of move: try M3 at positions drawn until one is legal. */
  method TrySwaps(expr: NPE, copy: NPE, draw: Draws, k: nat) returns (done: bool, next: nat, ghost tried: seq<int>)
    requires expr.Valid() && copy.Valid() && expr.nUnits >= 2
    requires copy.Word() == expr.Word() && copy.nUnits == expr.nUnits
    requires {expr.elements, expr.unitPos, expr.flipPos, expr.chainPos, expr.ballotCount}
          !! {copy.elements, copy.unitPos, copy.flipPos, copy.chainPos, copy.ballotCount}
    requires expr != copy
    modifies copy`nFlips, copy`nChains, copy.elements, copy.unitPos, copy.flipPos, copy.chainPos, copy.ballotCount
    ensures copy.Valid()
    ensures var s, r := expr.Word(), FirstAllowed(expr.Word(), expr.nUnits, draw, k, 0);
            && next == r.next && (done <==> r.pos >= 0)
            && copy.Word() == if done then SwapAt(s, r.pos) else s
    ensures !done ==> RefusedPass(expr.Word(), tried)
  {
    hide IsExpression;
    hide IndexedBy;
    hide SwapAllowed;
    hide NextUnit;
    hide StartsChain;
    hide FirstAllowed;
    ghost var s, n := expr.Word(), expr.nUnits;
    var tries := 0;
    ghost var pos := -1;
    done, next, tried := false, k, [];
    while !done && tries < MAX_MOVES
      invariant 0 <= tries <= MAX_MOVES && |tried| == tries
      invariant !done ==> forall h :: 0 <= h < |tried| ==> IsFlip(s, tried[h]) && !SwapAllowed(s, tried[h])
      invariant copy.Valid() && expr.Valid() && expr.Word() == s
      invariant done ==> IsFlip(s, pos) && FirstAllowed(s, n, draw, k, 0) == Found(pos, next)
      invariant !done ==> FirstAllowed(s, n, draw, k, 0) == FirstAllowed(s, n, draw, next, tries)
      invariant copy.Word() == if done then SwapAt(s, pos) else s
    {
      StoredChoicesAreLegal(expr);
      FirstAllowedStep(s, n, draw, next, tries);
      var i := Drawn(draw, next, expr.nFlips);
      assert expr.flipPos[i] == expr.flipPos[..expr.nFlips][i];
      FlipStored(expr, draw, next);
      var r := copy.SwapCutUnit(expr.flipPos[i]);
      assert r != Fatal;
      done := r == Swapped;
      if done {
        pos := expr.flipPos[i];
      }
      tries, next, tried := tries + 1, next + 1, tried + [expr.flipPos[i]];
    }
    if !done {
      FirstAllowedEnd(s, n, draw, next, tries);
    }
  }

  lemma FirstAllowedStep(s: seq<int>, n: nat, draw: Draws, k: nat, tries: nat)
    requires Choosable(s, n) && tries < MAX_MOVES
    ensures var pos := FlipDrawn(s, n, draw, k);
            FirstAllowed(s, n, draw, k, tries)
            == if SwapAllowed(s, pos) then Found(pos, k + 1) else FirstAllowed(s, n, draw, k + 1, tries + 1)
  {
  }

  lemma FirstAllowedEnd(s: seq<int>, n: nat, draw: Draws, k: nat, tries: nat)
    requires Choosable(s, n) && tries >= MAX_MOVES
    ensures FirstAllowed(s, n, draw, k, tries) == Found(-1, k)
  {
  }

  /** What is drawn from the stored index arrays. */
  lemma FlipStored(e: NPE, draw: Draws, k: nat)
    requires e.Valid() && e.nUnits >= 2 && e.nFlips > 0
    ensures FlipDrawn(e.Word(), e.nUnits, draw, k) == e.flipPos[Drawn(draw, k, e.nFlips)]
  {
    hide IsExpression;
    hide FlipPositions;
    assert e.flipPos[..e.nFlips] == FlipPositions(e.Word(), |e.Word()| - 1);
  }

  lemma UnitStored(e: NPE, draw: Draws, k: nat)
    requires e.Valid() && e.nUnits >= 2
    ensures UnitDrawn(e.Word(), e.nUnits, draw, k) == e.unitPos[Drawn(draw, k, e.nUnits - 1)]
  {
    hide IsExpression;
    hide UnitPositions;
    ChoosableChoices(e.Word(), e.nUnits);
    assert e.unitPos[..] == UnitPositions(e.Word(), |e.Word()|);
  }

  lemma ChainStored(e: NPE, draw: Draws, k: nat)
    requires e.Valid() && e.nUnits >= 2 && e.nChains > 0
    ensures ChainDrawn(e.Word(), e.nUnits, draw, k) == e.chainPos[Drawn(draw, k, e.nChains)]
  {
    hide IsExpression;
    hide ChainPositions;
    assert e.chainPos[..e.nChains] == ChainPositions(e.Word(), |e.Word()|);
  }

  /** One pass of the outer loop: the kind of move is drawn, then its place. */
  method TryMove(expr: NPE, copy: NPE, draw: Draws, k: nat) returns (done: bool, next: nat, ghost tried: seq<int>)
    requires expr.Valid() && copy.Valid() && expr.nUnits >= 2
    requires copy.Word() == expr.Word() && copy.nUnits == expr.nUnits
    requires {expr.elements, expr.unitPos, expr.flipPos, expr.chainPos, expr.ballotCount}
          !! {copy.elements, copy.unitPos, copy.flipPos, copy.chainPos, copy.ballotCount}
    requires expr != copy
    modifies copy`nFlips, copy`nChains, copy.elements, copy.unitPos, copy.flipPos, copy.chainPos, copy.ballotCount
    ensures copy.Valid()
    ensures PassResult(copy.Word(), done, next) == Pass(expr.Word(), expr.nUnits, draw, k)
    ensures !done ==> RefusedPass(expr.Word(), tried)
  {
    hide IsExpression;
    hide IndexedBy;
    hide SwapAllowed;
    hide NextUnit;
    hide StartsChain;
    hide RefusedPass;
    hide UnitsExchanged;
    hide RunInverted;
    hide FirstAllowed;
    hide UnitDrawn;
    hide ChainDrawn;
    hide SwapUnits;
    hide InvertChain;
    ghost var s := expr.Word();
    tried := [];
    StoredChoicesAreLegal(expr);
    var move := Drawn(draw, k, 3);
    if move == 0 {
      UnitStored(expr, draw, k + 1);
      var i := Drawn(draw, k + 1, expr.nUnits - 1);
      var swapped := copy.SwapAdjacentUnits(expr.unitPos[i]);
      done, next := true, k + 2;
    } else if move == 1 {
      ChainStored(expr, draw, k + 1);
      var i := Drawn(draw, k + 1, expr.nChains);
      var inverted := copy.InvertChainAt(expr.chainPos[i]);
      done, next := true, k + 2;
    } else {
      done, next, tried := TrySwaps(expr, copy, draw, k + 1);
    }
  }

  /** make_random_move: copies the expression and makes one move on the copy, the one the draws stand for. It fails
      exactly when its counter of passes has reached MAX_MOVES, and every pass but perhaps the last is MAX_MOVES refused
      tries of M3. No other abort is reachable. */
  method MakeRandomMove(expr: NPE, draw: Draws, k: nat)
    returns (copy: NPE, ok: bool, tries: int, next: nat, ghost refused: seq<seq<int>>)
    requires expr.Valid() && expr.nUnits >= 2
    ensures fresh(copy) && copy.Valid() && copy.nUnits == expr.nUnits
    ensures fresh(copy.elements) && fresh(copy.unitPos)
    ensures fresh(copy.flipPos) && fresh(copy.chainPos) && fresh(copy.ballotCount)
    ensures 1 <= tries <= MAX_MOVES && (ok <==> tries != MAX_MOVES)
    ensures var r := Passes(expr.Word(), expr.nUnits, draw, k, 0); copy.Word() == r.word && tries == r.tries && next == r.next
    ensures forall k :: 0 <= k < |refused| ==> RefusedPass(expr.Word(), refused[k])
    ensures if |refused| == tries - 1 then Move(expr.Word(), copy.Word())
            else tries == MAX_MOVES == |refused| && copy.Word() == expr.Word()
    ensures AllSwapsAllowed(expr.Word()) ==> ok && tries == 1
  {
    hide IsExpression;
    hide IndexedBy;
    hide Move;
    hide SwapAllowed;
    hide NextUnit;
    hide StartsChain;
    hide RefusedPass;
    hide AllSwapsAllowed;
    hide Pass;
    hide Passes;
    ghost var s, n := expr.Word(), expr.nUnits;
    copy := expr.Duplicate();
    refused, next := [], k;
    var count, done := 0, false;
    while !done && count < MAX_MOVES
      invariant 0 <= count <= MAX_MOVES && |refused| == if done then count - 1 else count
      invariant forall k :: 0 <= k < |refused| ==> RefusedPass(s, refused[k])
      invariant fresh(copy) && fresh(copy.elements) && fresh(copy.unitPos)
      invariant fresh(copy.flipPos) && fresh(copy.chainPos) && fresh(copy.ballotCount)
      invariant copy.Valid() && copy.nUnits == expr.nUnits && copy.size == expr.size
      invariant !done ==> copy.Word() == s && Passes(s, n, draw, k, 0) == Passes(s, n, draw, next, count)
      invariant done ==> Passes(s, n, draw, k, 0) == MoveResult(copy.Word(), true, count, next)
    {
      PassesStep(s, n, draw, next, count);
      ghost var tried;
      done, next, tried := TryMove(expr, copy, draw, next);
      if !done {
        refused := refused + [tried];
      }
      count := count + 1;
    }
    ok, tries := count != MAX_MOVES, count;
    PassesAreMoves(s, n, draw, k, 0);
    if !done {
      PassesEnd(s, n, draw, next, count);
    }
    if |refused| > 0 {
      RefusalsNeedRefusedFlips(s, refused[0]);
    }
  }

  lemma PassesStep(s: seq<int>, n: nat, draw: Draws, k: nat, count: nat)
    requires Choosable(s, n) && count < MAX_MOVES
    ensures var r := Pass(s, n, draw, k);
            && (!r.done ==> r.word == s)
            && Passes(s, n, draw, k, count)
               == if r.done then MoveResult(r.word, true, count + 1, r.next) else Passes(s, n, draw, r.next, count + 1)
  {
    hide Pass;
    PassIsMove(s, n, draw, k);
  }

  lemma PassesEnd(s: seq<int>, n: nat, draw: Draws, k: nat, count: nat)
    requires Choosable(s, n) && count >= MAX_MOVES
    ensures Passes(s, n, draw, k, count) == MoveResult(s, false, count, k)
  {
  }

  lemma MoveBySwapUnits(s: seq<int>, pos: nat)
    requires pos < |s| && s[pos] >= 0 && NextUnit(s, pos + 1) < |s|
    ensures Move(s, SwapUnits(s, pos))
  {
  }

  lemma MoveByInvertChain(s: seq<int>, pos: nat)
    requires StartsChain(s, pos)
    ensures Move(s, InvertChain(s, pos))
  {
  }

  lemma MoveBySwapAt(s: seq<int>, pos: nat)
    requires 0 < pos < |s| - 1 && (s[pos] < 0) != (s[pos + 1] < 0) && SwapAllowed(s, pos)
    ensures Move(s, SwapAt(s, pos))
  {
  }
}
