/** The search of simulated annealing on words: which words are tried, which are kept, and what the best one is
    (flp.c, floorplan). */
module Annealing {
  import opened PolishExpression
  import opened PolishExpressionState
  import opened ShapeCurve
  import opened SlicingTree
  import opened TreeParsing
  import opened Sizing
  import opened SizingState
  import opened Rim

  /** What the search is run with: the compaction ratio, the rim, the metric of a floorplan, the numbers the moves are
      drawn from, and whether the i-th trial passes the Boltzmann test. */
  datatype Settings = Settings(ratio: real, rim: bool, thickness: real, metric: seq<Rect> -> real, draw: Draws,
                               uphill: nat -> bool)

  predicate ValidSettings(cfg: Settings) {
    cfg.ratio >= 0.0 && (cfg.rim ==> cfg.thickness > 0.0)
  }

  // ---------------------------------------------------------------- the floorplan of a word

  /** Blocks in their units' slots and dead blocks after them, for the first entry of least area. */
  ghost predicate IsCore(us: seq<Rect>, t: Tree, pos: nat, n: int, ratio: real)
    requires Summed(t) && LeavesWellShaped(t)
  {
    && IsFirstMin(t.curve, pos)
    && var lay := Arrange(t, pos, Rect(0.0, 0.0, t.curve[pos].x, t.curve[pos].y), true, ratio);
       |us| == n + |lay.dead| && Written(us, n, 0, lay)
  }

  /** The core, moved inwards and wrapped when the rim is modelled. */
  function Wrapped(us: seq<Rect>, e: Entry, rim: bool, thickness: real): seq<Rect> {
    if rim then
      var moved := ShiftAll(us, thickness - 0.0, thickness - 0.0);
      moved + RimAll(moved, Rect(thickness, thickness, e.x, e.y), thickness)
    else us
  }

  ghost predicate FloorBy(units: seq<Rect>, t: Tree, n: int, cfg: Settings, pos: nat, us: seq<Rect>)
    requires Summed(t) && LeavesWellShaped(t)
  {
    IsCore(us, t, pos, n, cfg.ratio) && units == Wrapped(us, t.curve[pos], cfg.rim, cfg.thickness)
  }

  ghost predicate FloorOfTree(units: seq<Rect>, t: Tree, n: int, cfg: Settings)
    requires Summed(t) && LeavesWellShaped(t)
  {
    exists pos: nat, us: seq<Rect> :: FloorBy(units, t, n, cfg, pos, us)
  }

  /** Evaluating the word on the stack leaves the tree t, whose leaves are the units 0 .. n-1. */
  ghost predicate Parsed(s: seq<int>, curves: seq<Curve>, n: int, t: Tree) {
    && UnitsKnown(curves, s) && Run(curves, s, |s|) == Stack([t])
    && Summed(t) && LeavesWellShaped(t) && ListsAll(Units(t), n) && |Units(t)| == n
  }

  /** The units are the floorplan that the word stands for. */
  ghost predicate FloorOf(units: seq<Rect>, s: seq<int>, curves: seq<Curve>, n: int, cfg: Settings) {
    exists t: Tree :: Parsed(s, curves, n, t) && FloorOfTree(units, t, n, cfg)
  }

  lemma OneFirstMin(c: Curve, p: nat, q: nat)
    requires p < |c| && q < |c| && IsFirstMin(c, p) && IsFirstMin(c, q)
    ensures p == q
  {
    hide IsFirstMin;
    hide Area;
    FirstMinBounds(c, p, q);
    FirstMinBounds(c, q, p);
  }

  lemma FirstMinBounds(c: Curve, p: nat, q: nat)
    requires IsFirstMin(c, p) && q < |c|
    ensures Area(c[p]) <= Area(c[q]) && (q < p ==> Area(c[p]) < Area(c[q]))
  {
    hide Area;
  }

  /** The slots and the tail of dead blocks leave no choice. */
  lemma OneWriting(u: seq<Rect>, v: seq<Rect>, n: int, lay: Layout, us: seq<int>)
    requires |u| == |v| == n + |lay.dead| && Written(u, n, 0, lay) && Written(v, n, 0, lay)
    requires LaysOut(lay.blocks, us) && ListsAll(us, n)
    ensures u == v
  {
    forall i | 0 <= i < |u| ensures u[i] == v[i] {
      if i < n {
        assert i in us;
        var k :| 0 <= k < |us| && us[k] == i;
        assert lay.blocks[k].unit == i;
      } else {
        assert u[i] == u[n + 0..n + 0 + |lay.dead|][i - n];
        assert v[i] == v[n + 0..n + 0 + |lay.dead|][i - n];
      }
    }
  }

  lemma OneCore(u: seq<Rect>, v: seq<Rect>, t: Tree, p: nat, q: nat, n: int, ratio: real)
    requires Summed(t) && LeavesWellShaped(t) && ListsAll(Units(t), n) && IsCore(u, t, p, n, ratio) && IsCore(v, t, q, n, ratio)
    ensures p == q && u == v
  {
    hide Arrange;
    hide Summed;
    hide LeavesWellShaped;
    hide ListsAll;
    hide Units;
    hide Written;
    OneFirstMin(t.curve, p, q);
    var box := Rect(0.0, 0.0, t.curve[p].x, t.curve[p].y);
    ArrangeCounts(t, p, box, true, ratio);
    OneWriting(u, v, n, Arrange(t, p, box, true, ratio), Units(t));
  }

  /** A word has at most one floorplan. */
  lemma OneFloor(u: seq<Rect>, v: seq<Rect>, s: seq<int>, curves: seq<Curve>, n: int, cfg: Settings)
    requires FloorOf(u, s, curves, n, cfg) && FloorOf(v, s, curves, n, cfg)
    ensures u == v
  {
    hide Run;
    hide ListsAll;
    hide Units;
    hide Summed;
    hide LeavesWellShaped;
    hide IsCore;
    hide Wrapped;
    var t: Tree :| Parsed(s, curves, n, t) && FloorOfTree(u, t, n, cfg);
    var t': Tree :| Parsed(s, curves, n, t') && FloorOfTree(v, t', n, cfg);
    assert [t][0] == [t'][0];
    var p: nat, us: seq<Rect> :| FloorBy(u, t, n, cfg, p, us);
    var q: nat, vs: seq<Rect> :| FloorBy(v, t, n, cfg, q, vs);
    OneCore(us, vs, t, p, q, n, cfg.ratio);
  }

  /** The metric of the word's floorplan. */
  ghost function Cost(s: seq<int>, curves: seq<Curve>, n: int, cfg: Settings): real {
    if units: seq<Rect> :| FloorOf(units, s, curves, n, cfg) then cfg.metric(units) else 0.0
  }

  lemma CostIsMetric(units: seq<Rect>, s: seq<int>, curves: seq<Curve>, n: int, cfg: Settings)
    requires FloorOf(units, s, curves, n, cfg)
    ensures Cost(s, curves, n, cfg) == cfg.metric(units)
  {
    hide FloorOf;
    var v: seq<Rect> :| FloorOf(v, s, curves, n, cfg) && Cost(s, curves, n, cfg) == cfg.metric(v);
    OneFloor(units, v, s, curves, n, cfg);
  }

  // ---------------------------------------------------------------- the search

  /** Where the search stands: the word it holds, the best word, all words tried, the place in the draws, and whether a
      random move has given up. */
  datatype Search = Search(word: seq<int>, best: seq<int>, tried: seq<seq<int>>, next: nat, stuck: bool)

  ghost function Begin(n: nat): Search
    requires n >= 1
  {
    Search(Initial(n), Initial(n), [Initial(n)], 0, false)
  }

  /** One trial: draw a move and hold the new word if it is cheaper or passes the Boltzmann test; a cheaper one that is
      cheaper than the best so far becomes the best. */
  ghost function Try(a: Search, i: nat, n: nat, curves: seq<Curve>, cfg: Settings): (b: Search)
    requires Choosable(a.word, n)
    ensures Choosable(b.word, n)
  {
    MovedIsChoosable(a.word, n, cfg.draw, a.next);
    var r := Passes(a.word, n, cfg.draw, a.next, 0);
    if a.stuck then a
    else if r.tries == MAX_MOVES then a.(stuck := true)
    else
      var down := Cost(r.word, curves, n, cfg) < Cost(a.word, curves, n, cfg);
      Search(if down || cfg.uphill(i) then r.word else a.word,
             if down && Cost(r.word, curves, n, cfg) < Cost(a.best, curves, n, cfg) then r.word else a.best,
             a.tried + [r.word], r.next, false)
  }

  lemma MovedIsChoosable(s: seq<int>, n: nat, draw: Draws, k: nat)
    requires Choosable(s, n)
    ensures Choosable(Passes(s, n, draw, k, 0).word, n)
  {
    hide Passes;
    hide IsExpression;
    hide Move;
    PassesAreMoves(s, n, draw, k, 0);
    var t := Passes(s, n, draw, k, 0).word;
    if t != s {
      MoveKeepsExpression(s, t, n);
    }
  }

  /** The search after k trials. */
  ghost function After(k: nat, n: nat, curves: seq<Curve>, cfg: Settings): (a: Search)
    requires n >= 2
    ensures Choosable(a.word, n)
  {
    InitialIsExpression(n);
    if k == 0 then Begin(n) else Try(After(k - 1, n, curves, cfg), k - 1, n, curves, cfg)
  }

  // ---------------------------------------------------------------- what the search finds

  /** No word tried is cheaper than the best one, which has itself been tried, and neither is the word held. */
  ghost predicate BestOfTried(a: Search, curves: seq<Curve>, n: int, cfg: Settings) {
    && a.best in a.tried && a.word in a.tried
    && forall w :: w in a.tried ==> Cost(a.best, curves, n, cfg) <= Cost(w, curves, n, cfg)
  }

  lemma TryKeepsBest(a: Search, i: nat, n: nat, curves: seq<Curve>, cfg: Settings)
    requires Choosable(a.word, n) && BestOfTried(a, curves, n, cfg)
    ensures BestOfTried(Try(a, i, n, curves, cfg), curves, n, cfg)
  {
    hide Cost;
    hide Passes;
    hide Choosable;
  }

  /** After any number of trials the best word is a cheapest one among all words tried, kept or not. */
  lemma {:induction false} BestIsLeast(k: nat, n: nat, curves: seq<Curve>, cfg: Settings)
    requires n >= 2
    ensures BestOfTried(After(k, n, curves, cfg), curves, n, cfg)
  {
    hide Cost;
    hide Try;
    hide Choosable;
    if k > 0 {
      BestIsLeast(k - 1, n, curves, cfg);
      TryKeepsBest(After(k - 1, n, curves, cfg), k - 1, n, curves, cfg);
    }
  }

  /** Each word tried after the first is one move away from one tried before it. */
  ghost predicate TriedByMoves(tried: seq<seq<int>>, n: nat)
    requires n >= 1
  {
    && |tried| > 0 && tried[0] == Initial(n)
    && forall k :: 0 < k < |tried| ==> exists j :: 0 <= j < k && Move(tried[j], tried[k])
  }

  lemma MoreTried(tried: seq<seq<int>>, n: nat, s: seq<int>, t: seq<int>)
    requires n >= 1 && TriedByMoves(tried, n) && s in tried && Move(s, t)
    ensures TriedByMoves(tried + [t], n)
  {
    hide Move;
    hide Initial;
    var more := tried + [t];
    forall k | 0 < k < |more| ensures exists j :: 0 <= j < k && Move(more[j], more[k]) {
      if k < |tried| {
        var j :| 0 <= j < k && Move(tried[j], tried[k]);
        assert more[j] == tried[j];
      } else {
        var j :| 0 <= j < |tried| && tried[j] == s;
        assert more[j] == s;
      }
    }
  }

  /** The search only ever tries words that moves lead to from the initial one; unless it is stuck, k trials have tried
      k + 1 words. */
  lemma {:induction false} TriedAreReached(k: nat, n: nat, curves: seq<Curve>, cfg: Settings)
    requires n >= 2
    ensures var a := After(k, n, curves, cfg); TriedByMoves(a.tried, n) && (if a.stuck then |a.tried| <= k else |a.tried| == k + 1)
  {
    hide Cost;
    hide Move;
    hide Passes;
    hide Initial;
    hide Choosable;
    if k > 0 {
      TriedAreReached(k - 1, n, curves, cfg);
      BestIsLeast(k - 1, n, curves, cfg);
      var a := After(k - 1, n, curves, cfg);
      PassesAreMoves(a.word, n, cfg.draw, a.next, 0);
      var r := Passes(a.word, n, cfg.draw, a.next, 0);
      if !a.stuck && r.tries != MAX_MOVES {
        MoreTried(a.tried, n, a.word, r.word);
      }
    }
  }

  /** The word held gets dearer only by passing the Boltzmann test. */
  lemma OnlyUphillRaises(k: nat, n: nat, curves: seq<Curve>, cfg: Settings)
    requires n >= 2 && !cfg.uphill(k)
    ensures Cost(After(k + 1, n, curves, cfg).word, curves, n, cfg) <= Cost(After(k, n, curves, cfg).word, curves, n, cfg)
  {
    hide Cost;
    hide Passes;
    hide Choosable;
  }

  /** When no trial passes the Boltzmann test the search is a descent: the word held is always the best. */
  lemma {:induction false} ColdSearchDescends(k: nat, n: nat, curves: seq<Curve>, cfg: Settings)
    requires n >= 2 && forall i: nat :: i < k ==> !cfg.uphill(i)
    ensures After(k, n, curves, cfg).word == After(k, n, curves, cfg).best
  {
    hide Cost;
    hide Passes;
    hide Choosable;
    if k > 0 {
      ColdSearchDescends(k - 1, n, curves, cfg);
    }
  }

  /** When every trial passes it the search is a random walk: the word held is always the one tried last. */
  lemma {:induction false} HotSearchWalks(k: nat, n: nat, curves: seq<Curve>, cfg: Settings)
    requires n >= 2 && forall i: nat :: i < k ==> cfg.uphill(i)
    ensures var a := After(k, n, curves, cfg); |a.tried| > 0 && a.word == a.tried[|a.tried| - 1]
  {
    hide Cost;
    hide Passes;
    hide Choosable;
    if k > 0 {
      HotSearchWalks(k - 1, n, curves, cfg);
    }
  }

  /** A search that is stuck stays as it is. */
  lemma {:induction false} StuckStays(k: nat, l: nat, n: nat, curves: seq<Curve>, cfg: Settings)
    requires n >= 2 && k <= l && After(k, n, curves, cfg).stuck
    ensures After(l, n, curves, cfg) == After(k, n, curves, cfg)
    decreases l
  {
    hide Cost;
    hide Passes;
    hide Choosable;
    if k < l {
      StuckStays(k, l - 1, n, curves, cfg);
    }
  }

  // ---------------------------------------------------------------- when the metric is the area

  /** The k-th unit is i. */
  ghost function SlotOf(us: seq<int>, n: int, i: int): (k: int)
    requires ListsAll(us, n) && 0 <= i < n
    ensures 0 <= k < |us| && us[k] == i
  {
    assert i in us;
    var k :| 0 <= k < |us| && us[k] == i;
    k
  }

  /** The blocks in their slots, then the dead blocks. */
  lemma WritingExists(lay: Layout, us: seq<int>, n: nat) returns (u: seq<Rect>)
    requires LaysOut(lay.blocks, us) && ListsAll(us, n)
    ensures |u| == n + |lay.dead| && Written(u, n, 0, lay)
  {
    hide ListsAll;
    u := seq(n, i requires 0 <= i < n => lay.blocks[SlotOf(us, n, i)].rect) + lay.dead;
    forall k | 0 <= k < |lay.blocks| ensures 0 <= lay.blocks[k].unit < |u| && u[lay.blocks[k].unit] == lay.blocks[k].rect {
      OneSlot(us, n, k);
    }
    assert u[n + 0..n + 0 + |lay.dead|] == lay.dead;
  }

  lemma OneSlot(us: seq<int>, n: nat, k: nat)
    requires ListsAll(us, n) && k < |us|
    ensures 0 <= us[k] < n && SlotOf(us, n, us[k]) == k
  {
  }

  /** With area as the metric and no rim, a word costs the area of the smallest box its tree fits in. */
  lemma AreaCost(s: seq<int>, curves: seq<Curve>, n: nat, cfg: Settings, t: Tree, choice: seq<nat>)
    requires Parsed(s, curves, n, t) && ValidSettings(cfg) && !cfg.rim && (forall us :: cfg.metric(us) == TotalArea(us))
    requires IsChoice(t, choice)
    ensures Cost(s, curves, n, cfg) <= Width(t, choice) * Height(t, choice)
    ensures exists least :: IsChoice(t, least) && Cost(s, curves, n, cfg) == Width(t, least) * Height(t, least)
  {
    hide Run;
    hide Units;
    hide Summed;
    hide LeavesWellShaped;
    hide ListsAll;
    hide Arrange;
    hide Written;
    hide TotalArea;
    hide Width;
    hide Height;
    hide IsChoice;
    hide Cost;
    var k := ChoicesAreDominated(t, choice);
    var pos := FirstMinExists(t.curve, |t.curve|);
    var e := t.curve[pos];
    var box := Rect(0.0, 0.0, e.x, e.y);
    ArrangeCounts(t, pos, box, true, cfg.ratio);
    var lay := Arrange(t, pos, box, true, cfg.ratio);
    var us := WritingExists(lay, Units(t), n);
    assert FloorBy(us, t, n, cfg, pos, us);
    CostIsMetric(us, s, curves, n, cfg);
    WrittenTiles(us, n, t, pos, box, true, cfg.ratio);
    MinAreaIsOptimal(t, pos);
    assert Cost(s, curves, n, cfg) == TotalArea(us) == Area(e);
  }

  lemma {:induction false} FirstMinExists(c: Curve, k: nat) returns (pos: nat)
    requires 0 < k <= |c|
    ensures pos < k && (forall i :: 0 <= i < k ==> Area(c[pos]) <= Area(c[i])) && forall i :: 0 <= i < pos ==> Area(c[pos]) < Area(c[i])
  {
    hide Area;
    if k == 1 {
      pos := 0;
    } else {
      pos := FirstMinExists(c, k - 1);
      if Area(c[k - 1]) < Area(c[pos]) {
        pos := k - 1;
      }
    }
  }

  /** Then the best word's chip is no larger than any box that any orientations of the blocks need under any word tried. */
  lemma AnnealedAreaIsLeast(k: nat, n: nat, curves: seq<Curve>, cfg: Settings, s: seq<int>, t: Tree, choice: seq<nat>)
    requires n >= 2 && ValidSettings(cfg) && !cfg.rim && (forall us :: cfg.metric(us) == TotalArea(us))
    requires s in After(k, n, curves, cfg).tried && Parsed(s, curves, n, t) && IsChoice(t, choice)
    ensures Cost(After(k, n, curves, cfg).best, curves, n, cfg) <= Width(t, choice) * Height(t, choice)
  {
    hide After;
    hide Cost;
    hide Parsed;
    hide IsChoice;
    hide Width;
    hide Height;
    hide TotalArea;
    BestIsLeast(k, n, curves, cfg);
    AreaCost(s, curves, n, cfg, t, choice);
  }
}
