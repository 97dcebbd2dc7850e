/** Schedule construction: packing tasks on processors and reserving communication gaps (PGraph.cc). */
module Schedule {
  // ---------------------------------------------------------------- uses of a resource

  /** ResourceUse: a reservation of a resource from ts to te; the name is kept as the number it contains. */
  datatype Use = Use(id: int, ts: real, te: real)

  predicate Apart(a: Use, b: Use) {
    a.te <= b.ts || b.te <= a.ts
  }

  /** Positive, non-negative start, pairwise disjoint. */
  ghost predicate ValidUses(us: seq<Use>) {
    && (forall i :: 0 <= i < |us| ==> 0.0 <= us[i].ts < us[i].te)
    && (forall i, j :: 0 <= i < j < |us| ==> Apart(us[i], us[j]))
  }

  /** No use overlaps the interval from a to b. */
  ghost predicate Free(us: seq<Use>, a: real, b: real) {
    forall i :: 0 <= i < |us| ==> us[i].te <= a || us[i].ts >= b
  }

  ghost predicate IsNext(us: seq<Use>, t: real, n: int) {
    && -1 <= n < |us|
    && (n == -1 ==> forall i :: 0 <= i < |us| ==> us[i].ts < t)
    && (n != -1 ==>
      && us[n].ts >= t
      && (forall i :: 0 <= i < |us| && us[i].ts >= t ==> us[i].ts >= us[n].ts)
      && (forall i :: 0 <= i < n && us[i].ts >= t ==> us[i].ts > us[n].ts))
  }

  /** NextToStart: the first of the earliest uses starting at t or later, -1 when there is none. */
  method NextToStart(t: real, us: seq<Use>) returns (n: int)
    ensures IsNext(us, t, n)
  {
    n := -1;
    for x := 0 to |us|
      invariant -1 <= n < x && IsNext(us[..x], t, n)
    {
      if us[x].ts >= t && (n == -1 || us[n].ts > us[x].ts) {
        n := x;
      }
    }
    assert us[..|us|] == us;
  }

  /** Between the end of a use and the next start nothing is reserved. */
  lemma GapIsFree(us: seq<Use>, r: int, follow: int)
    requires ValidUses(us) && 0 <= r < |us| && IsNext(us, us[r].te, follow)
    ensures follow != -1 ==> us[follow].ts >= us[r].te && Free(us, us[r].te, us[follow].ts)
    ensures follow == -1 ==> forall b :: Free(us, us[r].te, b)
  {
    forall i | 0 <= i < |us| && us[i].ts < us[r].te ensures us[i].te <= us[r].te {
      assert i < r ==> Apart(us[i], us[r]);
      assert r < i ==> Apart(us[r], us[i]);
    }
  }

  lemma FreeInside(us: seq<Use>, a: real, b: real, c: real, d: real)
    requires Free(us, a, b) && a <= c && d <= b
    ensures Free(us, c, d)
  {
  }

  /** How many uses start at t or later: the gap search terminates because uses have positive length. */
  function Later(us: seq<Use>, t: real): nat {
    if us == [] then 0 else Later(us[..|us| - 1], t) + (if us[|us| - 1].ts >= t then 1 else 0)
  }

  lemma {:induction false} LaterShrinks(us: seq<Use>, t: real, t': real)
    requires t <= t'
    ensures Later(us, t') <= Later(us, t)
    ensures (exists i :: 0 <= i < |us| && t <= us[i].ts < t') ==> Later(us, t') < Later(us, t)
  {
    if us != [] {
      var k := |us| - 1;
      LaterShrinks(us[..k], t, t');
      if i :| 0 <= i < k && t <= us[i].ts < t' {
        assert t <= us[..k][i].ts < t';
      }
    }
  }

  // ---------------------------------------------------------------- the widest gap

  /** Stands for the next start when there is none. */
  const FLT_MAX: real := 340282346638528859811704183484516925440.0

  /** The use NextToStart finds. */
  function NextIndex(us: seq<Use>, t: real): (n: int)
    ensures IsNext(us, t, n)
  {
    if us == [] then -1
    else
      var k := |us| - 1;
      var n := NextIndex(us[..k], t);
      if us[k].ts >= t && (n == -1 || us[n].ts > us[k].ts) then k else n
  }

  lemma OneNext(us: seq<Use>, t: real, n: int, n': int)
    requires IsNext(us, t, n) && IsNext(us, t, n')
    ensures n == n'
  {
  }

  /** Where the gap after use i ends. */
  function GapEnd(us: seq<Use>, i: int): real
    requires 0 <= i < |us|
  {
    var n := NextIndex(us, us[i].te);
    if n == -1 then FLT_MAX else us[n].ts
  }

  /** How much of the gap from t3 to t4 lies between t1 and t2. */
  function Room(t1: real, t2: real, t3: real, t4: real): real {
    var lo, hi := if t1 <= t3 then t3 else t1, if t4 <= t2 then t4 else t2;
    if lo <= hi then hi - lo else 0.0
  }

  /** The largest room after one of the first k uses. */
  function WidestUpTo(us: seq<Use>, k: nat, t1: real, t2: real): (w: real)
    requires k <= |us|
    ensures w >= 0.0
  {
    if k == 0 then 0.0
    else
      var w, r := WidestUpTo(us, k - 1, t1, t2), Room(t1, t2, us[k - 1].te, GapEnd(us, k - 1));
      if w < r then r else w
  }

  /** The space com_possible finds on a resource. */
  function Widest(us: seq<Use>, t1: real, t2: real): real {
    if us == [] then t2 - t1 else WidestUpTo(us, |us|, t1, t2)
  }

  lemma {:induction false} WidestBounds(us: seq<Use>, k: nat, t1: real, t2: real, i: nat)
    requires i < k <= |us|
    ensures Room(t1, t2, us[i].te, GapEnd(us, i)) <= WidestUpTo(us, k, t1, t2)
  {
    hide GapEnd;
    if i < k - 1 {
      WidestBounds(us, k - 1, t1, t2, i);
    }
  }

  lemma {:induction false} WidestIsRoom(us: seq<Use>, k: nat, t1: real, t2: real) returns (i: nat)
    requires k <= |us| && WidestUpTo(us, k, t1, t2) > 0.0
    ensures i < k && WidestUpTo(us, k, t1, t2) == Room(t1, t2, us[i].te, GapEnd(us, i))
  {
    hide GapEnd;
    i := k - 1;
    if WidestUpTo(us, k - 1, t1, t2) >= Room(t1, t2, us[k - 1].te, GapEnd(us, k - 1)) {
      i := WidestIsRoom(us, k - 1, t1, t2);
    }
  }

  /** A free interval inside the window that does not come before all uses, and not past the last use and FLT_MAX. */
  ghost predicate Fits(us: seq<Use>, t1: real, t2: real, a: real, b: real) {
    && t1 <= a <= b <= t2 && Free(us, a, b)
    && (us == [] || ((exists i :: 0 <= i < |us| && us[i].te <= a)
                     && (b <= FLT_MAX || exists i :: 0 <= i < |us| && us[i].ts >= b)))
  }

  /** The use that ends last among those that have ended by time a. */
  lemma {:induction false} LastEnded(us: seq<Use>, k: nat, a: real) returns (r: int)
    requires k <= |us|
    ensures -1 <= r < k && (r == -1 ==> forall i :: 0 <= i < k ==> us[i].te > a)
    ensures r >= 0 ==> us[r].te <= a && forall i :: 0 <= i < k && us[i].te <= a ==> us[i].te <= us[r].te
  {
    if k == 0 {
      r := -1;
    } else {
      r := LastEnded(us, k - 1, a);
      if us[k - 1].te <= a && (r == -1 || us[r].te < us[k - 1].te) {
        r := k - 1;
      }
    }
  }

  /** No interval that fits is longer than the widest gap. */
  lemma NothingWiderFits(us: seq<Use>, t1: real, t2: real, a: real, b: real)
    requires ValidUses(us) && Fits(us, t1, t2, a, b)
    ensures b - a <= Widest(us, t1, t2)
  {
    hide WidestUpTo;
    if us != [] && a < b {
      var r := LastEnded(us, |us|, a);
      GapCovers(us, a, b, r);
      WidestBounds(us, |us|, t1, t2, r);
    } else if us != [] {
      assert WidestUpTo(us, |us|, t1, t2) >= 0.0;
    }
  }

  lemma GapCovers(us: seq<Use>, a: real, b: real, r: int)
    requires ValidUses(us) && Free(us, a, b) && a < b && 0 <= r < |us|
    requires us[r].te <= a && forall i :: 0 <= i < |us| && us[i].te <= a ==> us[i].te <= us[r].te
    requires b <= FLT_MAX || exists i :: 0 <= i < |us| && us[i].ts >= b
    ensures us[r].te <= a && b <= GapEnd(us, r)
  {
    var n := NextIndex(us, us[r].te);
    if n != -1 {
      assert us[n].te > us[n].ts >= us[r].te;
    }
  }

  /** The widest gap is there: an interval of that length fits. */
  lemma WidestFits(us: seq<Use>, t1: real, t2: real) returns (start: real)
    requires ValidUses(us) && t1 <= t2
    ensures Widest(us, t1, t2) >= 0.0
    ensures Widest(us, t1, t2) > 0.0 ==> Fits(us, t1, t2, start, start + Widest(us, t1, t2))
  {
    hide WidestUpTo;
    hide ValidUses;
    start := t1;
    if us != [] && Widest(us, t1, t2) > 0.0 {
      var i := WidestIsRoom(us, |us|, t1, t2);
      start := if t1 <= us[i].te then us[i].te else t1;
      RoomFits(us, t1, t2, i, start);
    }
  }

  lemma RoomFits(us: seq<Use>, t1: real, t2: real, i: int, start: real)
    requires ValidUses(us) && 0 <= i < |us| && start == if t1 <= us[i].te then us[i].te else t1
    ensures var room := Room(t1, t2, us[i].te, GapEnd(us, i)); room > 0.0 ==> Fits(us, t1, t2, start, start + room)
  {
    hide ValidUses;
    var n := NextIndex(us, us[i].te);
    GapIsFree(us, i, n);
    var end := start + Room(t1, t2, us[i].te, GapEnd(us, i));
    if start < end {
      FreeInside(us, us[i].te, GapEnd(us, i), start, end);
      assert n != -1 ==> us[n].ts >= end;
    }
  }

  /** A gap inside the window is no wider than the window. */
  lemma WidestInWindow(us: seq<Use>, t1: real, t2: real)
    requires ValidUses(us) && t1 <= t2
    ensures 0.0 <= Widest(us, t1, t2) <= t2 - t1
  {
    hide Widest;
    hide ValidUses;
    var start := WidestFits(us, t1, t2);
  }

  /** What is free before the first use. */
  function LeadingRoom(us: seq<Use>, t1: real, t2: real): real {
    var n := NextIndex(us, 0.0);
    if n == -1 then 0.0 else Room(t1, t2, t1, us[n].ts)
  }

  ghost predicate IsLargestFree(us: seq<Use>, t1: real, t2: real, space: real) {
    forall a, b :: t1 <= a <= b <= t2 && Free(us, a, b) ==> b - a <= space
  }

  /** The search looks for the largest open space in the window, but it only ever looks after uses: it finds the largest
      exactly when the open space before the first use is no larger. */
  lemma WidestIsLargestIff(us: seq<Use>, t1: real, t2: real)
    requires ValidUses(us) && 0.0 <= t1 <= t2 <= FLT_MAX
    ensures IsLargestFree(us, t1, t2, Widest(us, t1, t2)) <==> LeadingRoom(us, t1, t2) <= Widest(us, t1, t2)
  {
    hide Widest;
    var n := NextIndex(us, 0.0);
    WidestInWindow(us, t1, t2);
    if LeadingRoom(us, t1, t2) > 0.0 {
      assert Free(us, t1, t1 + LeadingRoom(us, t1, t2));
    }
    if LeadingRoom(us, t1, t2) <= Widest(us, t1, t2) {
      forall a, b | t1 <= a <= b <= t2 && Free(us, a, b) ensures b - a <= Widest(us, t1, t2) {
        FreeIsFoundOrLeads(us, t1, t2, a, b);
      }
    }
  }

  lemma FreeIsFoundOrLeads(us: seq<Use>, t1: real, t2: real, a: real, b: real)
    requires ValidUses(us) && 0.0 <= t1 <= a <= b <= t2 <= FLT_MAX && Free(us, a, b)
    ensures b - a <= Widest(us, t1, t2) || b - a <= LeadingRoom(us, t1, t2)
  {
    hide Widest;
    WidestInWindow(us, t1, t2);
    if us == [] || exists i :: 0 <= i < |us| && us[i].te <= a {
      NothingWiderFits(us, t1, t2, a, b);
    } else {
      assert us[0].ts >= 0.0;
    }
  }

  /** One use from 10 to 20 and the window from 0 to 5: all of it is open, and nothing is found. */
  lemma LeadingGapIsMissed()
    ensures var us := [Use(0, 10.0, 20.0)];
            ValidUses(us) && Free(us, 0.0, 5.0) && Widest(us, 0.0, 5.0) == 0.0
  {
    var us := [Use(0, 10.0, 20.0)];
    assert us[..0] == [];
    assert GapEnd(us, 0) == FLT_MAX;
    assert WidestUpTo(us, 0, 0.0, 5.0) == 0.0;
    assert Room(0.0, 5.0, 20.0, FLT_MAX) == 0.0;
  }

  // ---------------------------------------------------------------- the search of com_possible

  /** Every use that starts before t has been looked at. */
  ghost predicate Searched(us: seq<Use>, t1: real, t2: real, t: real, space: real) {
    forall i :: 0 <= i < |us| && us[i].ts < t ==> Room(t1, t2, us[i].te, GapEnd(us, i)) <= space
  }

  /** The gap remembered so far. */
  ghost predicate Remembered(us: seq<Use>, t1: real, t2: real, start: real, space: real) {
    && 0.0 <= space <= t2 - t1
    && (space > 0.0 ==> Fits(us, t1, t2, start, start + space))
  }

  /** The loop of com_possible over one communication resource: the widest gap, and where it starts. */
  method WidestGap(us: seq<Use>, t1: real, t2: real) returns (start: real, space: real)
    requires ValidUses(us) && t1 <= t2
    ensures space == Widest(us, t1, t2)
    ensures space > 0.0 ==> Fits(us, t1, t2, start, start + space)
  {
    hide Widest;
    hide Fits;
    hide GapEnd;
    hide Room;
    start, space := 0.0, 0.0;
    var ru := NextToStart(0.0, us);
    FirstIsFirst(us, ru);
    if ru == -1 {
      start, space := t1, t2 - t1;
      NothingReserved(t1, t2);
    }
    while ru != -1
      invariant us != [] ==> -1 <= ru < |us| && Remembered(us, t1, t2, start, space)
      invariant us != [] ==> if ru == -1 then forall t :: Searched(us, t1, t2, t, space)
                             else Searched(us, t1, t2, us[ru].ts, space)
      invariant us == [] ==> ru == -1 && space == Widest(us, t1, t2) && (space > 0.0 ==> Fits(us, t1, t2, start, start + space))
      decreases if ru == -1 then 0 else 1 + Later(us, us[ru].ts)
    {
      var follow := NextToStart(us[ru].te, us);
      var t3 := us[ru].te;
      var t4 := if follow != -1 then us[follow].ts else FLT_MAX;
      GapFound(us, t1, t2, ru, follow, t4);
      ghost var before := space;
      start, space := BetterGap(us, t1, t2, t3, t4, start, space);
      SearchGoesOn(us, t1, t2, ru, follow, before, space);
      if follow != -1 {
        LaterShrinks(us, us[ru].ts, us[follow].ts);
        assert us[ru].ts <= us[ru].ts < us[follow].ts;
      }
      ru := follow;
    }
    if us != [] {
      SearchEnds(us, t1, t2, start, space);
    }
  }

  lemma FirstIsFirst(us: seq<Use>, ru: int)
    requires ValidUses(us) && IsNext(us, 0.0, ru)
    ensures ru == -1 <==> us == []
    ensures ru != -1 ==> forall i :: 0 <= i < |us| ==> us[i].ts >= us[ru].ts
  {
    if us != [] {
      assert us[0].ts >= 0.0;
    }
  }

  lemma NothingReserved(t1: real, t2: real)
    requires t1 <= t2
    ensures t2 - t1 == Widest([], t1, t2) && Fits([], t1, t2, t1, t1 + (t2 - t1))
  {
  }

  lemma GapFound(us: seq<Use>, t1: real, t2: real, ru: int, follow: int, t4: real)
    requires ValidUses(us) && 0 <= ru < |us| && IsNext(us, us[ru].te, follow)
    requires t4 == if follow != -1 then us[follow].ts else FLT_MAX
    ensures Free(us, us[ru].te, t4) && t4 == GapEnd(us, ru)
    ensures forall a, b :: us[ru].te <= a <= b <= t4 && t1 <= a && b <= t2 ==> Fits(us, t1, t2, a, b)
  {
    GapIsFree(us, ru, follow);
    OneNext(us, us[ru].te, follow, NextIndex(us, us[ru].te));
  }

  /** All uses before the one that follows have been looked at. */
  lemma SearchGoesOn(us: seq<Use>, t1: real, t2: real, ru: int, follow: int, before: real, space: real)
    requires ValidUses(us) && 0 <= ru < |us| && IsNext(us, us[ru].te, follow) && before <= space
    requires Searched(us, t1, t2, us[ru].ts, before) && Room(t1, t2, us[ru].te, GapEnd(us, ru)) <= space
    ensures if follow == -1 then forall t :: Searched(us, t1, t2, t, space) else Searched(us, t1, t2, us[follow].ts, space)
  {
    hide GapEnd;
    hide Room;
    forall i | 0 <= i < |us| && (follow == -1 || us[i].ts < us[follow].ts)
      ensures Room(t1, t2, us[i].te, GapEnd(us, i)) <= space
    {
      assert us[i].ts < us[ru].te;
      assert i < ru ==> Apart(us[i], us[ru]);
      assert ru < i ==> Apart(us[ru], us[i]);
    }
  }

  lemma SearchEnds(us: seq<Use>, t1: real, t2: real, start: real, space: real)
    requires us != [] && ValidUses(us) && Remembered(us, t1, t2, start, space) && forall t :: Searched(us, t1, t2, t, space)
    ensures space == Widest(us, t1, t2)
    ensures space > 0.0 ==> Fits(us, t1, t2, start, start + space)
  {
    hide ValidUses;
    hide GapEnd;
    hide Room;
    hide Fits;
    if space > 0.0 {
      NothingWiderFits(us, t1, t2, start, start + space);
    }
    if Widest(us, t1, t2) > 0.0 {
      var i := WidestIsRoom(us, |us|, t1, t2);
      assert Searched(us, t1, t2, us[i].ts + 1.0, space);
    }
    assert WidestUpTo(us, |us|, t1, t2) >= 0.0;
  }

  /** The four cases of one gap from t3 to t4 against the wanted window from t1 to t2. */
  method BetterGap(ghost us: seq<Use>, t1: real, t2: real, t3: real, t4: real, start: real, space: real)
    returns (start': real, space': real)
    requires t1 <= t2 && Remembered(us, t1, t2, start, space)
    requires forall a, b :: t3 <= a <= b <= t4 && t1 <= a && b <= t2 ==> Fits(us, t1, t2, a, b)
    ensures Remembered(us, t1, t2, start', space')
    ensures space' == if space < Room(t1, t2, t3, t4) then Room(t1, t2, t3, t4) else space
  {
    hide Fits;
    start', space' := start, space;
    if t3 <= t1 && t4 >= t2 {
      start', space' := t1, t2 - t1;
    } else if t3 >= t1 && t4 <= t2 {
      if space < t4 - t3 {
        start', space' := t3, t4 - t3;
      }
    } else if t1 <= t3 <= t2 {
      if space < t2 - t3 {
        start', space' := t3, t2 - t3;
      }
    } else if t1 <= t4 <= t2 {
      if space < t4 - t1 {
        start', space' := t1, t4 - t1;
      }
    }
  }

  // ---------------------------------------------------------------- reservations

  ghost predicate AllValid(coms: seq<seq<Use>>) {
    forall k :: 0 <= k < |coms| ==> ValidUses(coms[k])
  }

  /** One new use u, of at least unit length and inside [t1, t2], on resource k. */
  ghost predicate ReservedAt(before: seq<seq<Use>>, after: seq<seq<Use>>, k: int, u: Use, id: int, t1: real, t2: real) {
    && 0 <= k < |before| && u.id == id && t1 <= u.ts && u.te <= t2 && u.ts + 1.0 <= u.te
    && after == before[k := before[k] + [u]]
  }

  ghost predicate Reserved(before: seq<seq<Use>>, after: seq<seq<Use>>, id: int, t1: real, t2: real) {
    exists k: int, u: Use :: ReservedAt(before, after, k, u, id, t1, t2)
  }

  lemma ReserveKeepsValid(us: seq<Use>, u: Use)
    requires ValidUses(us) && 0.0 <= u.ts < u.te && Free(us, u.ts, u.te)
    ensures ValidUses(us + [u])
  {
  }

  lemma FillFactor(f: real, space: real)
    requires 0.0 < f <= 1.0 && space >= 0.0
    ensures 0.0 <= f * space <= space
  {
  }

  /** The data that resource k could carry. */
  function Offer(coms: seq<seq<Use>>, rates: seq<real>, t1: real, t2: real, k: int): real
    requires 0 <= k < |coms| == |rates|
  {
    Widest(coms[k], t1, t2) * rates[k]
  }

  /** The first resource with the largest positive offer, -1 when no offer is positive. */
  function Selected(coms: seq<seq<Use>>, rates: seq<real>, t1: real, t2: real, m: nat): (k: int)
    requires m <= |coms| == |rates|
    ensures -1 <= k < m
  {
    if m == 0 then -1
    else
      var k := Selected(coms, rates, t1, t2, m - 1);
      if Offer(coms, rates, t1, t2, m - 1) > (if k == -1 then 0.0 else Offer(coms, rates, t1, t2, k)) then m - 1 else k
  }

  lemma {:induction false} SelectedLeads(coms: seq<seq<Use>>, rates: seq<real>, t1: real, t2: real, m: nat)
    requires m <= |coms| == |rates|
    ensures var k := Selected(coms, rates, t1, t2, m);
            && (k == -1 ==> forall j :: 0 <= j < m ==> Offer(coms, rates, t1, t2, j) <= 0.0)
            && (k != -1 ==> Offer(coms, rates, t1, t2, k) > 0.0 && forall j :: 0 <= j < m ==>
                 && Offer(coms, rates, t1, t2, j) <= Offer(coms, rates, t1, t2, k)
                 && (j < k ==> Offer(coms, rates, t1, t2, j) < Offer(coms, rates, t1, t2, k)))
  {
    hide Offer;
    if m > 0 {
      SelectedLeads(coms, rates, t1, t2, m - 1);
    }
  }

  lemma SelectedStep(coms: seq<seq<Use>>, rates: seq<real>, t1: real, t2: real, m: nat)
    requires m < |coms| == |rates|
    ensures Selected(coms, rates, t1, t2, 0) == -1
    ensures var k := Selected(coms, rates, t1, t2, m);
            Selected(coms, rates, t1, t2, m + 1)
            == if Offer(coms, rates, t1, t2, m) > (if k == -1 then 0.0 else Offer(coms, rates, t1, t2, k)) then m else k
  {
    hide Offer;
  }

  lemma NothingSelected(coms: seq<seq<Use>>, rates: seq<real>, t1: real, t2: real)
    requires |coms| == |rates|
    ensures Selected(coms, rates, t1, t2, 0) == -1
  {
  }

  /** The selected resource has room for a reservation of unit length. */
  predicate HasRoom(coms: seq<seq<Use>>, rates: seq<real>, t1: real, t2: real, fill: real)
    requires |coms| == |rates|
  {
    var k := Selected(coms, rates, t1, t2, |coms|);
    k != -1 && fill * Widest(coms[k], t1, t2) >= 1.0
  }

  ghost predicate PositiveRates(rates: seq<real>) {
    forall k :: 0 <= k < |rates| ==> rates[k] > 0.0
  }

  /** The fill part of the selected resource's widest gap is reserved from its start. */
  ghost predicate Takes(before: seq<seq<Use>>, after: seq<seq<Use>>, rates: seq<real>, id: int, t1: real, t2: real, fill: real,
                        start: real, length: real)
    requires |before| == |rates|
  {
    var k := Selected(before, rates, t1, t2, |before|);
    && k != -1 && Fits(before[k], t1, t2, start, start + Widest(before[k], t1, t2))
    && length == fill * Widest(before[k], t1, t2)
    && after == before[k := before[k] + [Use(id, start, start + length)]]
  }

  /** com_possible: a positive answer, the largest offer, means that a free interval of at least unit length between t1
      and t2 has been reserved on the resource that makes it; otherwise nothing changed. Reservations stay disjoint. */
  method ComPossible(id: int, t1: real, t2: real, coms: array<seq<Use>>, rates: seq<real>, fill: real) returns (size: real)
    requires |rates| == coms.Length && 0.0 <= t1 <= t2 && 0.0 < fill <= 1.0
    requires AllValid(coms[..]) && PositiveRates(rates)
    modifies coms
    ensures AllValid(coms[..])
    ensures size > 0.0 <==> HasRoom(old(coms[..]), rates, t1, t2, fill)
    ensures size > 0.0 ==>
      && size == Offer(old(coms[..]), rates, t1, t2, Selected(old(coms[..]), rates, t1, t2, |rates|))
      && Reserved(old(coms[..]), coms[..], id, t1, t2)
      && exists start, length :: Takes(old(coms[..]), coms[..], rates, id, t1, t2, fill, start, length)
    ensures size <= 0.0 ==> size == 0.0 && coms[..] == old(coms[..])
  {
    hide ValidUses;
    hide Widest;
    hide Fits;
    ghost var before := coms[..];
    var selct, most, start, space := -1, 0.0, 0.0, 0.0;
    NothingSelected(before, rates, t1, t2);
    for x := 0 to coms.Length
      invariant coms[..] == before && selct == Selected(before, rates, t1, t2, x)
      invariant most >= 0.0 && most == if selct == -1 then 0.0 else Offer(before, rates, t1, t2, selct)
      invariant selct >= 0 ==> Chosen(before[selct], t1, t2, start, space)
    {
      SelectedStep(before, rates, t1, t2, x);
      assert ValidUses(before[x]);
      var s, sp := WidestGap(coms[x], t1, t2);
      PositiveRate(sp, rates[x]);
      if sp * rates[x] > most {
        most, selct, start, space := sp * rates[x], x, s, sp;
      }
    }
    size := most;
    SelectedLeads(before, rates, t1, t2, |rates|);
    if selct >= 0 {
      var length := fill * space;
      if length < 1.0 {
        return 0.0;
      }
      var u := Use(id, start, start + length);
      ReservePart(before, rates, selct, id, t1, t2, start, space, fill, length);
      coms[selct] := coms[selct] + [u];
      assert coms[..] == before[selct := before[selct] + [u]];
    }
  }

  ghost predicate Chosen(us: seq<Use>, t1: real, t2: real, start: real, space: real) {
    space == Widest(us, t1, t2) && Fits(us, t1, t2, start, start + space)
  }

  /** What the reservation on the selected resource amounts to. */
  lemma ReservePart(coms: seq<seq<Use>>, rates: seq<real>, k: int, id: int, t1: real, t2: real, start: real, space: real,
                    fill: real, length: real)
    requires |coms| == |rates| && 0 <= k < |coms| && k == Selected(coms, rates, t1, t2, |coms|) && AllValid(coms) && 0.0 <= t1
    requires Chosen(coms[k], t1, t2, start, space) && 0.0 < fill <= 1.0 && length == fill * space >= 1.0
    ensures var after := coms[k := coms[k] + [Use(id, start, start + length)]];
            && AllValid(after) && Reserved(coms, after, id, t1, t2)
            && Takes(coms, after, rates, id, t1, t2, fill, start, length)
  {
    hide ValidUses;
    hide Widest;
    hide Selected;
    var u := Use(id, start, start + length);
    PositiveRate(space, fill);
    FillFactor(fill, space);
    FreeInside(coms[k], start, start + space, start, start + length);
    ReserveKeepsValid(coms[k], u);
    assert ReservedAt(coms, coms[k := coms[k] + [u]], k, u, id, t1, t2);
  }

  lemma PositiveRate(space: real, rate: real)
    requires rate > 0.0
    ensures space * rate > 0.0 ==> space > 0.0
  {
  }

  // ---------------------------------------------------------------- when there is room

  lemma LargerProduct(x: real, y: real, p: real, q: real)
    requires p > 0.0 && q >= p && y >= 0.0 && x * p >= y * q
    ensures x >= y
  {
    assert y * (q - p) >= 0.0;
    assert y * (q - p) == y * q - y * p;
    Falling(x - y, p);
    assert (x - y) * p == x * p - y * p;
  }

  lemma Falling(d: real, p: real)
    requires p > 0.0
    ensures d < 0.0 ==> d * p < 0.0
  {
  }

  /** A resource that no other outpaces, with a gap that fits and is long enough, makes the answer positive. */
  lemma FastestHasRoom(coms: seq<seq<Use>>, rates: seq<real>, t1: real, t2: real, fill: real, k: int, a: real, b: real)
    requires |coms| == |rates| && AllValid(coms) && PositiveRates(rates) && 0.0 <= t1 <= t2 && fill > 0.0
    requires 0 <= k < |coms| && forall j :: 0 <= j < |rates| ==> rates[j] <= rates[k]
    requires Fits(coms[k], t1, t2, a, b) && fill * (b - a) >= 1.0
    ensures HasRoom(coms, rates, t1, t2, fill)
  {
    hide Widest;
    hide Fits;
    hide ValidUses;
    hide Selected;
    NothingWiderFits(coms[k], t1, t2, a, b);
    LongEnough(fill, b - a, Widest(coms[k], t1, t2));
    SelectedLeads(coms, rates, t1, t2, |coms|);
    var m := Selected(coms, rates, t1, t2, |coms|);
    Outpaced(fill, Widest(coms[k], t1, t2), rates[k], Offer(coms, rates, t1, t2, k));
    assert m != -1;
    Outpaces(fill, Widest(coms[k], t1, t2), rates[k], Offer(coms, rates, t1, t2, k), Widest(coms[m], t1, t2), rates[m],
             Offer(coms, rates, t1, t2, m));
  }

  lemma Outpaced(fill: real, w: real, q: real, offer: real)
    requires w > 0.0 && q > 0.0 && offer == w * q
    ensures offer > 0.0
  {
  }

  lemma Outpaces(fill: real, w: real, q: real, offer: real, v: real, p: real, best: real)
    requires fill > 0.0 && fill * w >= 1.0 && w > 0.0 && 0.0 < p <= q && offer == w * q && best == v * p && best >= offer
    ensures fill * v >= 1.0
  {
    LargerProduct(v, w, p, q);
    LongEnough(fill, w, v);
  }

  lemma LongEnough(fill: real, w: real, v: real)
    requires fill > 0.0 && fill * w >= 1.0 && v >= w
    ensures w > 0.0 && fill * v >= 1.0
  {
    assert fill * (v - w) >= 0.0;
    PositiveRate(w, fill);
  }

  /** So an unused resource that no other outpaces is enough when the window is long enough. */
  lemma UnusedHasRoom(coms: seq<seq<Use>>, rates: seq<real>, t1: real, t2: real, fill: real, k: int)
    requires |coms| == |rates| && AllValid(coms) && PositiveRates(rates) && 0.0 <= t1 <= t2 && fill > 0.0
    requires 0 <= k < |coms| && coms[k] == [] && forall j :: 0 <= j < |rates| ==> rates[j] <= rates[k]
    requires fill * (t2 - t1) >= 1.0
    ensures HasRoom(coms, rates, t1, t2, fill)
  {
    hide HasRoom;
    FastestHasRoom(coms, rates, t1, t2, fill, k, t1, t2);
  }

  /** When all resources run at the same rate, the answer is positive exactly when some long enough interval fits. */
  lemma SameRateRoomIff(coms: seq<seq<Use>>, rates: seq<real>, t1: real, t2: real, fill: real)
    requires |coms| == |rates| && AllValid(coms) && PositiveRates(rates) && 0.0 <= t1 <= t2 && fill > 0.0
    requires forall j, k :: 0 <= j < k < |rates| ==> rates[j] == rates[k]
    ensures HasRoom(coms, rates, t1, t2, fill)
       <==> exists k, a, b :: 0 <= k < |coms| && Fits(coms[k], t1, t2, a, b) && fill * (b - a) >= 1.0
  {
    hide Widest;
    hide Fits;
    hide ValidUses;
    if HasRoom(coms, rates, t1, t2, fill) {
      var k := Selected(coms, rates, t1, t2, |coms|);
      var w := Widest(coms[k], t1, t2);
      var start := WidestFits(coms[k], t1, t2);
      SelectedLeads(coms, rates, t1, t2, |coms|);
      PositiveRate(w, rates[k]);
      assert Fits(coms[k], t1, t2, start, start + w) && fill * ((start + w) - start) >= 1.0;
    }
    if k, a, b :| 0 <= k < |coms| && Fits(coms[k], t1, t2, a, b) && fill * (b - a) >= 1.0 {
      FastestHasRoom(coms, rates, t1, t2, fill, k, a, b);
    }
  }

  /** In general it is not: a fast resource with a short gap is selected although a slow one has room. */
  lemma FastResourceHidesRoom()
    ensures var coms, rates := [[Use(0, 0.0, 9.5)], []], [100.0, 4.0];
            && AllValid(coms) && Fits(coms[1], 0.0, 10.0, 0.0, 10.0) && !HasRoom(coms, rates, 0.0, 10.0, 1.0)
  {
    var us := [Use(0, 0.0, 9.5)];
    var coms, rates := [us, []], [100.0, 4.0];
    assert us[..0] == [];
    assert GapEnd(us, 0) == FLT_MAX;
    assert Room(0.0, 10.0, 9.5, FLT_MAX) == 0.5;
    assert WidestUpTo(us, 0, 0.0, 10.0) == 0.0;
    assert WidestUpTo(us, 1, 0.0, 10.0) == 0.5;
    assert Offer(coms, rates, 0.0, 10.0, 0) == 50.0;
    assert Offer(coms, rates, 0.0, 10.0, 1) == 40.0;
    assert Selected(coms, rates, 0.0, 10.0, 2) == 0;
  }
}
