/** top_sort: the recursion, and why its result is a topological order of everything reachable (Graph.cc). */
module TopSort {
  import opened Digraphs
  import opened Traversal

  // ---------------------------------------------------------------- vertices that could be appended

  /** An unvisited vertex all of whose predecessors have been visited. */
  ghost predicate Ready(g: Digraph, reverse: bool, visited: seq<bool>, v: int) {
    && IsVertex(g, v) && |visited| == |g.vertices| && !visited[v]
    && forall u :: Arc(g, reverse, u, v) ==> Marked(visited, u)
  }

  /** A call on branch leaves no vertex ready that was not ready before, and branch not ready either. */
  ghost predicate LeavesNothingReady(g: Digraph, reverse: bool, branch: int, before: seq<bool>, after: seq<bool>) {
    forall v :: Ready(g, reverse, after, v) ==> Ready(g, reverse, before, v) && v != branch
  }

  /** All predecessors of each listed vertex were visited before, or are listed before it. */
  ghost predicate OrderedFrom(g: Digraph, reverse: bool, before: seq<bool>, added: seq<int>) {
    forall k, u :: 0 <= k < |added| && Arc(g, reverse, u, added[k]) ==> Marked(before, u) || u in added[..k]
  }

  /** Newly visited vertices are reachable from the branch. */
  ghost predicate OnlyReachable(g: Digraph, reverse: bool, branch: int, before: seq<bool>, after: seq<bool>) {
    && Grows(before, after) && |after| == |g.vertices|
    && forall v :: Fresh(before, after, v) ==> Reachable(g, reverse, branch, v)
  }

  ghost predicate Enters(g: Digraph, reverse: bool, branch: int, visited: seq<bool>) {
    forall u :: Arc(g, reverse, u, branch) ==> Marked(visited, u)
  }

  /** What one call of top_sort_recurse does. */
  ghost predicate Appends(g: Digraph, reverse: bool, branch: int, before: seq<bool>, after: seq<bool>, added: seq<int>) {
    && OnlyReachable(g, reverse, branch, before, after)
    && LeavesNothingReady(g, reverse, branch, before, after)
    && OrderedFrom(g, reverse, before, added)
    && if Enters(g, reverse, branch, before) then Marked(after, branch) && ListsNew(branch, before, after, added)
       else after == before && added == []
  }

  /** The state between two iterations of the loop over the successors. */
  ghost predicate Appending(g: Digraph, reverse: bool, branch: int, x: int, before: seq<bool>, now: seq<bool>, added: seq<int>)
    requires IsVertex(g, branch) && 0 <= x <= |Next(g, branch, reverse)|
  {
    && OnlyReachable(g, reverse, branch, before, now) && Marked(now, branch)
    && (forall v :: Ready(g, reverse, now, v) ==>
         (Ready(g, reverse, before, v) && v != branch) || v in Next(g, branch, reverse)[x..])
    && OrderedFrom(g, reverse, before, added)
    && ListsNew(branch, before, now, added)
  }

  lemma AppendBranch(g: Digraph, reverse: bool, branch: int, before: seq<bool>)
    requires IsVertex(g, branch) && |before| == |g.vertices| && Enters(g, reverse, branch, before)
    ensures Appending(g, reverse, branch, 0, before, before[branch := true], [branch])
  {
    hide Next;
    hide Reachable;
    ReachesItself(g, reverse, branch);
    ListBranch(branch, before);
    var now, next := before[branch := true], Next(g, branch, reverse);
    assert next[0..] == next;
    forall v | Ready(g, reverse, now, v) && v !in next ensures Ready(g, reverse, before, v) && v != branch {
      forall u | Arc(g, reverse, u, v) ensures Marked(before, u) {
        assert Marked(now, u);
      }
    }
  }

  lemma AppendSkip(g: Digraph, reverse: bool, branch: int, x: int, before: seq<bool>, now: seq<bool>, added: seq<int>)
    requires IsVertex(g, branch) && 0 <= x < |Next(g, branch, reverse)|
    requires Appending(g, reverse, branch, x, before, now, added) && Marked(now, Next(g, branch, reverse)[x])
    ensures Appending(g, reverse, branch, x + 1, before, now, added)
  {
    hide Next;
    hide Reachable;
    hide ListsNew;
    hide OrderedFrom;
    hide OnlyReachable;
    var next := Next(g, branch, reverse);
    forall v | Ready(g, reverse, now, v) && v in next[x..] ensures v in next[x + 1..] {
    }
  }

  lemma AppendChild(g: Digraph, reverse: bool, branch: int, x: int, before: seq<bool>, now: seq<bool>, after: seq<bool>,
                    a: seq<int>, b: seq<int>)
    requires Consistent(g) && IsVertex(g, branch) && 0 <= x < |Next(g, branch, reverse)|
    requires Appending(g, reverse, branch, x, before, now, a)
    requires var child := Next(g, branch, reverse)[x];
             0 <= child < |now| && !now[child] && Appends(g, reverse, child, now, after, b)
    ensures Appending(g, reverse, branch, x + 1, before, after, a + b)
  {
    hide Next;
    hide Reachable;
    hide ListsNew;
    hide OrderedFrom;
    hide Ready;
    hide Consistent;
    hide Enters;
    hide Arc;
    var next := Next(g, branch, reverse);
    var child := next[x];
    NextInRange(g, branch, reverse);
    forall v | Fresh(before, after, v) ensures Reachable(g, reverse, branch, v) {
      if !now[v] {
        assert Fresh(now, after, v);
        ReachesFromNext(g, reverse, branch, child, v);
      } else {
        assert Fresh(before, now, v);
      }
    }
    forall v | Ready(g, reverse, after, v) && v in next[x..] ensures v in next[x + 1..] {
    }
    if Enters(g, reverse, child, now) {
      ListChild(branch, child, before, now, after, a, b);
      ListedIn(branch, before, now, a);
      OrderConcat(g, reverse, before, now, a, b);
    } else {
      assert a + b == a;
    }
  }

  lemma OrderConcat(g: Digraph, reverse: bool, before: seq<bool>, now: seq<bool>, a: seq<int>, b: seq<int>)
    requires OrderedFrom(g, reverse, before, a) && OrderedFrom(g, reverse, now, b)
    requires Grows(before, now) && forall v :: Fresh(before, now, v) ==> v in a
    ensures OrderedFrom(g, reverse, before, a + b)
  {
    hide Arc;
    var c := a + b;
    forall k, u | 0 <= k < |c| && Arc(g, reverse, u, c[k]) ensures Marked(before, u) || u in c[..k] {
      if k < |a| {
        assert c[..k] == a[..k];
      } else {
        assert c[..k] == a + b[..k - |a|];
        if Marked(now, u) && !Marked(before, u) {
          assert Fresh(before, now, u) && u in a;
        }
      }
    }
  }

  lemma ListedIn(branch: int, before: seq<bool>, now: seq<bool>, a: seq<int>)
    requires ListsNew(branch, before, now, a)
    ensures forall v :: Fresh(before, now, v) ==> v in a
  {
  }

  lemma AppendEnd(g: Digraph, reverse: bool, branch: int, before: seq<bool>, now: seq<bool>, added: seq<int>)
    requires IsVertex(g, branch) && Enters(g, reverse, branch, before)
    requires Appending(g, reverse, branch, |Next(g, branch, reverse)|, before, now, added)
    ensures Appends(g, reverse, branch, before, now, added)
  {
    hide Next;
    hide Reachable;
    hide ListsNew;
    hide OrderedFrom;
    hide OnlyReachable;
    hide Enters;
  }

  lemma AppendNothing(g: Digraph, reverse: bool, branch: int, before: seq<bool>)
    requires IsVertex(g, branch) && |before| == |g.vertices| && !Enters(g, reverse, branch, before)
    ensures Appends(g, reverse, branch, before, before, [])
  {
    hide Reachable;
    hide Next;
  }

  /** The loop that stops exploring a path whose predecessors are not all visited yet. */
  method AllParentsVisited(g: Digraph, visited: array<bool>, branch: int, reverse: bool) returns (r: bool)
    requires Consistent(g) && visited.Length == |g.vertices| && IsVertex(g, branch)
    ensures r <==> Enters(g, reverse, branch, visited[..])
  {
    hide Consistent;
    hide Next;
    NextInRange(g, branch, !reverse);
    var parents := Next(g, branch, !reverse);
    for x := 0 to |parents|
      invariant forall k :: 0 <= k < x ==> Marked(visited[..], parents[k])
    {
      assert Arc(g, !reverse, branch, parents[x]);
      if !visited[parents[x]] {
        ArcReversed(g, !reverse, branch, parents[x]);
        assert Arc(g, reverse, parents[x], branch) && !Marked(visited[..], parents[x]);
        return false;
      }
    }
    forall u | Arc(g, reverse, u, branch) ensures Marked(visited[..], u) {
      ArcReversed(g, reverse, u, branch);
    }
    return true;
  }

  /** top_sort_recurse */
  method TopSortRecurse(g: Digraph, vec: seq<int>, visited: array<bool>, branch: int, reverse: bool) returns (vec': seq<int>)
    requires Consistent(g) && visited.Length == |g.vertices| && IsVertex(g, branch)
    modifies visited
    ensures vec <= vec' && Appends(g, reverse, branch, old(visited[..]), visited[..], vec'[|vec|..])
    decreases Unvisited(visited[..]), if visited[branch] then 1 else 0
  {
    hide Consistent;
    hide Appends;
    hide Appending;
    hide Enters;
    hide Next;
    hide Unvisited;
    ghost var before := visited[..];
    var all := AllParentsVisited(g, visited, branch, reverse);
    if !all {
      AppendNothing(g, reverse, branch, before);
      assert vec[|vec|..] == [];
      return vec;
    }
    visited[branch] := true;
    vec' := vec + [branch];
    ghost var marked := visited[..];
    assert marked == before[branch := true];
    assert vec'[|vec|..] == [branch];
    AppendBranch(g, reverse, branch, before);
    UnvisitedShrinks(before, marked);
    NextInRange(g, branch, reverse);
    var next := Next(g, branch, reverse);
    for x := 0 to |next|
      invariant vec <= vec' && Appending(g, reverse, branch, x, before, visited[..], vec'[|vec|..])
      invariant Grows(marked, visited[..])
    {
      ghost var now, sofar := visited[..], vec';
      ArcVertices(g, reverse, branch, next[x]);
      if !visited[next[x]] {
        UnvisitedShrinks(marked, now);
        vec' := TopSortRecurse(g, vec', visited, next[x], reverse);
        AppendedGrows(g, reverse, next[x], now, visited[..], vec'[|sofar|..]);
        AppendChild(g, reverse, branch, x, before, now, visited[..], sofar[|vec|..], vec'[|sofar|..]);
        assert vec'[|vec|..] == sofar[|vec|..] + vec'[|sofar|..];
      } else {
        AppendSkip(g, reverse, branch, x, before, now, vec'[|vec|..]);
      }
    }
    AppendEnd(g, reverse, branch, before, visited[..], vec'[|vec|..]);
  }

  lemma AppendedGrows(g: Digraph, reverse: bool, branch: int, before: seq<bool>, after: seq<bool>, added: seq<int>)
    requires Appends(g, reverse, branch, before, after, added)
    ensures Grows(before, after) && |after| == |g.vertices|
  {
  }

  // ---------------------------------------------------------------- which vertices take part

  ghost predicate FromAny(g: Digraph, reverse: bool, starts: seq<int>, v: int) {
    exists k :: 0 <= k < |starts| && Reachable(g, reverse, starts[k], v)
  }

  ghost predicate Starts(g: Digraph, starts: seq<int>) {
    forall k :: 0 <= k < |starts| ==> IsVertex(g, starts[k])
  }

  /** After the first x starts: closed under arcs, nothing unreachable. */
  ghost predicate MarkedFrom(g: Digraph, reverse: bool, starts: seq<int>, x: int, visited: seq<bool>)
    requires 0 <= x <= |starts|
  {
    && |visited| == |g.vertices|
    && (forall u, v :: Arc(g, reverse, u, v) && Marked(visited, u) ==> Marked(visited, v))
    && (forall v :: Marked(visited, v) ==> FromAny(g, reverse, starts, v))
    && (forall k :: 0 <= k < x ==> Marked(visited, starts[k]))
  }

  lemma MarkOne(g: Digraph, reverse: bool, starts: seq<int>, x: int, before: seq<bool>, after: seq<bool>)
    requires 0 <= x < |starts| && MarkedFrom(g, reverse, starts, x, before)
    requires Explores(g, reverse, starts[x], before, after)
    ensures MarkedFrom(g, reverse, starts, x + 1, after)
  {
    hide Arc;
    hide Reachable;
    forall v | Marked(after, v) ensures FromAny(g, reverse, starts, v) {
      if !Marked(before, v) {
        assert Fresh(before, after, v);
        assert Reachable(g, reverse, starts[x], v);
      }
    }
    forall u, v | Arc(g, reverse, u, v) && Marked(after, u) ensures Marked(after, v) {
      ArcVertices(g, reverse, u, v);
      if !Marked(before, u) {
        assert Fresh(before, after, u);
      } else {
        assert Marked(before, v);
      }
    }
  }

  lemma MarkedAll(g: Digraph, reverse: bool, starts: seq<int>, visited: seq<bool>, v: int)
    requires MarkedFrom(g, reverse, starts, |starts|, visited)
    ensures Marked(visited, v) <==> FromAny(g, reverse, starts, v)
  {
    hide Arc;
    if k :| 0 <= k < |starts| && Reachable(g, reverse, starts[k], v) {
      var p: seq<int> :| PathBetween(g, reverse, starts[k], v, p);
      ClosedUnderPaths(g, reverse, p, u => Marked(visited, u));
    }
  }

  /** Depth-first search from every start, then the inversion that pre-visits what cannot be reached. */
  method PreVisitUnreachable(g: Digraph, starts: seq<int>, reverse: bool) returns (visited: array<bool>)
    requires Consistent(g) && Starts(g, starts)
    ensures fresh(visited) && visited.Length == |g.vertices|
    ensures forall v :: IsVertex(g, v) ==> (visited[v] <==> !FromAny(g, reverse, starts, v))
  {
    hide Consistent;
    hide MarkedFrom;
    hide Explores;
    hide FromAny;
    visited := new bool[|g.vertices|](_ => false);
    MarkNone(g, reverse, starts, visited[..]);
    var vec := [];
    for x := 0 to |starts|
      invariant MarkedFrom(g, reverse, starts, x, visited[..])
    {
      ghost var before := visited[..];
      vec := DfsRecurse(g, vec, visited, starts[x], reverse);
      MarkOne(g, reverse, starts, x, before, visited[..]);
    }
    ghost var found := visited[..];
    forall v ensures Marked(found, v) <==> FromAny(g, reverse, starts, v) {
      MarkedAll(g, reverse, starts, found, v);
    }
    for x := 0 to visited.Length
      invariant forall v :: 0 <= v < visited.Length ==> visited[v] == if v < x then !found[v] else found[v]
    {
      visited[x] := !visited[x];
    }
    forall v | IsVertex(g, v) ensures visited[v] <==> !FromAny(g, reverse, starts, v) {
      assert Marked(found, v) <==> found[v];
    }
  }

  lemma MarkNone(g: Digraph, reverse: bool, starts: seq<int>, visited: seq<bool>)
    requires |visited| == |g.vertices| && forall v :: 0 <= v < |visited| ==> !visited[v]
    ensures MarkedFrom(g, reverse, starts, 0, visited)
  {
  }

  // ---------------------------------------------------------------- results

  /** No listed vertex comes before a listed predecessor of its own. */
  ghost predicate IsTopological(g: Digraph, reverse: bool, vec: seq<int>) {
    forall k, u :: 0 <= k < |vec| && Arc(g, reverse, u, vec[k]) && u in vec ==> u in vec[..k]
  }

  /** When no vertex is ready, an acyclic graph has been visited completely. */
  lemma NothingReadyMeansDone(g: Digraph, reverse: bool, visited: seq<bool>)
    requires Acyclic(g, reverse) && |visited| == |g.vertices|
    requires forall v :: !Ready(g, reverse, visited, v)
    ensures forall v :: IsVertex(g, v) ==> visited[v]
  {
    hide Acyclic;
    hide Arc;
    if v :| IsVertex(g, v) && !visited[v] {
      var among := u => IsVertex(g, u) && !Marked(visited, u);
      FirstAmong(g, reverse, among, v);
      var w :| IsVertex(g, w) && among(w) && !HasPredecessor(g, reverse, among, w);
      forall u | Arc(g, reverse, u, w) ensures Marked(visited, u) {
        ArcVertices(g, reverse, u, w);
      }
      assert Ready(g, reverse, visited, w);
    }
  }

  lemma LastArc(g: Digraph, reverse: bool, starts: seq<int>, v: int)
    requires FromAny(g, reverse, starts, v) && v !in starts
    ensures exists u :: FromAny(g, reverse, starts, u) && Arc(g, reverse, u, v)
  {
    hide Arc;
    var k :| 0 <= k < |starts| && Reachable(g, reverse, starts[k], v);
    var p: seq<int> :| PathBetween(g, reverse, starts[k], v, p);
    assert p[0] in starts;
    var u := p[|p| - 2];
    SubPath(g, reverse, p, 0, |p| - 2);
    assert Reachable(g, reverse, starts[k], u);
    assert Arc(g, reverse, p[|p| - 2], p[|p| - 1]);
  }

  /** At the beginning only the starts can be ready: every other reachable vertex has a reachable predecessor. */
  lemma OnlyStartsReady(g: Digraph, reverse: bool, starts: seq<int>, visited: seq<bool>, v: int)
    requires |visited| == |g.vertices| && Ready(g, reverse, visited, v)
    requires forall u :: IsVertex(g, u) ==> (visited[u] <==> !FromAny(g, reverse, starts, u))
    ensures v in starts
  {
    hide Arc;
    hide FromAny;
    if v !in starts {
      LastArc(g, reverse, starts, v);
    }
  }

  lemma AcyclicStartEnters(g: Digraph, reverse: bool, start: int, visited: seq<bool>)
    requires Acyclic(g, reverse) && IsVertex(g, start) && |visited| == |g.vertices|
    requires forall v :: IsVertex(g, v) ==> (visited[v] <==> !FromAny(g, reverse, [start], v))
    ensures Enters(g, reverse, start, visited)
  {
    hide Arc;
    hide Reachable;
    forall u | Arc(g, reverse, u, start) ensures Marked(visited, u) {
      ArcVertices(g, reverse, u, start);
      if Reachable(g, reverse, start, u) {
        ClosesCycle(g, reverse, start, u);
      }
    }
  }

  lemma ClosesCycle(g: Digraph, reverse: bool, v: int, u: int)
    requires Reachable(g, reverse, v, u) && Arc(g, reverse, u, v)
    ensures CycleAt(g, reverse, v)
  {
    hide Arc;
    var p: seq<int> :| PathBetween(g, reverse, v, u, p);
    ExtendPath(g, reverse, v, u, v, p);
  }

  lemma OrderIsTopological(g: Digraph, reverse: bool, before: seq<bool>, vec: seq<int>)
    requires OrderedFrom(g, reverse, before, vec) && forall v :: v in vec ==> !Marked(before, v)
    ensures IsTopological(g, reverse, vec)
  {
    hide Arc;
  }

  /** top_sort from one start: on an acyclic graph every reachable vertex exactly once, predecessors first. */
  method TopSortFrom(g: Digraph, start: int, reverse: bool) returns (vec: seq<int>)
    requires Consistent(g) && IsVertex(g, start) && Acyclic(g, reverse)
    ensures NoDuplicates(vec) && IsTopological(g, reverse, vec)
    ensures forall v :: v in vec <==> Reachable(g, reverse, start, v)
  {
    hide Consistent;
    hide Acyclic;
    hide Reachable;
    hide Enters;
    hide Ready;
    hide OrderedFrom;
    hide Arc;
    hide IsTopological;
    var visited := PreVisitUnreachable(g, [start], reverse);
    ghost var before := visited[..];
    AcyclicStartEnters(g, reverse, start, before);
    vec := TopSortRecurse(g, [], visited, start, reverse);
    assert vec[0..] == vec;
    ghost var after := visited[..];
    forall v ensures !Ready(g, reverse, after, v) {
      if Ready(g, reverse, before, v) {
        OnlyStartsReady(g, reverse, [start], before, v);
      }
    }
    NothingReadyMeansDone(g, reverse, after);
    ReachesItself(g, reverse, start);
    forall v ensures v in vec <==> Reachable(g, reverse, start, v) {
      SingleStart(g, reverse, start, v);
      if Reachable(g, reverse, start, v) {
        ReachesVertex(g, reverse, start, v);
      }
    }
    forall v | v in vec ensures !Marked(before, v) {
      SingleStart(g, reverse, start, v);
    }
    OrderIsTopological(g, reverse, before, vec);
  }

  lemma SingleStart(g: Digraph, reverse: bool, start: int, v: int)
    ensures FromAny(g, reverse, [start], v) <==> Reachable(g, reverse, start, v)
  {
    hide Reachable;
    if Reachable(g, reverse, start, v) {
      assert Reachable(g, reverse, [start][0], v);
    }
  }

  // ---------------------------------------------------------------- several starts

  ghost predicate Source(g: Digraph, reverse: bool, v: int) {
    IsVertex(g, v) && forall u :: !Arc(g, reverse, u, v)
  }

  ghost predicate Sources(g: Digraph, reverse: bool, starts: seq<int>) {
    forall k :: 0 <= k < |starts| ==> Source(g, reverse, starts[k])
  }

  /** A visited start has been passed already, and conversely. */
  ghost predicate StartsPassed(starts: seq<int>, x: int, now: seq<bool>)
    requires 0 <= x <= |starts|
  {
    forall k :: 0 <= k < |starts| ==> (Marked(now, starts[k]) <==> starts[k] in starts[..x])
  }

  /** The state after the first x starts. */
  ghost predicate SortedStarts(g: Digraph, reverse: bool, starts: seq<int>, x: int, before: seq<bool>, now: seq<bool>, vec: seq<int>)
    requires 0 <= x <= |starts|
  {
    && Grows(before, now) && |now| == |g.vertices|
    && OrderedFrom(g, reverse, before, vec)
    && (NoDuplicates(vec) <==> NoDuplicates(starts[..x]))
    && (forall v :: v in vec <==> Fresh(before, now, v))
    && StartsPassed(starts, x, now)
    && (forall v :: Ready(g, reverse, now, v) ==> v in starts[x..])
  }

  lemma SourceReached(g: Digraph, reverse: bool, u: int, v: int)
    requires Source(g, reverse, v) && Reachable(g, reverse, u, v)
    ensures u == v
  {
    hide Arc;
    hide Reachable;
    SingleStart(g, reverse, u, v);
    if u != v {
      LastArc(g, reverse, [u], v);
    }
  }

  lemma PassStart(g: Digraph, reverse: bool, starts: seq<int>, x: int, now: seq<bool>, after: seq<bool>)
    requires 0 <= x < |starts| && Sources(g, reverse, starts) && StartsPassed(starts, x, now)
    requires OnlyReachable(g, reverse, starts[x], now, after) && Marked(after, starts[x])
    ensures StartsPassed(starts, x + 1, after)
  {
    hide Reachable;
    assert starts[..x + 1] == starts[..x] + [starts[x]];
    forall k | 0 <= k < |starts| ensures Marked(after, starts[k]) <==> starts[k] in starts[..x + 1] {
      if Fresh(now, after, starts[k]) {
        SourceReached(g, reverse, starts[x], starts[k]);
      }
    }
  }

  lemma DuplicatesConcat(a: seq<int>, b: seq<int>)
    ensures NoDuplicates(a + b) <==> NoDuplicates(a) && NoDuplicates(b) && forall v :: v in a ==> v !in b
  {
    var c := a + b;
    if NoDuplicates(c) {
      forall i, j | 0 <= i < j < |a| ensures a[i] != a[j] {
        assert c[i] == a[i] && c[j] == a[j];
      }
      forall i, j | 0 <= i < j < |b| ensures b[i] != b[j] {
        assert c[|a| + i] == b[i] && c[|a| + j] == b[j];
      }
      forall i, j | 0 <= i < |a| && 0 <= j < |b| ensures a[i] != b[j] {
        assert c[i] == a[i] && c[|a| + j] == b[j];
      }
    } else if NoDuplicates(a) && NoDuplicates(b) {
      var i, j :| 0 <= i < j < |c| && c[i] == c[j];
      assert c[i] in a && c[j] in b;
    }
  }

  lemma SortStart(g: Digraph, reverse: bool, starts: seq<int>, x: int, before: seq<bool>, now: seq<bool>, after: seq<bool>,
                  a: seq<int>, b: seq<int>)
    requires 0 <= x < |starts| && Sources(g, reverse, starts) && SortedStarts(g, reverse, starts, x, before, now, a)
    requires forall k :: 0 <= k < |starts| ==> !Marked(before, starts[k])
    requires Appends(g, reverse, starts[x], now, after, b)
    ensures SortedStarts(g, reverse, starts, x + 1, before, after, a + b)
  {
    hide Ready;
    hide Arc;
    hide Reachable;
    hide OrderedFrom;
    hide NoDuplicates;
    hide StartsPassed;
    var s := starts[x];
    assert Source(g, reverse, s) && Enters(g, reverse, s, now);
    PassStart(g, reverse, starts, x, now, after);
    OrderConcat(g, reverse, before, now, a, b);
    StartsAt(starts, x, now);
    assert starts[..x + 1] == starts[..x] + [s];
    DuplicatesConcat(starts[..x], [s]);
    DuplicatesConcat(a, b);
    Singleton(s);
    assert s in a <==> Marked(now, s);
    assert s in b;
    forall v | v in a && v in b ensures v == s {
    }
    forall v ensures v in a + b <==> Fresh(before, after, v) {
    }
    forall v | Ready(g, reverse, after, v) ensures v in starts[x + 1..] {
    }
  }

  lemma Singleton(v: int)
    ensures NoDuplicates([v])
  {
  }

  lemma StartsAt(starts: seq<int>, x: int, now: seq<bool>)
    requires 0 <= x < |starts| && StartsPassed(starts, x, now)
    ensures Marked(now, starts[x]) <==> starts[x] in starts[..x]
  {
  }

  /** top_sort from several sources: every vertex reachable from one of them, predecessors first, and without
      repetition exactly when the given sources are distinct. */
  method TopSortFromAll(g: Digraph, starts: seq<int>, reverse: bool) returns (vec: seq<int>)
    requires Consistent(g) && Sources(g, reverse, starts) && Acyclic(g, reverse)
    ensures NoDuplicates(vec) <==> NoDuplicates(starts)
    ensures IsTopological(g, reverse, vec)
    ensures forall v :: v in vec <==> FromAny(g, reverse, starts, v)
  {
    hide Consistent;
    hide Acyclic;
    hide FromAny;
    hide Ready;
    hide OrderedFrom;
    hide Arc;
    hide IsTopological;
    hide Appends;
    hide SortedStarts;
    SourcesAreStarts(g, reverse, starts);
    var visited := PreVisitUnreachable(g, starts, reverse);
    ghost var before := visited[..];
    SortNone(g, reverse, starts, before);
    vec := [];
    for x := 0 to |starts|
      invariant SortedStarts(g, reverse, starts, x, before, visited[..], vec)
    {
      ghost var now, sofar := visited[..], vec;
      vec := TopSortRecurse(g, vec, visited, starts[x], reverse);
      SortStart(g, reverse, starts, x, before, now, visited[..], sofar, vec[|sofar|..]);
      assert vec == sofar + vec[|sofar|..];
    }
    SortedEnd(g, reverse, starts, before, visited[..], vec);
  }

  /** A repeated source is listed again: a lone vertex, given twice. */
  method RepeatedStart() returns (vec: seq<int>)
    ensures !NoDuplicates(vec) && 0 in vec
  {
    var g := Digraph([Vertex([], [])], []);
    LoneVertex(g);
    vec := TopSortFromAll(g, [0, 0], false);
    ReachesItself(g, false, 0);
    assert FromAny(g, false, [0, 0], 0);
  }

  lemma LongPathHasArc(g: Digraph, reverse: bool, p: seq<int>)
    requires IsPath(g, reverse, p)
    ensures |p| < 2 || exists u, v :: Arc(g, reverse, u, v)
  {
    hide Arc;
    if |p| >= 2 {
      assert Arc(g, reverse, p[0], p[0 + 1]);
    }
  }

  lemma LoneVertex(g: Digraph)
    requires g == Digraph([Vertex([], [])], [])
    ensures Consistent(g) && Sources(g, false, [0, 0]) && Acyclic(g, false) && !NoDuplicates([0, 0])
  {
    assert forall u, v :: !Arc(g, false, u, v);
    assert [0, 0][0] == [0, 0][1];
    forall v, p: seq<int> | PathBetween(g, false, v, v, p) ensures |p| < 2 {
      LongPathHasArc(g, false, p);
    }
  }

  lemma SourcesAreStarts(g: Digraph, reverse: bool, starts: seq<int>)
    requires Sources(g, reverse, starts)
    ensures Starts(g, starts) && forall k :: 0 <= k < |starts| ==> FromAny(g, reverse, starts, starts[k])
  {
    hide Reachable;
    hide Arc;
    forall k | 0 <= k < |starts| ensures IsVertex(g, starts[k]) && FromAny(g, reverse, starts, starts[k]) {
      assert Source(g, reverse, starts[k]);
      ReachesItself(g, reverse, starts[k]);
    }
  }

  lemma SortNone(g: Digraph, reverse: bool, starts: seq<int>, before: seq<bool>)
    requires |before| == |g.vertices| && Starts(g, starts)
    requires forall v :: IsVertex(g, v) ==> (before[v] <==> !FromAny(g, reverse, starts, v))
    requires forall k :: 0 <= k < |starts| ==> FromAny(g, reverse, starts, starts[k])
    ensures SortedStarts(g, reverse, starts, 0, before, before, [])
    ensures forall k :: 0 <= k < |starts| ==> !Marked(before, starts[k])
  {
    hide Arc;
    hide FromAny;
    hide Ready;
    assert starts[0..] == starts;
    forall v | Ready(g, reverse, before, v) ensures v in starts {
      OnlyStartsReady(g, reverse, starts, before, v);
    }
  }

  lemma SortedEnd(g: Digraph, reverse: bool, starts: seq<int>, before: seq<bool>, after: seq<bool>, vec: seq<int>)
    requires Acyclic(g, reverse) && SortedStarts(g, reverse, starts, |starts|, before, after, vec)
    requires |before| == |g.vertices| && Starts(g, starts)
    requires forall v :: IsVertex(g, v) ==> (before[v] <==> !FromAny(g, reverse, starts, v))
    ensures NoDuplicates(vec) <==> NoDuplicates(starts)
    ensures IsTopological(g, reverse, vec)
    ensures forall v :: v in vec <==> FromAny(g, reverse, starts, v)
  {
    hide Arc;
    hide Ready;
    hide OrderedFrom;
    hide NoDuplicates;
    hide Acyclic;
    hide IsTopological;
    hide Reachable;
    assert starts[..|starts|] == starts && starts[|starts|..] == [];
    NothingReadyMeansDone(g, reverse, after);
    forall v ensures v in vec <==> FromAny(g, reverse, starts, v) {
      if FromAny(g, reverse, starts, v) {
        var k :| 0 <= k < |starts| && Reachable(g, reverse, starts[k], v);
        ReachesVertex(g, reverse, starts[k], v);
      }
    }
    OrderIsTopological(g, reverse, before, vec);
  }
}
