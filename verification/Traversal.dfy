/** The recursive graph traversals: depth-first search, cycle test, topological sort and longest paths (Graph.cc). */
module Traversal {
  import opened Digraphs

  // ---------------------------------------------------------------- visited flags

  /** How many vertices are not yet visited: the measure of every recursion here. */
  function Unvisited(visited: seq<bool>): nat {
    if visited == [] then 0 else Unvisited(visited[..|visited| - 1]) + (if visited[|visited| - 1] then 0 else 1)
  }

  ghost predicate Grows(before: seq<bool>, after: seq<bool>) {
    |before| == |after| && forall v :: 0 <= v < |before| && before[v] ==> after[v]
  }

  lemma {:induction false} UnvisitedShrinks(before: seq<bool>, after: seq<bool>)
    requires Grows(before, after)
    ensures Unvisited(after) <= Unvisited(before)
    ensures (exists v :: 0 <= v < |before| && !before[v] && after[v]) ==> Unvisited(after) < Unvisited(before)
  {
    if before != [] {
      var k := |before| - 1;
      UnvisitedShrinks(before[..k], after[..k]);
      if v :| 0 <= v < k && !before[v] && after[v] {
        assert !before[..k][v] && after[..k][v];
      }
    }
  }

  // ---------------------------------------------------------------- depth-first search

  ghost predicate Fresh(before: seq<bool>, after: seq<bool>, v: int) {
    0 <= v < |before| == |after| && !before[v] && after[v]
  }

  /** What one call of dfs_recurse marks: only vertices reachable from the branch, and with every vertex it
      processes all of that vertex's successors. */
  ghost predicate Explores(g: Digraph, reverse: bool, branch: int, before: seq<bool>, after: seq<bool>) {
    && Grows(before, after) && |after| == |g.vertices| && IsVertex(g, branch) && after[branch]
    && (forall v :: Fresh(before, after, v) ==> Reachable(g, reverse, branch, v))
    && (forall u, v :: Arc(g, reverse, u, v) && (u == branch || Fresh(before, after, u)) ==> after[v])
  }

  /** The visiting order lists the branch and everything newly marked, once each. */
  ghost predicate ListsNew(branch: int, before: seq<bool>, after: seq<bool>, added: seq<int>) {
    && NoDuplicates(added) && |added| > 0 && added[0] == branch
    && (forall v :: v in added <==> v == branch || Fresh(before, after, v))
  }

  /** The state between two iterations of the loop over the successors. */
  ghost predicate Exploring(g: Digraph, reverse: bool, branch: int, x: int, before: seq<bool>, now: seq<bool>)
    requires IsVertex(g, branch) && 0 <= x <= |Next(g, branch, reverse)|
  {
    && Grows(before, now) && |now| == |g.vertices| && now[branch]
    && (forall v :: Fresh(before, now, v) ==> Reachable(g, reverse, branch, v))
    && (forall u, v :: Arc(g, reverse, u, v) && u != branch && Fresh(before, now, u) ==> now[v])
    && (forall k :: 0 <= k < x ==> IsVertex(g, Next(g, branch, reverse)[k]) && now[Next(g, branch, reverse)[k]])
  }

  lemma ExploreBranch(g: Digraph, reverse: bool, branch: int, before: seq<bool>)
    requires |before| == |g.vertices| && IsVertex(g, branch)
    ensures Exploring(g, reverse, branch, 0, before, before[branch := true])
  {
    hide Arc;
    hide Reachable;
    ReachesItself(g, reverse, branch);
  }

  lemma ExploreSkip(g: Digraph, reverse: bool, branch: int, x: int, before: seq<bool>, now: seq<bool>)
    requires Consistent(g) && IsVertex(g, branch) && 0 <= x < |Next(g, branch, reverse)|
    requires Exploring(g, reverse, branch, x, before, now)
    requires IsVertex(g, Next(g, branch, reverse)[x]) && now[Next(g, branch, reverse)[x]]
    ensures Exploring(g, reverse, branch, x + 1, before, now)
  {
    hide Arc;
    hide Next;
    hide Reachable;
  }

  lemma ExploreChild(g: Digraph, reverse: bool, branch: int, x: int, before: seq<bool>, now: seq<bool>, after: seq<bool>)
    requires Consistent(g) && IsVertex(g, branch) && 0 <= x < |Next(g, branch, reverse)|
    requires Exploring(g, reverse, branch, x, before, now)
    requires Explores(g, reverse, Next(g, branch, reverse)[x], now, after)
    ensures Exploring(g, reverse, branch, x + 1, before, after)
  {
    hide Arc;
    hide Next;
    hide Reachable;
    hide Consistent;
    var child := Next(g, branch, reverse)[x];
    NextInRange(g, branch, reverse);
    forall v | Fresh(before, after, v) ensures Reachable(g, reverse, branch, v) {
      if !now[v] {
        assert Fresh(now, after, v);
        ReachesFromNext(g, reverse, branch, child, v);
      } else {
        assert Fresh(before, now, v);
      }
    }
    forall u, v | Arc(g, reverse, u, v) && u != branch && Fresh(before, after, u)
      ensures IsVertex(g, v) && after[v]
    {
      ArcVertices(g, reverse, u, v);
      if now[u] {
        assert Fresh(before, now, u);
      } else {
        assert Fresh(now, after, u);
      }
    }
  }

  lemma ExploreEnd(g: Digraph, reverse: bool, branch: int, before: seq<bool>, now: seq<bool>)
    requires Consistent(g) && IsVertex(g, branch)
    requires Exploring(g, reverse, branch, |Next(g, branch, reverse)|, before, now)
    ensures Explores(g, reverse, branch, before, now)
  {
    hide Next;
    hide Reachable;
    hide Consistent;
  }

  lemma ListChild(branch: int, child: int, before: seq<bool>, now: seq<bool>, after: seq<bool>, a: seq<int>, b: seq<int>)
    requires Grows(before, now) && Grows(now, after) && 0 <= child < |now| && !now[child]
    requires 0 <= branch < |now| && now[branch]
    requires after[child] && ListsNew(branch, before, now, a) && ListsNew(child, now, after, b)
    ensures ListsNew(branch, before, after, a + b)
  {
    var c := a + b;
    forall i, j | 0 <= i < j < |c| ensures c[i] != c[j] {
      if i < |a| <= j {
        assert c[i] in a && c[j] in b;
      }
    }
    forall v ensures v in c <==> v == branch || Fresh(before, after, v) {
      assert v in c <==> v in a || v in b;
    }
  }

  /** dfs_recurse */
  method DfsRecurse(g: Digraph, vec: seq<int>, visited: array<bool>, branch: int, reverse: bool) returns (vec': seq<int>)
    requires Consistent(g) && visited.Length == |g.vertices| && IsVertex(g, branch)
    modifies visited
    ensures Explores(g, reverse, branch, old(visited[..]), visited[..])
    ensures vec <= vec' && ListsNew(branch, old(visited[..]), visited[..], vec'[|vec|..])
    decreases Unvisited(visited[..]), if visited[branch] then 1 else 0
  {
    hide Consistent;
    hide Explores;
    hide Exploring;
    hide ListsNew;
    hide Next;
    hide Unvisited;
    ghost var before := visited[..];
    visited[branch] := true;
    vec' := vec + [branch];
    ghost var marked := visited[..];
    ExploreBranch(g, reverse, branch, before);
    assert marked == before[branch := true];
    ListBranch(branch, before);
    assert vec'[|vec|..] == [branch];
    UnvisitedShrinks(before, marked);
    NextInRange(g, branch, reverse);
    var next := Next(g, branch, reverse);
    for x := 0 to |next|
      invariant Exploring(g, reverse, branch, x, before, visited[..]) && Grows(marked, visited[..])
      invariant vec <= vec' && ListsNew(branch, before, visited[..], vec'[|vec|..])
    {
      ghost var now, sofar := visited[..], vec';
      ArcVertices(g, reverse, branch, next[x]);
      if !visited[next[x]] {
        UnvisitedShrinks(marked, now);
        vec' := DfsRecurse(g, vec', visited, next[x], reverse);
        ExploredGrows(g, reverse, next[x], now, visited[..]);
        ExploreChild(g, reverse, branch, x, before, now, visited[..]);
        ListChild(branch, next[x], before, now, visited[..], sofar[|vec|..], vec'[|sofar|..]);
        assert vec'[|vec|..] == sofar[|vec|..] + vec'[|sofar|..];
      } else {
        ExploreSkip(g, reverse, branch, x, before, now);
      }
    }
    ExploreEnd(g, reverse, branch, before, visited[..]);
  }

  lemma ListBranch(branch: int, before: seq<bool>)
    requires 0 <= branch < |before|
    ensures ListsNew(branch, before, before[branch := true], [branch])
  {
  }

  lemma ExploredGrows(g: Digraph, reverse: bool, branch: int, before: seq<bool>, after: seq<bool>)
    requires Explores(g, reverse, branch, before, after)
    ensures Grows(before, after) && |after| == |g.vertices| && 0 <= branch < |after| && after[branch]
  {
  }

  /** Marked from nothing: exactly the vertices reachable from the start. */
  lemma ExploresReachable(g: Digraph, reverse: bool, start: int, before: seq<bool>, after: seq<bool>, v: int)
    requires Explores(g, reverse, start, before, after) && IsVertex(g, v)
    requires forall u :: 0 <= u < |before| ==> !before[u]
    ensures after[v] <==> Reachable(g, reverse, start, v)
  {
    hide Arc;
    if after[v] {
      assert Fresh(before, after, v);
    }
    if Reachable(g, reverse, start, v) {
      var p: seq<int> :| PathBetween(g, reverse, start, v, p);
      forall u, w | Marked(after, u) && Arc(g, reverse, u, w) ensures Marked(after, w) {
        ArcVertices(g, reverse, u, w);
        assert Fresh(before, after, u);
      }
      ClosedUnderPaths(g, reverse, p, u => Marked(after, u));
    }
  }

  predicate Marked(visited: seq<bool>, v: int) {
    0 <= v < |visited| && visited[v]
  }

  /** dfs from one start: each reachable vertex once, the start first. */
  method Dfs(g: Digraph, start: int, reverse: bool) returns (vec: seq<int>)
    requires Consistent(g) && IsVertex(g, start)
    ensures NoDuplicates(vec) && |vec| > 0 && vec[0] == start
    ensures forall v :: v in vec <==> IsVertex(g, v) && Reachable(g, reverse, start, v)
  {
    hide Consistent;
    hide Explores;
    hide Reachable;
    var visited := new bool[|g.vertices|](_ => false);
    ghost var before := visited[..];
    vec := DfsRecurse(g, [], visited, start, reverse);
    ghost var after := visited[..];
    assert vec == vec[0..];
    forall v ensures v in vec <==> IsVertex(g, v) && Reachable(g, reverse, start, v) {
      assert v in vec <==> v == start || Fresh(before, after, v);
      if IsVertex(g, v) {
        ExploresReachable(g, reverse, start, before, after, v);
        ExploredGrows(g, reverse, start, before, after);
      }
    }
  }

  /** connected */
  method IsConnectedFrom(g: Digraph, start: int, reverse: bool) returns (r: bool)
    requires Consistent(g) && IsVertex(g, start)
    ensures r <==> forall v :: IsVertex(g, v) ==> Reachable(g, reverse, start, v)
  {
    hide Consistent;
    hide Reachable;
    var vec := Dfs(g, start, reverse);
    assert forall k :: 0 <= k < |vec| ==> vec[k] in vec;
    DistinctBound(vec, |g.vertices|);
    r := |vec| == |g.vertices|;
  }

  // ---------------------------------------------------------------- cycles

  /** What a failed search for start leaves behind: it went everywhere it could and met no arc into start. */
  ghost predicate Misses(g: Digraph, start: int, branch: int, before: seq<bool>, after: seq<bool>) {
    && Explores(g, false, branch, before, after)
    && forall u :: u == branch || Fresh(before, after, u) ==> !Arc(g, false, u, start)
  }

  ghost predicate Missing(g: Digraph, start: int, branch: int, x: int, before: seq<bool>, now: seq<bool>)
    requires IsVertex(g, branch) && 0 <= x <= |Next(g, branch, false)|
  {
    && Exploring(g, false, branch, x, before, now)
    && (forall u :: u != branch && Fresh(before, now, u) ==> !Arc(g, false, u, start))
    && (forall k :: 0 <= k < x ==> Next(g, branch, false)[k] != start)
  }

  lemma MissChild(g: Digraph, start: int, branch: int, x: int, before: seq<bool>, now: seq<bool>, after: seq<bool>)
    requires Consistent(g) && IsVertex(g, branch) && 0 <= x < |Next(g, branch, false)|
    requires Missing(g, start, branch, x, before, now)
    requires Misses(g, start, Next(g, branch, false)[x], now, after) && Next(g, branch, false)[x] != start
    ensures Missing(g, start, branch, x + 1, before, after)
  {
    hide Arc;
    hide Next;
    hide Explores;
    hide Exploring;
    hide Consistent;
    var child := Next(g, branch, false)[x];
    ExploreChild(g, false, branch, x, before, now, after);
    ExploredGrows(g, false, child, now, after);
    forall u | u != branch && Fresh(before, after, u) ensures !Arc(g, false, u, start) {
      assert Fresh(before, now, u) || Fresh(now, after, u);
    }
  }

  lemma MissSkip(g: Digraph, start: int, branch: int, x: int, before: seq<bool>, now: seq<bool>)
    requires Consistent(g) && IsVertex(g, branch) && 0 <= x < |Next(g, branch, false)|
    requires Missing(g, start, branch, x, before, now) && Next(g, branch, false)[x] != start
    requires IsVertex(g, Next(g, branch, false)[x]) && Marked(now, Next(g, branch, false)[x])
    ensures Missing(g, start, branch, x + 1, before, now)
  {
    hide Arc;
    hide Next;
    hide Exploring;
    hide Consistent;
    ExploreSkip(g, false, branch, x, before, now);
  }

  lemma MissEnd(g: Digraph, start: int, branch: int, before: seq<bool>, now: seq<bool>)
    requires Consistent(g) && IsVertex(g, branch) && Missing(g, start, branch, |Next(g, branch, false)|, before, now)
    ensures Misses(g, start, branch, before, now)
  {
    hide Next;
    hide Exploring;
    hide Explores;
    hide Consistent;
    ExploreEnd(g, false, branch, before, now);
  }

  /** A non-empty path. */
  ghost predicate Leads(g: Digraph, reverse: bool, u: int, v: int) {
    exists w :: Arc(g, reverse, u, w) && Reachable(g, reverse, w, v)
  }

  lemma LeadsThrough(g: Digraph, reverse: bool, u: int, v: int, w: int)
    requires Arc(g, reverse, u, v) && (v == w || Leads(g, reverse, v, w))
    ensures Leads(g, reverse, u, w)
  {
    hide Arc;
    hide Reachable;
    ArcVertices(g, reverse, u, v);
    if v == w {
      ReachesItself(g, reverse, v);
    } else {
      var x :| Arc(g, reverse, v, x) && Reachable(g, reverse, x, w);
      ReachesFromNext(g, reverse, v, x, w);
    }
  }

  /** cyclic_recurse */
  method CyclicRecurse(g: Digraph, visited: array<bool>, start: int, branch: int) returns (r: bool)
    requires Consistent(g) && visited.Length == |g.vertices| && IsVertex(g, branch)
    modifies visited
    ensures r ==> Leads(g, false, branch, start)
    ensures !r ==> Misses(g, start, branch, old(visited[..]), visited[..])
    decreases Unvisited(visited[..]), if visited[branch] then 1 else 0
  {
    hide Consistent;
    hide Misses;
    hide Missing;
    hide Next;
    hide Unvisited;
    hide Leads;
    ghost var before := visited[..];
    visited[branch] := true;
    ghost var marked := visited[..];
    assert marked == before[branch := true];
    MissBranch(g, start, branch, before);
    UnvisitedShrinks(before, marked);
    NextInRange(g, branch, false);
    var next := Next(g, branch, false);
    for x := 0 to |next|
      invariant Missing(g, start, branch, x, before, visited[..]) && Grows(marked, visited[..])
    {
      ghost var now := visited[..];
      ArcVertices(g, false, branch, next[x]);
      if next[x] == start {
        LeadsThrough(g, false, branch, next[x], start);
        return true;
      }
      if !visited[next[x]] {
        UnvisitedShrinks(marked, now);
        var found := CyclicRecurse(g, visited, start, next[x]);
        if found {
          LeadsThrough(g, false, branch, next[x], start);
          return true;
        }
        MissedGrows(g, start, next[x], now, visited[..]);
        MissChild(g, start, branch, x, before, now, visited[..]);
      } else {
        MissSkip(g, start, branch, x, before, now);
      }
    }
    MissEnd(g, start, branch, before, visited[..]);
    return false;
  }

  lemma MissBranch(g: Digraph, start: int, branch: int, before: seq<bool>)
    requires |before| == |g.vertices| && IsVertex(g, branch)
    ensures Missing(g, start, branch, 0, before, before[branch := true])
  {
    hide Arc;
    hide Next;
    ExploreBranch(g, false, branch, before);
  }

  lemma MissedGrows(g: Digraph, start: int, branch: int, before: seq<bool>, after: seq<bool>)
    requires Misses(g, start, branch, before, after)
    ensures Grows(before, after)
  {
  }

  lemma LeadsIsCycle(g: Digraph, reverse: bool, v: int)
    requires Leads(g, reverse, v, v)
    ensures CycleAt(g, reverse, v)
  {
    hide Arc;
    var w :| Arc(g, reverse, v, w) && Reachable(g, reverse, w, v);
    var p: seq<int> :| PathBetween(g, reverse, w, v, p);
    PrependPath(g, reverse, v, w, v, p);
  }

  lemma LastStep(g: Digraph, reverse: bool, v: int) returns (u: int)
    requires CycleAt(g, reverse, v)
    ensures Reachable(g, reverse, v, u) && Arc(g, reverse, u, v)
  {
    hide Arc;
    var p: seq<int> :| |p| >= 2 && PathBetween(g, reverse, v, v, p);
    u := p[|p| - 2];
    SubPath(g, reverse, p, 0, |p| - 2);
    assert Arc(g, reverse, p[|p| - 2], p[|p| - 1]);
  }

  lemma MissIsNoCycle(g: Digraph, start: int, before: seq<bool>, after: seq<bool>)
    requires Misses(g, start, start, before, after) && forall u :: 0 <= u < |before| ==> !before[u]
    ensures !CycleAt(g, false, start)
  {
    hide Arc;
    hide CycleAt;
    hide Reachable;
    hide Explores;
    forall u | Reachable(g, false, start, u) ensures !Arc(g, false, u, start) {
      ReachesVertex(g, false, start, u);
      ExploresReachable(g, false, start, before, after, u);
      ExploredGrows(g, false, start, before, after);
      assert Fresh(before, after, u);
    }
    if CycleAt(g, false, start) {
      var u := LastStep(g, false, start);
    }
  }

  lemma ReachesVertex(g: Digraph, reverse: bool, u: int, v: int)
    requires Reachable(g, reverse, u, v)
    ensures IsVertex(g, u) && IsVertex(g, v)
  {
  }

  /** cyclic answers whether the graph has a cycle. */
  method IsCyclic(g: Digraph) returns (r: bool)
    requires Consistent(g)
    ensures r <==> !Acyclic(g, false)
  {
    hide Consistent;
    hide CycleAt;
    hide Misses;
    hide Leads;
    for start := 0 to |g.vertices|
      invariant forall v :: 0 <= v < start ==> !CycleAt(g, false, v)
    {
      var visited := new bool[|g.vertices|](_ => false);
      ghost var before := visited[..];
      var found := CyclicRecurse(g, visited, start, start);
      if found {
        LeadsIsCycle(g, false, start);
        return true;
      }
      MissIsNoCycle(g, start, before, visited[..]);
    }
    return false;
  }
}
