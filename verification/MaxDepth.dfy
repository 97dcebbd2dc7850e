/** max_depth: on an acyclic graph it computes longest paths although predecessors may still be in the middle of
    their own loops when a vertex is processed (Graph.cc). */
module MaxDepth {
  import opened Digraphs
  import opened Traversal
  import opened TopSort

  // ---------------------------------------------------------------- longest paths

  ghost predicate PathOfLength(g: Digraph, reverse: bool, s: int, v: int, d: int) {
    exists p: seq<int> :: PathBetween(g, reverse, s, v, p) && |p| == d + 1
  }

  ghost predicate NoLonger(g: Digraph, reverse: bool, s: int, v: int, d: int) {
    forall p: seq<int> :: PathBetween(g, reverse, s, v, p) ==> |p| <= d + 1
  }

  /** d is the length of a longest path from s to v, or -1 when there is none. */
  ghost predicate IsDepth(g: Digraph, reverse: bool, s: int, v: int, d: int) {
    if Reachable(g, reverse, s, v) then PathOfLength(g, reverse, s, v, d) && NoLonger(g, reverse, s, v, d) else d == -1
  }

  // ---------------------------------------------------------------- the invariant

  /** A vertex the recursion has processed or is processing: initially visited ones are unreachable. */
  predicate Entered(init: seq<bool>, visited: seq<bool>, v: int) {
    Marked(visited, v) && !Marked(init, v)
  }

  /** Every recorded depth is the length of some path. */
  ghost predicate Sound(g: Digraph, reverse: bool, s: int, d: seq<int>) {
    |d| == |g.vertices| && forall v :: 0 <= v < |d| && d[v] != -1 ==> d[v] >= 0 && PathOfLength(g, reverse, s, v, d[v])
  }

  /** Entered vertices have reached their final depth, even those whose loops are still running. */
  ghost predicate Final(g: Digraph, reverse: bool, s: int, init: seq<bool>, visited: seq<bool>, d: seq<int>)
    requires |d| == |g.vertices|
  {
    forall u :: Entered(init, visited, u) && IsVertex(g, u) ==> d[u] >= 0 && NoLonger(g, reverse, s, u, d[u])
  }

  /** Entered vertices whose loops are finished have raised all their successors. */
  ghost predicate Settled(g: Digraph, reverse: bool, stack: set<int>, init: seq<bool>, visited: seq<bool>, d: seq<int>)
    requires |d| == |g.vertices|
  {
    forall u, w :: Entered(init, visited, u) && u !in stack && Arc(g, reverse, u, w) ==> d[w] >= d[u] + 1
  }

  /** v lies deeper than every vertex whose loop is still running. */
  ghost predicate Deeper(stack: set<int>, d: seq<int>, v: int) {
    0 <= v < |d| && d[v] >= 0 && forall u :: u in stack ==> 0 <= u < |d| && d[v] >= d[u] + 1
  }

  ghost predicate Depths(g: Digraph, reverse: bool, s: int, stack: set<int>, init: seq<bool>, visited: seq<bool>, d: seq<int>) {
    && |visited| == |init| == |d| == |g.vertices|
    && Sound(g, reverse, s, d) && Final(g, reverse, s, init, visited, d)
    && Settled(g, reverse, stack, init, visited, d)
    && (forall u :: u in stack ==> Entered(init, visited, u))
    && (forall v :: IsVertex(g, v) ==> (!Marked(init, v) <==> Reachable(g, reverse, s, v)))
  }

  ghost predicate Raised(d: seq<int>, d': seq<int>) {
    |d| == |d'| && forall v :: 0 <= v < |d| ==> d'[v] >= d[v]
  }

  /** An entered vertex keeps its depth: sound values cannot exceed a final one. */
  lemma EnteredKeepsDepth(g: Digraph, reverse: bool, s: int, stack: set<int>, init: seq<bool>, visited: seq<bool>,
                          d: seq<int>, d': seq<int>, u: int)
    requires Depths(g, reverse, s, stack, init, visited, d) && Entered(init, visited, u)
    requires Sound(g, reverse, s, d') && Raised(d, d')
    ensures d'[u] == d[u]
  {
    hide PathBetween;
    hide Settled;
    assert PathOfLength(g, reverse, s, u, d'[u]);
    var p: seq<int> :| PathBetween(g, reverse, s, u, p) && |p| == d'[u] + 1;
    assert NoLonger(g, reverse, s, u, d[u]);
  }

  /** The key step: when all predecessors are visited, the recorded depth of the branch is already its longest
      path. Finished predecessors have raised it; unfinished ones lie on the recursion stack, where it is deeper. */
  lemma BranchIsFinal(g: Digraph, reverse: bool, s: int, stack: set<int>, init: seq<bool>, visited: seq<bool>,
                      d: seq<int>, branch: int)
    requires Depths(g, reverse, s, stack, init, visited, d) && IsVertex(g, branch)
    requires Enters(g, reverse, branch, visited) && Deeper(stack, d, branch)
    ensures NoLonger(g, reverse, s, branch, d[branch])
  {
    hide Arc;
    hide Sound;
    forall p: seq<int> | PathBetween(g, reverse, s, branch, p) ensures |p| <= d[branch] + 1 {
      if |p| >= 2 {
        var u, q := p[|p| - 2], p[..|p| - 1];
        SubPath(g, reverse, p, 0, |p| - 2);
        assert p[0..|p| - 1] == q;
        assert Arc(g, reverse, p[|p| - 2], p[|p| - 1]);
        assert PathBetween(g, reverse, s, u, q) && Reachable(g, reverse, s, u);
        assert Entered(init, visited, u);
        assert NoLonger(g, reverse, s, u, d[u]);
      }
    }
  }

  lemma EnterBranch(g: Digraph, reverse: bool, s: int, stack: set<int>, init: seq<bool>, visited: seq<bool>,
                    d: seq<int>, branch: int)
    requires Depths(g, reverse, s, stack, init, visited, d) && IsVertex(g, branch) && !Marked(visited, branch)
    requires !Marked(init, branch) && Enters(g, reverse, branch, visited) && Deeper(stack, d, branch)
    ensures Depths(g, reverse, s, stack + {branch}, init, visited[branch := true], d)
  {
    BranchIsFinal(g, reverse, s, stack, init, visited, d, branch);
    hide Arc;
    hide NoLonger;
    hide Sound;
    hide Reachable;
    var visited' := visited[branch := true];
    forall u ensures Entered(init, visited', u) <==> Entered(init, visited, u) || u == branch {
    }
  }

  /** Raising a successor of the branch keeps the invariant. */
  lemma RaiseChild(g: Digraph, reverse: bool, s: int, stack: set<int>, init: seq<bool>, visited: seq<bool>,
                   d: seq<int>, branch: int, child: int)
    requires Depths(g, reverse, s, stack, init, visited, d) && Arc(g, reverse, branch, child)
    requires Entered(init, visited, branch) && branch in stack && IsVertex(g, branch) && IsVertex(g, child)
    ensures var d' := d[child := if d[child] > d[branch] + 1 then d[child] else d[branch] + 1];
            Depths(g, reverse, s, stack, init, visited, d') && Raised(d, d')
  {
    hide Arc;
    hide NoLonger;
    hide Reachable;
    var d' := d[child := if d[child] > d[branch] + 1 then d[child] else d[branch] + 1];
    assert d[branch] >= 0 && PathOfLength(g, reverse, s, branch, d[branch]);
    var p: seq<int> :| PathBetween(g, reverse, s, branch, p) && |p| == d[branch] + 1;
    ExtendPath(g, reverse, s, branch, child, p);
    assert PathOfLength(g, reverse, s, child, d[branch] + 1);
    hide PathBetween;
    hide PathOfLength;
    assert Sound(g, reverse, s, d');
    forall u | Entered(init, visited, u) ensures d'[u] == d[u] {
      EnteredKeepsDepth(g, reverse, s, stack, init, visited, d, d', u);
    }
    forall u, w | Entered(init, visited, u) && u !in stack && Arc(g, reverse, u, w)
      ensures IsVertex(g, u) && IsVertex(g, w) && d'[w] >= d'[u] + 1
    {
      ArcVertices(g, reverse, u, w);
      assert d[w] >= d[u] + 1;
    }
  }

  // ---------------------------------------------------------------- the recursion

  /** What one call of max_depth_recurse does. */
  ghost predicate Deepens(g: Digraph, reverse: bool, s: int, stack: set<int>, init: seq<bool>, branch: int,
                          before: seq<bool>, after: seq<bool>, d: seq<int>, d': seq<int>) {
    && OnlyReachable(g, reverse, branch, before, after)
    && LeavesNothingReady(g, reverse, branch, before, after)
    && Depths(g, reverse, s, stack, init, after, d') && Raised(d, d')
    && (Enters(g, reverse, branch, before) ==> Marked(after, branch))
  }

  ghost predicate Deepening(g: Digraph, reverse: bool, s: int, stack: set<int>, init: seq<bool>, branch: int, x: int,
                            before: seq<bool>, now: seq<bool>, d: seq<int>, d': seq<int>)
    requires IsVertex(g, branch) && 0 <= x <= |Next(g, branch, reverse)|
  {
    && OnlyReachable(g, reverse, branch, before, now) && Marked(now, branch)
    && (forall v :: Ready(g, reverse, now, v) ==>
         (Ready(g, reverse, before, v) && v != branch) || v in Next(g, branch, reverse)[x..])
    && Depths(g, reverse, s, stack + {branch}, init, now, d') && Raised(d, d')
    && (forall k :: 0 <= k < x ==> IsVertex(g, Next(g, branch, reverse)[k]) && d'[Next(g, branch, reverse)[k]] >= d'[branch] + 1)
  }

  lemma DeepenBranch(g: Digraph, reverse: bool, s: int, stack: set<int>, init: seq<bool>, branch: int, before: seq<bool>, d: seq<int>)
    requires Depths(g, reverse, s, stack, init, before, d) && IsVertex(g, branch) && !Marked(before, branch)
    requires !Marked(init, branch) && Enters(g, reverse, branch, before) && Deeper(stack, d, branch)
    ensures Deepening(g, reverse, s, stack, init, branch, 0, before, before[branch := true], d, d)
  {
    EnterBranch(g, reverse, s, stack, init, before, d, branch);
    AppendBranch(g, reverse, branch, before);
    hide Depths;
    hide Next;
    hide OnlyReachable;
    hide Ready;
  }

  /** The first statement of the loop body: the successor's depth is raised. */
  lemma DeepenRaise(g: Digraph, reverse: bool, s: int, stack: set<int>, init: seq<bool>, branch: int, x: int,
                    before: seq<bool>, now: seq<bool>, d: seq<int>, d': seq<int>)
    requires Consistent(g) && IsVertex(g, branch) && 0 <= x < |Next(g, branch, reverse)|
    requires Deepening(g, reverse, s, stack, init, branch, x, before, now, d, d')
    requires !Marked(init, branch)
    ensures var child := Next(g, branch, reverse)[x];
            && IsVertex(g, child) && |d'| == |g.vertices|
            && var e := d'[child := if d'[child] > d'[branch] + 1 then d'[child] else d'[branch] + 1];
            && Deepening(g, reverse, s, stack, init, branch, x, before, now, d, e) && e[branch] == d'[branch]
            && e[child] >= e[branch] + 1
  {
    hide Arc;
    hide Next;
    hide Consistent;
    hide Ready;
    hide OnlyReachable;
    hide Sound;
    hide Final;
    hide Settled;
    NextInRange(g, branch, reverse);
    var child := Next(g, branch, reverse)[x];
    ArcVertices(g, reverse, branch, child);
    var e := d'[child := if d'[child] > d'[branch] + 1 then d'[child] else d'[branch] + 1];
    RaiseChild(g, reverse, s, stack + {branch}, init, now, d', branch, child);
    EnteredKeepsDepth(g, reverse, s, stack + {branch}, init, now, d', e, branch);
  }

  /** Raised further, the branch lies deeper than the whole recursion stack, and so does the child. */
  lemma ChildIsDeeper(g: Digraph, reverse: bool, s: int, stack: set<int>, init: seq<bool>, branch: int, x: int,
                      before: seq<bool>, now: seq<bool>, d: seq<int>, e: seq<int>, child: int)
    requires IsVertex(g, branch) && 0 <= x <= |Next(g, branch, reverse)|
    requires Deepening(g, reverse, s, stack, init, branch, x, before, now, d, e)
    requires Depths(g, reverse, s, stack, init, before, d) && Deeper(stack, d, branch)
    requires IsVertex(g, child) && |e| == |g.vertices| && e[child] >= e[branch] + 1
    ensures Deeper(stack + {branch}, e, child)
  {
    hide Next;
    hide Ready;
    hide OnlyReachable;
    hide Final;
    hide Settled;
    forall u | u in stack ensures e[u] == d[u] {
      EnteredKeepsDepth(g, reverse, s, stack, init, before, d, e, u);
    }
  }

  lemma DeepenSkip(g: Digraph, reverse: bool, s: int, stack: set<int>, init: seq<bool>, branch: int, x: int,
                   before: seq<bool>, now: seq<bool>, d: seq<int>, e: seq<int>)
    requires IsVertex(g, branch) && 0 <= x < |Next(g, branch, reverse)|
    requires Deepening(g, reverse, s, stack, init, branch, x, before, now, d, e)
    requires var child := Next(g, branch, reverse)[x];
             IsVertex(g, child) && Marked(now, child) && |e| == |g.vertices| && e[child] >= e[branch] + 1
    ensures Deepening(g, reverse, s, stack, init, branch, x + 1, before, now, d, e)
  {
    hide Next;
    hide OnlyReachable;
    hide Depths;
    var next := Next(g, branch, reverse);
    forall v | Ready(g, reverse, now, v) && v in next[x..] ensures v in next[x + 1..] {
    }
  }

  lemma DeepenChild(g: Digraph, reverse: bool, s: int, stack: set<int>, init: seq<bool>, branch: int, x: int,
                    before: seq<bool>, now: seq<bool>, after: seq<bool>, d: seq<int>, e: seq<int>, f: seq<int>)
    requires Consistent(g) && IsVertex(g, branch) && 0 <= x < |Next(g, branch, reverse)|
    requires Deepening(g, reverse, s, stack, init, branch, x, before, now, d, e) && !Marked(init, branch)
    requires var child := Next(g, branch, reverse)[x];
             && IsVertex(g, child) && |e| == |g.vertices| && e[child] >= e[branch] + 1
             && Deepens(g, reverse, s, stack + {branch}, init, child, now, after, e, f)
    ensures Deepening(g, reverse, s, stack, init, branch, x + 1, before, after, d, f)
  {
    hide Next;
    hide Arc;
    hide Consistent;
    hide Ready;
    hide Sound;
    hide Final;
    hide Settled;
    hide Reachable;
    hide Enters;
    var next := Next(g, branch, reverse);
    var child := next[x];
    NextInRange(g, branch, reverse);
    forall v | Fresh(before, after, v) ensures Reachable(g, reverse, branch, v) {
      if !now[v] {
        assert Fresh(now, after, v);
        ReachesFromNext(g, reverse, branch, child, v);
      } else {
        assert Fresh(before, now, v);
      }
    }
    forall v | Ready(g, reverse, after, v) && v in next[x..] ensures v in next[x + 1..] {
    }
    EnteredKeepsDepth(g, reverse, s, stack + {branch}, init, now, e, f, branch);
  }

  lemma DeepenEnd(g: Digraph, reverse: bool, s: int, stack: set<int>, init: seq<bool>, branch: int,
                  before: seq<bool>, now: seq<bool>, d: seq<int>, e: seq<int>)
    requires Consistent(g) && IsVertex(g, branch) && branch !in stack
    requires Deepening(g, reverse, s, stack, init, branch, |Next(g, branch, reverse)|, before, now, d, e)
    ensures Deepens(g, reverse, s, stack, init, branch, before, now, d, e)
  {
    hide Consistent;
    hide OnlyReachable;
    hide Sound;
    hide Final;
    hide Reachable;
    hide Next;
    hide Enters;
    var next := Next(g, branch, reverse);
    forall u, w | Entered(init, now, u) && u !in stack && Arc(g, reverse, u, w) ensures e[w] >= e[u] + 1 {
      if u == branch {
        var k :| 0 <= k < |next| && next[k] == w;
      }
    }
  }

  lemma DeepenNothing(g: Digraph, reverse: bool, s: int, stack: set<int>, init: seq<bool>, branch: int, before: seq<bool>, d: seq<int>)
    requires Depths(g, reverse, s, stack, init, before, d) && IsVertex(g, branch) && !Enters(g, reverse, branch, before)
    ensures Deepens(g, reverse, s, stack, init, branch, before, before, d, d)
  {
    DepthsShape(g, reverse, s, stack, init, before, d);
    AppendNothing(g, reverse, branch, before);
  }

  lemma DepthsShape(g: Digraph, reverse: bool, s: int, stack: set<int>, init: seq<bool>, visited: seq<bool>, d: seq<int>)
    requires Depths(g, reverse, s, stack, init, visited, d)
    ensures |visited| == |init| == |d| == |g.vertices|
    ensures forall u :: u in stack ==> Marked(visited, u)
    ensures forall v :: IsVertex(g, v) ==> (!Marked(init, v) <==> Reachable(g, reverse, s, v))
  {
    hide Reachable;
  }

  lemma DeepenedShape(g: Digraph, reverse: bool, s: int, stack: set<int>, init: seq<bool>, branch: int,
                      before: seq<bool>, after: seq<bool>, d: seq<int>, d': seq<int>)
    requires Deepens(g, reverse, s, stack, init, branch, before, after, d, d')
    ensures Grows(before, after)
  {
  }

  lemma ReachableUnmarked(g: Digraph, reverse: bool, s: int, stack: set<int>, init: seq<bool>, visited: seq<bool>,
                          d: seq<int>, u: int, v: int)
    requires Depths(g, reverse, s, stack, init, visited, d) && Arc(g, reverse, u, v) && !Marked(init, u)
    ensures !Marked(init, v)
  {
    hide Reachable;
    hide Arc;
    hide Sound;
    hide Final;
    hide Settled;
    ArcVertices(g, reverse, u, v);
    ReachesNext(g, reverse, s, u, v);
  }

  /** max_depth_recurse. The ghost parameters are the recursion stack and the vertices visited from the start. */
  method MaxDepthRecurse(g: Digraph, vec: array<int>, visited: array<bool>, branch: int, reverse: bool,
                         ghost s: int, ghost stack: set<int>, ghost init: seq<bool>)
    requires Consistent(g) && visited.Length == vec.Length == |g.vertices| && IsVertex(g, branch)
    requires Depths(g, reverse, s, stack, init, visited[..], vec[..])
    requires !visited[branch] && !Marked(init, branch) && Deeper(stack, vec[..], branch)
    modifies vec, visited
    ensures Deepens(g, reverse, s, stack, init, branch, old(visited[..]), visited[..], old(vec[..]), vec[..])
    decreases Unvisited(visited[..])
  {
    hide Consistent;
    hide Depths;
    hide Deepens;
    hide Deepening;
    hide Deeper;
    hide Enters;
    hide Next;
    hide Unvisited;
    ghost var before, d := visited[..], vec[..];
    DepthsShape(g, reverse, s, stack, init, before, d);
    var all := AllParentsVisited(g, visited, branch, reverse);
    if !all {
      DeepenNothing(g, reverse, s, stack, init, branch, before, d);
      return;
    }
    visited[branch] := true;
    ghost var marked := visited[..];
    assert marked == before[branch := true];
    DeepenBranch(g, reverse, s, stack, init, branch, before, d);
    UnvisitedShrinks(before, marked);
    NextInRange(g, branch, reverse);
    var next := Next(g, branch, reverse);
    for x := 0 to |next|
      invariant Deepening(g, reverse, s, stack, init, branch, x, before, visited[..], d, vec[..])
      invariant Grows(marked, visited[..])
    {
      ghost var now, e := visited[..], vec[..];
      var child := next[x];
      ArcVertices(g, reverse, branch, child);
      DeepenRaise(g, reverse, s, stack, init, branch, x, before, now, d, e);
      vec[child] := if vec[child] > vec[branch] + 1 then vec[child] else vec[branch] + 1;
      ghost var raised := vec[..];
      assert raised == e[child := if e[child] > e[branch] + 1 then e[child] else e[branch] + 1];
      if !visited[child] {
        UnvisitedShrinks(marked, now);
        ReachableUnmarked(g, reverse, s, stack, init, before, d, branch, child);
        ChildIsDeeper(g, reverse, s, stack, init, branch, x, before, now, d, raised, child);
        DeepeningDepths(g, reverse, s, stack, init, branch, x, before, now, d, raised);
        MaxDepthRecurse(g, vec, visited, child, reverse, s, stack + {branch}, init);
        DeepenedShape(g, reverse, s, stack + {branch}, init, child, now, visited[..], raised, vec[..]);
        DeepenChild(g, reverse, s, stack, init, branch, x, before, now, visited[..], d, raised, vec[..]);
      } else {
        DeepenSkip(g, reverse, s, stack, init, branch, x, before, now, d, raised);
      }
    }
    DeepenEnd(g, reverse, s, stack, init, branch, before, visited[..], d, vec[..]);
  }

  lemma DeepeningDepths(g: Digraph, reverse: bool, s: int, stack: set<int>, init: seq<bool>, branch: int, x: int,
                        before: seq<bool>, now: seq<bool>, d: seq<int>, e: seq<int>)
    requires IsVertex(g, branch) && 0 <= x <= |Next(g, branch, reverse)|
    requires Deepening(g, reverse, s, stack, init, branch, x, before, now, d, e)
    ensures Depths(g, reverse, s, stack + {branch}, init, now, e)
  {
  }

  // ---------------------------------------------------------------- the result

  lemma DepthsAtStart(g: Digraph, reverse: bool, s: int, init: seq<bool>)
    requires IsVertex(g, s) && |init| == |g.vertices|
    requires forall v :: IsVertex(g, v) ==> (init[v] <==> !Reachable(g, reverse, s, v))
    ensures Depths(g, reverse, s, {}, init, init, seq(|g.vertices|, v => -1)[s := 0])
  {
    hide Arc;
    assert PathBetween(g, reverse, s, s, [s]);
  }

  lemma DepthsAtEnd(g: Digraph, reverse: bool, s: int, init: seq<bool>, visited: seq<bool>, d: seq<int>, v: int)
    requires Depths(g, reverse, s, {}, init, visited, d) && IsVertex(g, v)
    requires forall u :: IsVertex(g, u) ==> visited[u]
    ensures IsDepth(g, reverse, s, v, d[v])
  {
    hide Arc;
    hide Settled;
    hide NoLonger;
    if d[v] != -1 {
      assert PathOfLength(g, reverse, s, v, d[v]);
    }
    if Reachable(g, reverse, s, v) {
      assert Entered(init, visited, v);
    }
  }

  /** max_depth from one start: on an acyclic graph each reachable vertex gets the length of its longest path from
      the start and every other vertex -1. */
  method MaxDepthFrom(g: Digraph, start: int, reverse: bool) returns (vec: array<int>)
    requires Consistent(g) && IsVertex(g, start) && Acyclic(g, reverse)
    ensures vec.Length == |g.vertices|
    ensures forall v :: IsVertex(g, v) ==> IsDepth(g, reverse, start, v, vec[v])
  {
    hide Consistent;
    hide Acyclic;
    hide Reachable;
    hide Depths;
    hide Enters;
    hide IsDepth;
    hide FromAny;
    vec := new int[|g.vertices|](_ => -1);
    var visited := PreVisitUnreachable(g, [start], reverse);
    ghost var init := visited[..];
    AcyclicStartEnters(g, reverse, start, init);
    forall v | IsVertex(g, v) ensures init[v] <==> !Reachable(g, reverse, start, v) {
      SingleStart(g, reverse, start, v);
    }
    ReachesItself(g, reverse, start);
    vec[start] := 0;
    DepthsAtStart(g, reverse, start, init);
    assert vec[..] == seq(|g.vertices|, v => -1)[start := 0];
    MaxDepthRecurse(g, vec, visited, start, reverse, start, {}, init);
    ghost var after := visited[..];
    forall v ensures !Ready(g, reverse, after, v) {
      if Ready(g, reverse, init, v) {
        OnlyStartsReady(g, reverse, [start], init, v);
      }
    }
    NothingReadyMeansDone(g, reverse, after);
    forall v | IsVertex(g, v) ensures IsDepth(g, reverse, start, v, vec[v]) {
      DepthsAtEnd(g, reverse, start, init, after, vec[..], v);
    }
  }
}
