/** Directed multigraphs with stored adjacency indices (Graph.cc), their paths and cycles. */
module Digraphs {
  /** The edge indices leaving and entering a vertex. */
  datatype Vertex = Vertex(outs: seq<int>, ins: seq<int>)

  datatype Edge = Edge(from: int, to: int)

  datatype Digraph = Digraph(vertices: seq<Vertex>, edges: seq<Edge>)

  ghost predicate NoDuplicates<T>(s: seq<T>) {
    forall i, j :: 0 <= i < j < |s| ==> s[i] != s[j]
  }

  predicate IsVertex(g: Digraph, v: int) {
    0 <= v < |g.vertices|
  }

  predicate IsEdge(g: Digraph, e: int) {
    0 <= e < |g.edges|
  }

  /** The out-list of v holds only edges leaving v, its in-list only edges entering v, each at most once. */
  ghost predicate ListsMatch(g: Digraph, v: int)
    requires IsVertex(g, v)
  {
    && NoDuplicates(g.vertices[v].outs) && NoDuplicates(g.vertices[v].ins)
    && (forall e :: e in g.vertices[v].outs ==> IsEdge(g, e) && g.edges[e].from == v)
    && (forall e :: e in g.vertices[v].ins ==> IsEdge(g, e) && g.edges[e].to == v)
  }

  ghost predicate EdgeListed(g: Digraph, e: int)
    requires IsEdge(g, e)
  {
    && IsVertex(g, g.edges[e].from) && e in g.vertices[g.edges[e].from].outs
    && IsVertex(g, g.edges[e].to) && e in g.vertices[g.edges[e].to].ins
  }

  /** Every edge index occurs exactly once in its source's out-list and its target's in-list, and nowhere else. */
  ghost predicate Consistent(g: Digraph) {
    && (forall v :: IsVertex(g, v) ==> ListsMatch(g, v))
    && (forall e :: IsEdge(g, e) ==> EdgeListed(g, e))
  }

  // ---------------------------------------------------------------- neighbours

  function EdgeAt(g: Digraph, e: int): Edge {
    if IsEdge(g, e) then g.edges[e] else Edge(-1, -1)
  }

  /** The vertices one step from v: along the edges, or against them when reversed. */
  function Next(g: Digraph, v: int, reverse: bool): (s: seq<int>)
    requires IsVertex(g, v)
  {
    if reverse then seq(|g.vertices[v].ins|, k requires 0 <= k < |g.vertices[v].ins| => EdgeAt(g, g.vertices[v].ins[k]).from)
    else seq(|g.vertices[v].outs|, k requires 0 <= k < |g.vertices[v].outs| => EdgeAt(g, g.vertices[v].outs[k]).to)
  }

  ghost predicate Arc(g: Digraph, reverse: bool, u: int, v: int) {
    IsVertex(g, u) && IsVertex(g, v) && v in Next(g, u, reverse)
  }

  lemma NextInRange(g: Digraph, v: int, reverse: bool)
    requires Consistent(g) && IsVertex(g, v)
    ensures forall k :: 0 <= k < |Next(g, v, reverse)| ==> Arc(g, reverse, v, Next(g, v, reverse)[k])
  {
    var s := Next(g, v, reverse);
    forall k | 0 <= k < |s| ensures Arc(g, reverse, v, s[k]) {
      var e := if reverse then g.vertices[v].ins[k] else g.vertices[v].outs[k];
      assert e in (if reverse then g.vertices[v].ins else g.vertices[v].outs);
      assert ListsMatch(g, v);
      assert EdgeListed(g, e);
    }
  }

  /** An arc one way is an arc the other way in the reversed reading. */
  lemma ArcReversed(g: Digraph, reverse: bool, u: int, v: int)
    requires Consistent(g) && Arc(g, reverse, u, v)
    ensures Arc(g, !reverse, v, u)
  {
    var s := Next(g, u, reverse);
    var k :| 0 <= k < |s| && s[k] == v;
    var e := if reverse then g.vertices[u].ins[k] else g.vertices[u].outs[k];
    assert e in (if reverse then g.vertices[u].ins else g.vertices[u].outs);
    assert ListsMatch(g, u) && EdgeListed(g, e);
    var back := if reverse then g.vertices[v].outs else g.vertices[v].ins;
    assert e in back;
    var q :| 0 <= q < |back| && back[q] == e;
    assert Next(g, v, !reverse)[q] == u;
  }

  // ---------------------------------------------------------------- paths

  ghost predicate IsPath(g: Digraph, reverse: bool, p: seq<int>) {
    && |p| > 0
    && (forall k :: 0 <= k < |p| ==> IsVertex(g, p[k]))
    && (forall k :: 0 <= k < |p| - 1 ==> Arc(g, reverse, p[k], p[k + 1]))
  }

  ghost predicate PathBetween(g: Digraph, reverse: bool, u: int, v: int, p: seq<int>) {
    IsPath(g, reverse, p) && p[0] == u && p[|p| - 1] == v
  }

  ghost predicate Reachable(g: Digraph, reverse: bool, u: int, v: int) {
    exists p: seq<int> :: PathBetween(g, reverse, u, v, p)
  }

  /** A cycle through v: a path of at least one arc from v back to v. */
  ghost predicate CycleAt(g: Digraph, reverse: bool, v: int) {
    exists p: seq<int> :: |p| >= 2 && PathBetween(g, reverse, v, v, p)
  }

  ghost predicate Acyclic(g: Digraph, reverse: bool) {
    forall v :: IsVertex(g, v) ==> !CycleAt(g, reverse, v)
  }

  lemma ReachesItself(g: Digraph, reverse: bool, v: int)
    requires IsVertex(g, v)
    ensures Reachable(g, reverse, v, v)
  {
    assert PathBetween(g, reverse, v, v, [v]);
  }

  lemma ExtendPath(g: Digraph, reverse: bool, u: int, v: int, w: int, p: seq<int>)
    requires PathBetween(g, reverse, u, v, p) && Arc(g, reverse, v, w)
    ensures PathBetween(g, reverse, u, w, p + [w])
  {
    hide Arc;
    ArcVertices(g, reverse, v, w);
    var q := p + [w];
    forall k | 0 <= k < |q| - 1 ensures Arc(g, reverse, q[k], q[k + 1]) {
      assert k < |p| - 1 ==> Arc(g, reverse, p[k], p[k + 1]);
    }
  }

  lemma ArcVertices(g: Digraph, reverse: bool, u: int, v: int)
    requires Arc(g, reverse, u, v)
    ensures IsVertex(g, u) && IsVertex(g, v)
  {
  }

  lemma PrependPath(g: Digraph, reverse: bool, u: int, v: int, w: int, p: seq<int>)
    requires Arc(g, reverse, u, v) && PathBetween(g, reverse, v, w, p)
    ensures PathBetween(g, reverse, u, w, [u] + p)
  {
    hide Arc;
    ArcVertices(g, reverse, u, v);
    var q := [u] + p;
    forall k | 0 <= k < |q| - 1 ensures Arc(g, reverse, q[k], q[k + 1]) {
      assert k > 0 ==> q[k] == p[k - 1] && q[k + 1] == p[k];
    }
  }

  lemma ReachesNext(g: Digraph, reverse: bool, u: int, v: int, w: int)
    requires Reachable(g, reverse, u, v) && Arc(g, reverse, v, w)
    ensures Reachable(g, reverse, u, w)
  {
    var p: seq<int> :| PathBetween(g, reverse, u, v, p);
    ExtendPath(g, reverse, u, v, w, p);
  }

  lemma ReachesFromNext(g: Digraph, reverse: bool, u: int, v: int, w: int)
    requires Arc(g, reverse, u, v) && Reachable(g, reverse, v, w)
    ensures Reachable(g, reverse, u, w)
  {
    var p: seq<int> :| PathBetween(g, reverse, v, w, p);
    PrependPath(g, reverse, u, v, w, p);
  }

  /** A path that starts inside a set closed under arcs stays inside. */
  lemma {:induction false} ClosedUnderPaths(g: Digraph, reverse: bool, p: seq<int>, inside: int -> bool)
    requires IsPath(g, reverse, p) && inside(p[0])
    requires forall u, v :: inside(u) && Arc(g, reverse, u, v) ==> inside(v)
    ensures forall k :: 0 <= k < |p| ==> inside(p[k])
    decreases |p|
  {
    hide Arc;
    if |p| > 1 {
      var q := p[..|p| - 1];
      forall k | 0 <= k < |q| - 1 ensures Arc(g, reverse, q[k], q[k + 1]) {
        assert Arc(g, reverse, p[k], p[k + 1]);
      }
      ClosedUnderPaths(g, reverse, q, inside);
      assert inside(q[|q| - 1]);
      assert Arc(g, reverse, p[|p| - 2], p[|p| - 1]);
    }
  }

  // ---------------------------------------------------------------- pigeonhole

  lemma {:induction false} DistinctBound(s: seq<int>, n: nat)
    requires NoDuplicates(s) && forall k :: 0 <= k < |s| ==> 0 <= s[k] < n
    ensures |s| <= n
    ensures |s| == n <==> forall v :: 0 <= v < n ==> v in s
    decreases n
  {
    if s == [] {
      assert n > 0 ==> 0 !in s;
      return;
    }
    assert 0 <= s[0] < n;
    if n - 1 in s {
      var k :| 0 <= k < |s| && s[k] == n - 1;
      var t := s[..k] + s[k + 1..];
      RemoveOne(s, k, t);
      DistinctBound(t, n - 1);
    } else {
      DistinctBound(s, n - 1);
    }
  }

  lemma RemoveOne(s: seq<int>, k: int, t: seq<int>)
    requires NoDuplicates(s) && 0 <= k < |s| && t == s[..k] + s[k + 1..]
    ensures NoDuplicates(t) && |t| == |s| - 1
    ensures forall v :: v in t <==> v in s && v != s[k]
  {
    assert forall q :: 0 <= q < |t| ==> t[q] == s[if q < k then q else q + 1];
    forall v | v in s && v != s[k] ensures v in t {
      var q :| 0 <= q < |s| && s[q] == v;
      assert t[if q < k then q else q - 1] == v;
    }
  }

  lemma SubPath(g: Digraph, reverse: bool, p: seq<int>, i: int, j: int)
    requires IsPath(g, reverse, p) && 0 <= i <= j < |p|
    ensures PathBetween(g, reverse, p[i], p[j], p[i..j + 1])
  {
    hide Arc;
    var q := p[i..j + 1];
    forall k | 0 <= k < |q| - 1 ensures Arc(g, reverse, q[k], q[k + 1]) {
      assert Arc(g, reverse, p[i + k], p[i + k + 1]);
    }
  }

  /** A path with more vertices than the graph has runs round a cycle. */
  lemma LongPathCycles(g: Digraph, reverse: bool, p: seq<int>)
    requires IsPath(g, reverse, p) && |p| > |g.vertices|
    ensures !Acyclic(g, reverse)
  {
    hide Arc;
    if NoDuplicates(p) {
      DistinctBound(p, |g.vertices|);
      assert false;
    }
    var i, j :| 0 <= i < j < |p| && p[i] == p[j];
    SubPath(g, reverse, p, i, j);
    assert CycleAt(g, reverse, p[i]);
  }

  ghost predicate HasPredecessor(g: Digraph, reverse: bool, among: int -> bool, w: int) {
    exists u :: among(u) && Arc(g, reverse, u, w)
  }

  lemma {:induction false} BackWalk(g: Digraph, reverse: bool, among: int -> bool, v: int, k: nat) returns (p: seq<int>)
    requires IsVertex(g, v) && among(v)
    requires forall w :: IsVertex(g, w) && among(w) ==> HasPredecessor(g, reverse, among, w)
    ensures IsPath(g, reverse, p) && |p| == k + 1 && p[k] == v
    decreases k
  {
    hide Arc;
    if k == 0 {
      p := [v];
    } else {
      assert HasPredecessor(g, reverse, among, v);
      var u :| among(u) && Arc(g, reverse, u, v);
      ArcVertices(g, reverse, u, v);
      var q := BackWalk(g, reverse, among, u, k - 1);
      ExtendPath(g, reverse, q[0], u, v, q);
      p := q + [v];
    }
  }

  /** In an acyclic graph every non-empty vertex set has a member without a predecessor in the set. */
  lemma FirstAmong(g: Digraph, reverse: bool, among: int -> bool, v: int)
    requires Acyclic(g, reverse) && IsVertex(g, v) && among(v)
    ensures exists w :: IsVertex(g, w) && among(w) && !HasPredecessor(g, reverse, among, w)
  {
    hide Acyclic;
    hide HasPredecessor;
    if forall w :: IsVertex(g, w) && among(w) ==> HasPredecessor(g, reverse, among, w) {
      var p := BackWalk(g, reverse, among, v, |g.vertices|);
      LongPathCycles(g, reverse, p);
    }
  }

  // ---------------------------------------------------------------- both directions

  function Backwards(p: seq<int>): (q: seq<int>)
    ensures |q| == |p| && forall k :: 0 <= k < |p| ==> q[k] == p[|p| - 1 - k]
  {
    seq(|p|, k requires 0 <= k < |p| => p[|p| - 1 - k])
  }

  lemma PathReversed(g: Digraph, reverse: bool, u: int, v: int, p: seq<int>)
    requires Consistent(g) && PathBetween(g, reverse, u, v, p)
    ensures PathBetween(g, !reverse, v, u, Backwards(p))
  {
    hide Arc;
    hide Consistent;
    var q, n := Backwards(p), |p|;
    forall k | 0 <= k < n - 1 ensures Arc(g, !reverse, q[k], q[k + 1]) {
      assert Arc(g, reverse, p[n - 2 - k], p[n - 2 - k + 1]);
      ArcReversed(g, reverse, p[n - 2 - k], p[n - 1 - k]);
    }
  }

  /** A graph without cycles has none when read against its edges either. */
  lemma AcyclicBothWays(g: Digraph, reverse: bool)
    requires Consistent(g) && Acyclic(g, reverse)
    ensures Acyclic(g, !reverse)
  {
    hide PathBetween;
    hide Consistent;
    forall v | IsVertex(g, v) ensures !CycleAt(g, !reverse, v) {
      if p: seq<int> :| |p| >= 2 && PathBetween(g, !reverse, v, v, p) {
        PathReversed(g, !reverse, v, v, p);
      }
    }
  }
}
