/** Erasing edges and vertices with renumbering of every stored index (Graph.cc). */
module Erase {
  import opened Digraphs

  // ---------------------------------------------------------------- lists of indices

  function RemoveAt<T>(s: seq<T>, k: nat): (t: seq<T>)
    requires k < |s|
    ensures |t| == |s| - 1
    ensures forall q :: 0 <= q < |t| ==> t[q] == s[if q < k then q else q + 1]
  {
    s[..k] + s[k + 1..]
  }

  /** find: the position of the first occurrence, or the length when there is none. */
  function Find(list: seq<int>, i: int): (k: nat)
    ensures k <= |list| && (k < |list| ==> list[k] == i) && (k < |list| <==> i in list)
  {
    if list == [] || list[0] == i then 0 else 1 + Find(list[1..], i)
  }

  function Without(list: seq<int>, i: int): (t: seq<int>) {
    if Find(list, i) < |list| then RemoveAt(list, Find(list, i)) else list
  }

  /** The new number of an index above the erased one. */
  function Down(e: int, i: int): int {
    if e > i then e - 1 else e
  }

  /** The old number of an index. */
  function Up(e: int, i: int): int {
    if e >= i then e + 1 else e
  }

  function Renumber(list: seq<int>, i: int): (t: seq<int>)
    ensures |t| == |list|
  {
    seq(|list|, k requires 0 <= k < |list| => Down(list[k], i))
  }

  lemma WithoutIs(list: seq<int>, i: int)
    requires NoDuplicates(list)
    ensures NoDuplicates(Without(list, i))
    ensures forall e :: e in Without(list, i) <==> e in list && e != i
  {
    var t, k := Without(list, i), Find(list, i);
    forall e ensures e in t <==> e in list && e != i {
      if e in list && e != i {
        var q :| 0 <= q < |list| && list[q] == e;
        assert t[if q < k then q else q - 1] == e;
      }
    }
  }

  /** An adjacency list after the erasure of edge i. */
  function DropEdge(list: seq<int>, i: int): seq<int> {
    Renumber(Without(list, i), i)
  }

  lemma DropEdgeIs(list: seq<int>, i: int)
    requires NoDuplicates(list)
    ensures NoDuplicates(DropEdge(list, i))
    ensures forall e :: e in DropEdge(list, i) <==> Up(e, i) in list
  {
    hide Without;
    var w, t := Without(list, i), DropEdge(list, i);
    WithoutIs(list, i);
    forall j, k | 0 <= j < k < |t| ensures t[j] != t[k] {
      assert w[j] in w && w[k] in w;
    }
    forall e ensures e in t <==> Up(e, i) in list {
      if e in t {
        var q :| 0 <= q < |t| && t[q] == e;
        assert w[q] in w && Up(Down(w[q], i), i) == w[q];
      }
      if Up(e, i) in list {
        var q :| 0 <= q < |w| && w[q] == Up(e, i);
        assert t[q] == e;
      }
    }
  }

  // ---------------------------------------------------------------- erasing an edge

  function EraseEdge(g: Digraph, i: nat): (h: Digraph)
    requires i < |g.edges|
    ensures |h.vertices| == |g.vertices| && |h.edges| == |g.edges| - 1
  {
    Digraph(seq(|g.vertices|, v requires 0 <= v < |g.vertices| =>
              Vertex(DropEdge(g.vertices[v].outs, i), DropEdge(g.vertices[v].ins, i))),
            RemoveAt(g.edges, i))
  }

  /** Erasing an edge keeps the adjacency lists in step with the edge list. */
  lemma EraseEdgeKeepsConsistent(g: Digraph, i: nat)
    requires Consistent(g) && i < |g.edges|
    ensures Consistent(EraseEdge(g, i))
  {
    hide DropEdge;
    var h := EraseEdge(g, i);
    forall e | IsEdge(h, e) ensures h.edges[e] == g.edges[Up(e, i)] {
    }
    forall v | IsVertex(h, v) ensures ListsMatch(h, v) {
      assert ListsMatch(g, v);
      DropEdgeIs(g.vertices[v].outs, i);
      DropEdgeIs(g.vertices[v].ins, i);
    }
    forall e | IsEdge(h, e) ensures EdgeListed(h, e) {
      assert EdgeListed(g, Up(e, i));
      assert ListsMatch(g, g.edges[Up(e, i)].from) && ListsMatch(g, g.edges[Up(e, i)].to);
      DropEdgeIs(g.vertices[g.edges[Up(e, i)].from].outs, i);
      DropEdgeIs(g.vertices[g.edges[Up(e, i)].to].ins, i);
    }
  }

  /** The edges of an adjacency list, in its order: what the traversals see. */
  function EdgesOf(g: Digraph, list: seq<int>): (s: seq<Edge>)
    ensures |s| == |list|
  {
    seq(|list|, k requires 0 <= k < |list| => EdgeAt(g, list[k]))
  }

  lemma ShiftedEdge(g: Digraph, i: nat, e: int)
    requires i < |g.edges| && e != i
    ensures EdgeAt(EraseEdge(g, i), Down(e, i)) == EdgeAt(g, e)
  {
  }

  /** Every adjacency list keeps its order and loses exactly the erased edge. */
  lemma EraseEdgeKeepsOrder(g: Digraph, i: nat, list: seq<int>)
    requires i < |g.edges| && NoDuplicates(list)
    ensures EdgesOf(EraseEdge(g, i), DropEdge(list, i))
         == if i in list then RemoveAt(EdgesOf(g, list), Find(list, i)) else EdgesOf(g, list)
  {
    hide EraseEdge;
    hide EdgeAt;
    hide Down;
    hide Find;
    var h, w := EraseEdge(g, i), Without(list, i);
    WithoutIs(list, i);
    forall k | 0 <= k < |w| ensures EdgesOf(h, DropEdge(list, i))[k] == EdgesOf(g, w)[k] {
      assert w[k] in w;
      ShiftedEdge(g, i, w[k]);
    }
    assert EdgesOf(h, DropEdge(list, i)) == EdgesOf(g, w);
    if i in list {
      assert EdgesOf(g, w) == RemoveAt(EdgesOf(g, list), Find(list, i));
    } else {
    }
  }

  // ---------------------------------------------------------------- erasing a vertex

  predicate Touches(e: Edge, v: int) {
    e.from == v || e.to == v
  }

  function MoveDown(e: Edge, v: int): Edge {
    Edge(Down(e.from, v), Down(e.to, v))
  }

  /** The edges that survive the erasure of vertex v, in order, with their end points renumbered. */
  function Survivors(s: seq<Edge>, v: int): seq<Edge> {
    if s == [] then []
    else Survivors(s[..|s| - 1], v) + (if Touches(s[|s| - 1], v) then [] else [MoveDown(s[|s| - 1], v)])
  }

  /** Removing an edge at v in advance does not change the survivors. */
  lemma {:induction false} SurvivorsDrop(s: seq<Edge>, k: nat, v: int)
    requires k < |s| && Touches(s[k], v)
    ensures Survivors(RemoveAt(s, k), v) == Survivors(s, v)
  {
    var last := |s| - 1;
    if k == last {
      assert RemoveAt(s, k) == s[..last];
    } else {
      SurvivorsDrop(s[..last], k, v);
      assert RemoveAt(s, k)[..last - 1] == RemoveAt(s[..last], k);
    }
  }

  lemma {:induction false} SurvivorsAll(s: seq<Edge>, v: int)
    requires forall k :: 0 <= k < |s| ==> !Touches(s[k], v)
    ensures Survivors(s, v) == seq(|s|, k requires 0 <= k < |s| => MoveDown(s[k], v))
  {
    if s != [] {
      SurvivorsAll(s[..|s| - 1], v);
    }
  }

  /** What erasing edges at v leaves alone. */
  ghost predicate SameSurvivors(g: Digraph, h: Digraph, v: int) {
    && |h.vertices| == |g.vertices|
    && Survivors(h.edges, v) == Survivors(g.edges, v)
    && forall w :: IsVertex(g, w) ==>
      && Survivors(EdgesOf(h, h.vertices[w].outs), v) == Survivors(EdgesOf(g, g.vertices[w].outs), v)
      && Survivors(EdgesOf(h, h.vertices[w].ins), v) == Survivors(EdgesOf(g, g.vertices[w].ins), v)
  }

  lemma EraseTouchingEdge(g: Digraph, i: nat, v: int)
    requires Consistent(g) && i < |g.edges| && Touches(g.edges[i], v)
    ensures SameSurvivors(g, EraseEdge(g, i), v)
  {
    hide DropEdge;
    hide EdgesOf;
    SurvivorsDrop(g.edges, i, v);
    forall w | IsVertex(g, w)
      ensures Survivors(EdgesOf(EraseEdge(g, i), DropEdge(g.vertices[w].outs, i)), v) == Survivors(EdgesOf(g, g.vertices[w].outs), v)
      ensures Survivors(EdgesOf(EraseEdge(g, i), DropEdge(g.vertices[w].ins, i)), v) == Survivors(EdgesOf(g, g.vertices[w].ins), v)
    {
      assert ListsMatch(g, w);
      ListSurvivors(g, i, v, g.vertices[w].outs);
      ListSurvivors(g, i, v, g.vertices[w].ins);
    }
  }

  lemma ListSurvivors(g: Digraph, i: nat, v: int, list: seq<int>)
    requires i < |g.edges| && Touches(g.edges[i], v) && NoDuplicates(list)
    ensures Survivors(EdgesOf(EraseEdge(g, i), DropEdge(list, i)), v) == Survivors(EdgesOf(g, list), v)
  {
    hide Survivors;
    hide DropEdge;
    hide EraseEdge;
    EraseEdgeKeepsOrder(g, i, list);
    if i in list {
      var k := Find(list, i);
      assert EdgesOf(g, list)[k] == g.edges[i];
      SurvivorsDrop(EdgesOf(g, list), k, v);
    }
  }

  /** The last steps of erase_vertex, once no edge is left at v. */
  function DropVertex(g: Digraph, v: nat): (h: Digraph)
    requires v < |g.vertices|
  {
    Digraph(RemoveAt(g.vertices, v), seq(|g.edges|, e requires 0 <= e < |g.edges| => MoveDown(g.edges[e], v)))
  }

  ghost predicate Bare(g: Digraph, v: int) {
    IsVertex(g, v) && g.vertices[v].outs == [] && g.vertices[v].ins == []
  }

  lemma BareUntouched(g: Digraph, v: int)
    requires Consistent(g) && Bare(g, v)
    ensures forall e :: IsEdge(g, e) ==> !Touches(g.edges[e], v)
  {
    forall e | IsEdge(g, e) ensures !Touches(g.edges[e], v) {
      assert EdgeListed(g, e);
    }
  }

  lemma DropVertexKeepsConsistent(g: Digraph, v: nat)
    requires Consistent(g) && Bare(g, v)
    ensures Consistent(DropVertex(g, v))
  {
    var h := DropVertex(g, v);
    BareUntouched(g, v);
    forall w | IsVertex(h, w) ensures ListsMatch(h, w) {
      assert ListsMatch(g, Up(w, v));
    }
    forall e | IsEdge(h, e) ensures EdgeListed(h, e) {
      assert EdgeListed(g, e);
      assert !Touches(g.edges[e], v);
    }
  }

  /** A surviving vertex keeps its adjacency lists, end points renumbered. */
  lemma DropVertexKeepsOrder(g: Digraph, v: nat, w: int)
    requires Consistent(g) && Bare(g, v) && IsVertex(DropVertex(g, v), w)
    ensures var h, u := DropVertex(g, v), Up(w, v);
            && IsVertex(g, u)
            && EdgesOf(h, h.vertices[w].outs) == Survivors(EdgesOf(g, g.vertices[u].outs), v)
            && EdgesOf(h, h.vertices[w].ins) == Survivors(EdgesOf(g, g.vertices[u].ins), v)
  {
    var u := Up(w, v);
    assert ListsMatch(g, u);
    BareUntouched(g, v);
    RenumberedList(g, v, g.vertices[u].outs);
    RenumberedList(g, v, g.vertices[u].ins);
  }

  lemma RenumberedList(g: Digraph, v: nat, list: seq<int>)
    requires Bare(g, v) && (forall e :: IsEdge(g, e) ==> !Touches(g.edges[e], v)) && forall e :: e in list ==> IsEdge(g, e)
    ensures EdgesOf(DropVertex(g, v), list) == Survivors(EdgesOf(g, list), v)
  {
    hide Survivors;
    var h, s := DropVertex(g, v), EdgesOf(g, list);
    forall k | 0 <= k < |list| ensures !Touches(s[k], v) && EdgeAt(h, list[k]) == MoveDown(s[k], v) {
      assert list[k] in list;
    }
    SurvivorsAll(s, v);
  }
}
