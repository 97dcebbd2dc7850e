/** RawGraph: the graph object whose vertex and edge vectors the modifiers update in place (Graph.cc). */
module RawGraphs {
  import opened Digraphs
  import opened Erase
  import Traversal
  import TopSort
  import MaxDepth

  /** What erasing vertex v leaves of g. */
  ghost predicate VertexErased(g: Digraph, h: Digraph, v: int) {
    && IsVertex(g, v) && |h.vertices| == |g.vertices| - 1
    && h.edges == Survivors(g.edges, v)
    && forall w :: IsVertex(h, w) ==>
      && EdgesOf(h, h.vertices[w].outs) == Survivors(EdgesOf(g, g.vertices[Up(w, v)].outs), v)
      && EdgesOf(h, h.vertices[w].ins) == Survivors(EdgesOf(g, g.vertices[Up(w, v)].ins), v)
  }

  lemma SameSurvivorsTrans(g: Digraph, h: Digraph, k: Digraph, v: int)
    requires SameSurvivors(g, h, v) && SameSurvivors(h, k, v)
    ensures SameSurvivors(g, k, v)
  {
    hide Survivors;
    hide EdgesOf;
  }

  lemma VertexIsErased(g: Digraph, h: Digraph, v: nat)
    requires Consistent(h) && Bare(h, v) && SameSurvivors(g, h, v)
    ensures VertexErased(g, DropVertex(h, v), v)
  {
    hide Survivors;
    hide EdgesOf;
    hide Consistent;
    var k := DropVertex(h, v);
    BareUntouched(h, v);
    SurvivorsAll(h.edges, v);
    assert k.edges == Survivors(h.edges, v);
    forall w | IsVertex(k, w)
      ensures EdgesOf(k, k.vertices[w].outs) == Survivors(EdgesOf(g, g.vertices[Up(w, v)].outs), v)
      ensures EdgesOf(k, k.vertices[w].ins) == Survivors(EdgesOf(g, g.vertices[Up(w, v)].ins), v)
    {
      DropVertexKeepsOrder(h, v, w);
    }
  }

  class RawGraph {
    var vertices: seq<Vertex>
    var edges: seq<Edge>

    function Value(): Digraph
      reads this
    {
      Digraph(vertices, edges)
    }

    ghost predicate Valid()
      reads this
    {
      Consistent(Value())
    }

    constructor ()
      ensures Valid() && vertices == [] && edges == []
    {
      vertices, edges := [], [];
    }

    method AddVertex() returns (v: int)
      requires Valid()
      modifies this
      ensures Valid() && edges == old(edges) && vertices == old(vertices) + [Vertex([], [])] && v == |old(vertices)|
    {
      ghost var g := Value();
      vertices := vertices + [Vertex([], [])];
      v := |vertices| - 1;
      AddVertexKeepsConsistent(g);
    }

    method AddEdge(from: int, to: int) returns (e: int)
      requires Valid() && IsVertex(Value(), from) && IsVertex(Value(), to)
      modifies this
      ensures Valid() && edges == old(edges) + [Edge(from, to)] && e == |old(edges)|
      ensures Value() == WithEdge(old(Value()), from, to)
    {
      ghost var g := Value();
      edges := edges + [Edge(from, to)];
      e := |edges| - 1;
      vertices := vertices[to := vertices[to].(ins := vertices[to].ins + [e])];
      vertices := vertices[from := vertices[from].(outs := vertices[from].outs + [e])];
      assert Value() == WithEdge(g, from, to);
      AddEdgeKeepsConsistent(g, from, to);
    }

    /** erase_edge */
    method EraseEdge(i: nat)
      requires Valid() && i < |edges|
      modifies this
      ensures Valid() && Value() == Erase.EraseEdge(old(Value()), i)
    {
      hide Find;
      hide Consistent;
      ghost var g := Value();
      EndPoints(g, i);
      EraseEdgeKeepsConsistent(g, i);
      var parent, child := edges[i].from, edges[i].to;
      vertices := vertices[parent := vertices[parent].(outs := Without(vertices[parent].outs, i))];
      vertices := vertices[child := vertices[child].(ins := Without(vertices[child].ins, i))];
      edges := RemoveAt(edges, i);
      ghost var before := vertices;
      forall v | 0 <= v < |before|
        ensures before[v].outs == Without(g.vertices[v].outs, i) && before[v].ins == Without(g.vertices[v].ins, i)
      {
        ListedOnlyThere(g, i, v);
      }
      for x := 0 to |vertices|
        invariant |vertices| == |before| && edges == RemoveAt(g.edges, i)
        invariant forall v :: x <= v < |vertices| ==> vertices[v] == before[v]
        invariant forall v :: 0 <= v < x ==> vertices[v] == Vertex(Renumber(before[v].outs, i), Renumber(before[v].ins, i))
      {
        vertices := vertices[x := Vertex(Renumber(vertices[x].outs, i), Renumber(vertices[x].ins, i))];
      }
      assert Value() == Erase.EraseEdge(g, i);
    }

    /** erase_vertex */
    method EraseVertex(i: nat)
      requires Valid() && i < |vertices|
      modifies this
      ensures Valid() && VertexErased(old(Value()), Value(), i)
    {
      hide Consistent;
      hide SameSurvivors;
      hide VertexErased;
      hide Erase.EraseEdge;
      ghost var g := Value();
      NothingErased(g, i);
      while vertices[i].ins != []
        invariant Valid() && SameSurvivors(g, Value(), i) && i < |vertices| == |g.vertices|
        decreases |edges|
      {
        var e := vertices[i].ins[|vertices[i].ins| - 1];
        LastIsEdge(Value(), i, e);
        EraseStep(g, Value(), e, i);
        EraseEdge(e);
      }
      while vertices[i].outs != []
        invariant Valid() && SameSurvivors(g, Value(), i) && i < |vertices| == |g.vertices|
        invariant vertices[i].ins == []
        decreases |edges|
      {
        var e := vertices[i].outs[|vertices[i].outs| - 1];
        LastIsEdge(Value(), i, e);
        StaysEmpty(Value(), e, i);
        EraseStep(g, Value(), e, i);
        EraseEdge(e);
      }
      ghost var h := Value();
      VertexIsErased(g, h, i);
      DropVertexKeepsConsistent(h, i);
      vertices := RemoveAt(vertices, i);
      for x := 0 to |edges|
        invariant |edges| == |h.edges| && vertices == RemoveAt(h.vertices, i)
        invariant forall e :: x <= e < |edges| ==> edges[e] == h.edges[e]
        invariant forall e :: 0 <= e < x ==> edges[e] == MoveDown(h.edges[e], i)
      {
        edges := edges[x := Edge(if edges[x].from > i then edges[x].from - 1 else edges[x].from,
                                 if edges[x].to > i then edges[x].to - 1 else edges[x].to)];
      }
      assert Value() == DropVertex(h, i);
    }

    method Cyclic() returns (r: bool)
      requires Valid()
      ensures r <==> !Acyclic(Value(), false)
    {
      r := Traversal.IsCyclic(Value());
    }

    method Connected(start: int, reverse: bool) returns (r: bool)
      requires Valid() && IsVertex(Value(), start)
      ensures r <==> forall v :: IsVertex(Value(), v) ==> Reachable(Value(), reverse, start, v)
    {
      hide Reachable;
      var g := Value();
      r := Traversal.IsConnectedFrom(g, start, reverse);
      assert Value() == g;
    }

    method TopologicalSort(start: int, reverse: bool) returns (vec: seq<int>)
      requires Valid() && IsVertex(Value(), start) && Acyclic(Value(), false)
      ensures NoDuplicates(vec) && TopSort.IsTopological(Value(), reverse, vec)
      ensures forall v :: v in vec <==> Reachable(Value(), reverse, start, v)
    {
      AcyclicAnyWay(Value(), reverse);
      vec := TopSort.TopSortFrom(Value(), start, reverse);
    }

    method LongestPaths(start: int, reverse: bool) returns (vec: array<int>)
      requires Valid() && IsVertex(Value(), start) && Acyclic(Value(), false)
      ensures vec.Length == |vertices|
      ensures forall v :: IsVertex(Value(), v) ==> MaxDepth.IsDepth(Value(), reverse, start, v, vec[v])
    {
      AcyclicAnyWay(Value(), reverse);
      vec := MaxDepth.MaxDepthFrom(Value(), start, reverse);
    }
  }

  // ---------------------------------------------------------------- lemmas for the modifiers

  lemma AcyclicAnyWay(g: Digraph, reverse: bool)
    requires Consistent(g) && Acyclic(g, false)
    ensures Acyclic(g, reverse)
  {
    hide Consistent;
    hide Acyclic;
    AcyclicBothWays(g, false);
  }

  lemma AddVertexKeepsConsistent(g: Digraph)
    requires Consistent(g)
    ensures Consistent(g.(vertices := g.vertices + [Vertex([], [])]))
  {
    var h := g.(vertices := g.vertices + [Vertex([], [])]);
    forall v | IsVertex(h, v) ensures ListsMatch(h, v) {
      if v < |g.vertices| {
        assert ListsMatch(g, v);
      }
    }
    forall e | IsEdge(h, e) ensures EdgeListed(h, e) {
      assert EdgeListed(g, e);
    }
  }

  function WithEdge(g: Digraph, from: int, to: int): (h: Digraph)
    requires IsVertex(g, from) && IsVertex(g, to)
  {
    var e := |g.edges|;
    Digraph(seq(|g.vertices|, v requires 0 <= v < |g.vertices| =>
              Vertex(if v == from then g.vertices[v].outs + [e] else g.vertices[v].outs,
                     if v == to then g.vertices[v].ins + [e] else g.vertices[v].ins)),
            g.edges + [Edge(from, to)])
  }

  lemma AppendNew(list: seq<int>, e: int)
    requires NoDuplicates(list) && e !in list
    ensures NoDuplicates(list + [e])
  {
  }

  lemma AddEdgeKeepsConsistent(g: Digraph, from: int, to: int)
    requires Consistent(g) && IsVertex(g, from) && IsVertex(g, to)
    ensures Consistent(WithEdge(g, from, to))
  {
    var h := WithEdge(g, from, to);
    forall v | IsVertex(h, v) ensures ListsMatch(h, v) {
      assert ListsMatch(g, v);
      assert |g.edges| !in g.vertices[v].outs && |g.edges| !in g.vertices[v].ins;
      AppendNew(g.vertices[v].outs, |g.edges|);
      AppendNew(g.vertices[v].ins, |g.edges|);
    }
    forall e | IsEdge(h, e) ensures EdgeListed(h, e) {
      if e < |g.edges| {
        assert EdgeListed(g, e);
      } else {
        assert h.vertices[from].outs[|g.vertices[from].outs|] == e;
        assert h.vertices[to].ins[|g.vertices[to].ins|] == e;
      }
    }
  }

  lemma EndPoints(g: Digraph, i: int)
    requires Consistent(g) && IsEdge(g, i)
    ensures IsVertex(g, g.edges[i].from) && IsVertex(g, g.edges[i].to)
  {
    assert EdgeListed(g, i);
  }

  lemma ListedOnlyThere(g: Digraph, i: int, v: int)
    requires Consistent(g) && IsEdge(g, i) && IsVertex(g, v)
    ensures v != g.edges[i].from ==> Without(g.vertices[v].outs, i) == g.vertices[v].outs
    ensures v != g.edges[i].to ==> Without(g.vertices[v].ins, i) == g.vertices[v].ins
  {
    assert ListsMatch(g, v);
  }

  lemma LastIsEdge(g: Digraph, v: int, e: int)
    requires Consistent(g) && IsVertex(g, v) && (e in g.vertices[v].ins || e in g.vertices[v].outs)
    ensures IsEdge(g, e) && Touches(g.edges[e], v)
  {
    assert ListsMatch(g, v);
  }

  lemma StaysEmpty(g: Digraph, e: nat, v: int)
    requires e < |g.edges| && IsVertex(g, v) && g.vertices[v].ins == []
    ensures Erase.EraseEdge(g, e).vertices[v].ins == []
  {
  }

  lemma NothingErased(g: Digraph, v: int)
    ensures SameSurvivors(g, g, v)
  {
  }

  lemma EraseStep(g: Digraph, h: Digraph, e: nat, v: int)
    requires Consistent(h) && e < |h.edges| && Touches(h.edges[e], v) && SameSurvivors(g, h, v)
    ensures SameSurvivors(g, Erase.EraseEdge(h, e), v)
  {
    hide Consistent;
    hide SameSurvivors;
    hide Erase.EraseEdge;
    EraseTouchingEdge(h, e, v);
    SameSurvivorsTrans(g, h, Erase.EraseEdge(h, e), v);
  }
}
