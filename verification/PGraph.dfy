/** PGraph: tasks packed on processors, arcs between them, and reservations for the arcs (PGraph.cc). */
module PeriodicGraphs {
  import opened Digraphs
  import opened Schedule
  import RawGraphs

  /** TGnode: which use of which processor a vertex stands for. */
  datatype Node = Node(pe: int, use: int)

  /** TGarc, by its number: the task graph and vertices it joins. */
  datatype Link = Link(dag: int, from: int, to: int)

  // ---------------------------------------------------------------- packing

  /** Tasks back to back from time zero, separated by the slack, inside the period. */
  ghost predicate Packed(us: seq<Use>, h: real, slack: real) {
    && (forall i :: 0 <= i < |us| ==> 0.0 <= us[i].ts < us[i].te <= h)
    && (forall i :: 0 < i < |us| ==> us[i].ts == us[i - 1].te + slack)
    && (|us| > 0 ==> us[0].ts == 0.0)
  }

  lemma {:induction false} PackedOrder(us: seq<Use>, h: real, slack: real, i: int, j: int)
    requires Packed(us, h, slack) && slack >= 0.0 && 0 <= i < j < |us|
    ensures us[i].te <= us[j].ts
    decreases j
  {
    if i < j - 1 {
      PackedOrder(us, h, slack, i, j - 1);
    }
  }

  /** Packed tasks never overlap. */
  lemma PackedIsValid(us: seq<Use>, h: real, slack: real)
    requires Packed(us, h, slack) && slack >= 0.0
    ensures ValidUses(us)
  {
    forall i, j | 0 <= i < j < |us| ensures Apart(us[i], us[j]) {
      PackedOrder(us, h, slack, i, j);
    }
  }

  // ---------------------------------------------------------------- nodes and links

  ghost predicate NodesOk(pes: seq<seq<Use>>, nodes: seq<seq<Node>>) {
    forall x, v :: 0 <= x < |nodes| && 0 <= v < |nodes[x]| ==> NodeOk(pes, nodes[x][v])
  }

  predicate NodeOk(pes: seq<seq<Use>>, n: Node) {
    0 <= n.pe < |pes| && 0 <= n.use < |pes[n.pe]|
  }

  /** TTSTART and TTEND */
  function Begin(pes: seq<seq<Use>>, n: Node): real {
    if NodeOk(pes, n) then pes[n.pe][n.use].ts else 0.0
  }

  function Finish(pes: seq<seq<Use>>, n: Node): real {
    if NodeOk(pes, n) then pes[n.pe][n.use].te else 0.0
  }

  /** A reservation numbered id lies between t1 and t2. */
  ghost predicate Carried(coms: seq<seq<Use>>, id: int, t1: real, t2: real) {
    exists k, j :: 0 <= k < |coms| && 0 <= j < |coms[k]| && coms[k][j].id == id && t1 <= coms[k][j].ts && coms[k][j].te <= t2
  }

  /** The consumer starts after the producer has finished, and an arc between processors has its reservation in
      between. */
  ghost predicate LinkOk(pes: seq<seq<Use>>, nodes: seq<seq<Node>>, coms: seq<seq<Use>>, l: Link, id: int) {
    && 0 <= l.dag < |nodes| && 0 <= l.from < |nodes[l.dag]| && 0 <= l.to < |nodes[l.dag]|
    && var producer, consumer := nodes[l.dag][l.from], nodes[l.dag][l.to];
       && Finish(pes, producer) < Begin(pes, consumer)
       && (producer.pe != consumer.pe ==> Carried(coms, id, Finish(pes, producer), Begin(pes, consumer)))
  }

  ghost predicate LinksOk(pes: seq<seq<Use>>, nodes: seq<seq<Node>>, coms: seq<seq<Use>>, links: seq<Link>) {
    forall i :: 0 <= i < |links| ==> LinkOk(pes, nodes, coms, links[i], i)
  }

  /** The edges of task graph x, in the order of their creation. */
  function EdgesFor(links: seq<Link>, x: int): seq<Edge> {
    if links == [] then []
    else
      var l := links[|links| - 1];
      EdgesFor(links[..|links| - 1], x) + (if l.dag == x then [Edge(l.from, l.to)] else [])
  }

  ghost predicate DagOk(g: Digraph, nodes: seq<Node>, links: seq<Link>, x: int) {
    Consistent(g) && |g.vertices| == |nodes| && g.edges == EdgesFor(links, x)
  }

  ghost predicate DagsOk(dags: seq<Digraph>, nodes: seq<seq<Node>>, links: seq<Link>) {
    |dags| == |nodes| && forall x :: 0 <= x < |dags| ==> DagOk(dags[x], nodes[x], links, x)
  }

  /** Degree limits; a negative limit is none. */
  ghost predicate DegreesOk(g: Digraph, inDeg: int, outDeg: int) {
    forall v :: IsVertex(g, v) ==>
      (inDeg >= 0 ==> |g.vertices[v].ins| <= inDeg) && (outDeg >= 0 ==> |g.vertices[v].outs| <= outDeg)
  }

  // ---------------------------------------------------------------- every task graph is acyclic

  lemma ArcIsEdge(g: Digraph, u: int, v: int) returns (e: int)
    requires Consistent(g) && Arc(g, false, u, v)
    ensures IsEdge(g, e) && g.edges[e] == Edge(u, v)
  {
    var s := Next(g, u, false);
    var k :| 0 <= k < |s| && s[k] == v;
    e := g.vertices[u].outs[k];
    assert ListsMatch(g, u);
    assert e in g.vertices[u].outs;
  }

  lemma {:induction false} EdgeComesFromLink(links: seq<Link>, x: int, e: int) returns (i: int)
    requires 0 <= e < |EdgesFor(links, x)|
    ensures 0 <= i < |links| && links[i].dag == x && EdgesFor(links, x)[e] == Edge(links[i].from, links[i].to)
    decreases |links|
  {
    var k := |links| - 1;
    if e < |EdgesFor(links[..k], x)| {
      i := EdgeComesFromLink(links[..k], x, e);
    } else {
      i := k;
    }
  }

  /** Arcs run forward in time. */
  lemma ArcsRunForward(pes: seq<seq<Use>>, nodes: seq<seq<Node>>, coms: seq<seq<Use>>, links: seq<Link>,
                       dags: seq<Digraph>, x: int, u: int, v: int)
    requires LinksOk(pes, nodes, coms, links) && DagsOk(dags, nodes, links) && 0 <= x < |dags|
    requires Arc(dags[x], false, u, v)
    ensures 0 <= u < |nodes[x]| && 0 <= v < |nodes[x]| && Finish(pes, nodes[x][u]) < Begin(pes, nodes[x][v])
  {
    hide Consistent;
    hide Arc;
    hide Begin;
    hide Finish;
    hide Carried;
    assert DagOk(dags[x], nodes[x], links, x);
    var e := ArcIsEdge(dags[x], u, v);
    var i := EdgeComesFromLink(links, x, e);
    assert LinkOk(pes, nodes, coms, links[i], i);
  }

  lemma {:induction false} PathRunsForward(pes: seq<seq<Use>>, nodes: seq<seq<Node>>, coms: seq<seq<Use>>, links: seq<Link>,
                                           dags: seq<Digraph>, x: int, p: seq<int>)
    requires LinksOk(pes, nodes, coms, links) && DagsOk(dags, nodes, links) && 0 <= x < |dags| && NodesOk(pes, nodes)
    requires forall k, i :: 0 <= k < |pes| && 0 <= i < |pes[k]| ==> pes[k][i].ts < pes[k][i].te
    requires IsPath(dags[x], false, p) && |p| >= 2
    ensures 0 <= p[0] < |nodes[x]| && 0 <= p[|p| - 1] < |nodes[x]|
    ensures Begin(pes, nodes[x][p[0]]) < Begin(pes, nodes[x][p[|p| - 1]])
    decreases |p|
  {
    hide Arc;
    hide LinksOk;
    hide DagsOk;
    var n := |p|;
    assert Arc(dags[x], false, p[n - 2], p[n - 2 + 1]);
    ArcsRunForward(pes, nodes, coms, links, dags, x, p[n - 2], p[n - 1]);
    if n > 2 {
      SubPath(dags[x], false, p, 0, n - 2);
      assert p[0..n - 1] == p[..n - 1];
      PathRunsForward(pes, nodes, coms, links, dags, x, p[..n - 1]);
    }
  }

  /** No task graph has a cycle. */
  lemma TaskGraphsAreAcyclic(pes: seq<seq<Use>>, nodes: seq<seq<Node>>, coms: seq<seq<Use>>, links: seq<Link>,
                             dags: seq<Digraph>, x: int)
    requires LinksOk(pes, nodes, coms, links) && DagsOk(dags, nodes, links) && 0 <= x < |dags| && NodesOk(pes, nodes)
    requires forall k, i :: 0 <= k < |pes| && 0 <= i < |pes[k]| ==> pes[k][i].ts < pes[k][i].te
    ensures Acyclic(dags[x], false)
  {
    hide Arc;
    hide LinksOk;
    hide DagsOk;
    hide NodesOk;
    forall v | IsVertex(dags[x], v) ensures !CycleAt(dags[x], false, v) {
      if p: seq<int> :| |p| >= 2 && PathBetween(dags[x], false, v, v, p) {
        PathRunsForward(pes, nodes, coms, links, dags, x, p);
      }
    }
  }

  // ---------------------------------------------------------------- adding a task and adding an arc

  ghost predicate Extends(before: seq<seq<Use>>, after: seq<seq<Use>>) {
    |before| == |after| && forall k :: 0 <= k < |before| ==> before[k] <= after[k]
  }

  lemma CarriedStays(before: seq<seq<Use>>, after: seq<seq<Use>>, id: int, t1: real, t2: real)
    requires Extends(before, after) && Carried(before, id, t1, t2)
    ensures Carried(after, id, t1, t2)
  {
    var k, j :| 0 <= k < |before| && 0 <= j < |before[k]| && before[k][j].id == id
                && t1 <= before[k][j].ts && before[k][j].te <= t2;
    assert after[k][j] == before[k][j];
  }

  lemma ReservedIsCarried(before: seq<seq<Use>>, after: seq<seq<Use>>, id: int, t1: real, t2: real)
    requires Reserved(before, after, id, t1, t2)
    ensures Extends(before, after) && Carried(after, id, t1, t2)
  {
    var k: int, u: Use :| ReservedAt(before, after, k, u, id, t1, t2);
    assert after[k][|before[k]|] == u;
  }

  lemma LinksStay(pes: seq<seq<Use>>, nodes: seq<seq<Node>>, before: seq<seq<Use>>, after: seq<seq<Use>>, links: seq<Link>)
    requires LinksOk(pes, nodes, before, links) && Extends(before, after)
    ensures LinksOk(pes, nodes, after, links)
  {
    hide Carried;
    hide Begin;
    hide Finish;
    forall i | 0 <= i < |links| ensures LinkOk(pes, nodes, after, links[i], i) {
      var l := links[i];
      assert LinkOk(pes, nodes, before, l, i);
      var producer, consumer := nodes[l.dag][l.from], nodes[l.dag][l.to];
      if producer.pe != consumer.pe {
        CarriedStays(before, after, i, Finish(pes, producer), Begin(pes, consumer));
      }
    }
  }

  lemma AddLink(nodes: seq<seq<Node>>, links: seq<Link>, dags: seq<Digraph>, l: Link)
    requires DagsOk(dags, nodes, links) && 0 <= l.dag < |dags| && 0 <= l.from < |nodes[l.dag]| && 0 <= l.to < |nodes[l.dag]|
    ensures |dags[l.dag].vertices| == |nodes[l.dag]|
    ensures DagsOk(dags[l.dag := RawGraphs.WithEdge(dags[l.dag], l.from, l.to)], nodes, links + [l])
  {
    hide Consistent;
    var dags', links' := dags, links + [l];
    assert DagOk(dags[l.dag], nodes[l.dag], links, l.dag);
    dags' := dags[l.dag := RawGraphs.WithEdge(dags[l.dag], l.from, l.to)];
    RawGraphs.AddEdgeKeepsConsistent(dags[l.dag], l.from, l.to);
    assert links'[..|links|] == links;
    forall x | 0 <= x < |dags| ensures DagOk(dags'[x], nodes[x], links', x) {
      assert DagOk(dags[x], nodes[x], links, x);
    }
  }

  lemma DegreesAfterEdge(g: Digraph, inDeg: int, outDeg: int, from: int, to: int)
    requires DegreesOk(g, inDeg, outDeg) && IsVertex(g, from) && IsVertex(g, to)
    requires outDeg >= 0 ==> |g.vertices[from].outs| < outDeg
    requires inDeg >= 0 ==> |g.vertices[to].ins| < inDeg
    ensures DegreesOk(RawGraphs.WithEdge(g, from, to), inDeg, outDeg)
  {
  }

  /** The new vertex of task graph w. */
  lemma AddNode(nodes: seq<seq<Node>>, dags: seq<Digraph>, w: int, n: Node)
    requires DagsOk(dags, nodes, []) && 0 <= w < |dags|
    ensures DagsOk(dags[w := dags[w].(vertices := dags[w].vertices + [Vertex([], [])])], nodes[w := nodes[w] + [n]], [])
  {
    hide Consistent;
    var g := dags[w].(vertices := dags[w].vertices + [Vertex([], [])]);
    assert DagOk(dags[w], nodes[w], [], w);
    RawGraphs.AddVertexKeepsConsistent(dags[w]);
    var dags', nodes' := dags[w := g], nodes[w := nodes[w] + [n]];
    forall x | 0 <= x < |dags| ensures DagOk(dags'[x], nodes'[x], [], x) {
      assert DagOk(dags[x], nodes[x], [], x);
    }
  }

  lemma NewNodeOk(pes: seq<seq<Use>>, nodes: seq<seq<Node>>, w: int, u: Use)
    requires NodesOk(pes, nodes) && |pes| > 0 && 0 <= w < |nodes|
    ensures var k := |pes| - 1;
            NodesOk(pes[k := pes[k] + [u]], nodes[w := nodes[w] + [Node(k, |pes[k]|)]])
  {
  }

  // ---------------------------------------------------------------- every task is one vertex

  predicate IsTaskOf(nodes: seq<seq<Node>>, x: int, v: int, n: Node) {
    0 <= x < |nodes| && 0 <= v < |nodes[x]| && nodes[x][v] == n
  }

  /** Every packed task is a vertex of exactly one task graph, once. */
  ghost predicate TasksOnce(pes: seq<seq<Use>>, nodes: seq<seq<Node>>) {
    && (forall n: Node :: NodeOk(pes, n) ==> exists x, v :: IsTaskOf(nodes, x, v, n))
    && (forall n: Node, x, v, x', v' :: IsTaskOf(nodes, x, v, n) && IsTaskOf(nodes, x', v', n) ==> x == x' && v == v')
  }

  lemma NewTaskOnce(pes: seq<seq<Use>>, nodes: seq<seq<Node>>, w: int, u: Use)
    requires NodesOk(pes, nodes) && TasksOnce(pes, nodes) && |pes| > 0 && 0 <= w < |nodes|
    ensures var k := |pes| - 1;
            TasksOnce(pes[k := pes[k] + [u]], nodes[w := nodes[w] + [Node(k, |pes[k]|)]])
  {
    var k := |pes| - 1;
    var added := Node(k, |pes[k]|);
    var pes', nodes' := pes[k := pes[k] + [u]], nodes[w := nodes[w] + [added]];
    forall n: Node | NodeOk(pes', n) ensures exists x, v :: IsTaskOf(nodes', x, v, n) {
      if n == added {
        assert IsTaskOf(nodes', w, |nodes[w]|, n);
      } else {
        assert NodeOk(pes, n);
        var x, v :| IsTaskOf(nodes, x, v, n);
        assert IsTaskOf(nodes', x, v, n);
      }
    }
    forall n: Node, x, v | IsTaskOf(nodes', x, v, n) ensures if n == added then x == w && v == |nodes[w]| else IsTaskOf(nodes, x, v, n) {
      if IsTaskOf(nodes, x, v, n) {
        assert NodeOk(pes, nodes[x][v]);
      }
    }
  }

  lemma NewProcessorOnce(pes: seq<seq<Use>>, nodes: seq<seq<Node>>)
    requires TasksOnce(pes, nodes)
    ensures TasksOnce(pes + [[]], nodes)
  {
    forall n: Node | NodeOk(pes + [[]], n) ensures NodeOk(pes, n) {
    }
  }

  // ---------------------------------------------------------------- when arcs are left out

  /** The order in which pairs of tasks are looked at. */
  predicate Earlier(l: Link, m: Link) {
    l.dag < m.dag || (l.dag == m.dag && (l.from < m.from || (l.from == m.from && l.to < m.to)))
  }

  /** The schedule so far: tasks, vertices, task graphs, arcs and reservations. */
  datatype Plan = Plan(pes: seq<seq<Use>>, nodes: seq<seq<Node>>, dags: seq<Digraph>, links: seq<Link>, coms: seq<seq<Use>>)

  /** What an arc depends on besides: the data rates, the fill factor, the data of an arc within a processor and the
      degree limits. */
  datatype Limits = Limits(rates: seq<real>, fill: real, localData: real, inDeg: int, outDeg: int)

  /** The second task starts after the first has finished. */
  predicate Candidate(p: Plan, l: Link) {
    && 0 <= l.dag < |p.nodes| && 0 <= l.from < |p.nodes[l.dag]| && 0 <= l.to < |p.nodes[l.dag]|
    && Finish(p.pes, p.nodes[l.dag][l.from]) < Begin(p.pes, p.nodes[l.dag][l.to])
  }

  /** A degree limit has been reached. */
  predicate Full(dags: seq<Digraph>, l: Link, lim: Limits) {
    && 0 <= l.dag < |dags| && IsVertex(dags[l.dag], l.from) && IsVertex(dags[l.dag], l.to)
    && ((lim.outDeg >= 0 && |dags[l.dag].vertices[l.from].outs| >= lim.outDeg)
        || (lim.inDeg >= 0 && |dags[l.dag].vertices[l.to].ins| >= lim.inDeg))
  }

  /** The reservations in c are those among coms that belong to arcs earlier than l. */
  ghost predicate Snapshot(c: seq<seq<Use>>, p: Plan, l: Link) {
    && Extends(c, p.coms)
    && forall k, j :: 0 <= k < |c| && 0 <= j < |p.coms[k]| ==>
         0 <= p.coms[k][j].id < |p.links| && (j < |c[k]| <==> Earlier(p.links[p.coms[k][j].id], l))
  }

  /** With the reservations of the earlier arcs alone there was no room for this one. */
  ghost predicate NoRoom(p: Plan, lim: Limits, l: Link, t1: real, t2: real) {
    exists c: seq<seq<Use>> :: Snapshot(c, p, l) && |c| == |lim.rates| && !HasRoom(c, lim.rates, t1, t2, lim.fill)
  }

  /** The candidate has its arc, or one of the reasons for leaving it out applies. */
  ghost predicate Settled(p: Plan, lim: Limits, l: Link)
    requires Candidate(p, l)
  {
    var producer, consumer := p.nodes[l.dag][l.from], p.nodes[l.dag][l.to];
    || l in p.links
    || Full(p.dags, l, lim)
    || (if producer.pe == consumer.pe then lim.localData < 1.0
        else NoRoom(p, lim, l, Finish(p.pes, producer), Begin(p.pes, consumer)))
  }

  ghost predicate SettledBefore(p: Plan, lim: Limits, m: Link) {
    forall l: Link :: Candidate(p, l) && Earlier(l, m) ==> Settled(p, lim, l)
  }

  /** All arcs that exist are earlier than m, and every reservation belongs to one. */
  ghost predicate Underway(p: Plan, m: Link) {
    && (forall i :: 0 <= i < |p.links| ==> Earlier(p.links[i], m))
    && forall k, j :: 0 <= k < |p.coms| && 0 <= j < |p.coms[k]| ==> 0 <= p.coms[k][j].id < |p.links|
  }

  /** Every pair of tasks that could be joined is joined, unless a reason applies. */
  ghost predicate Complete(p: Plan, lim: Limits) {
    forall l: Link :: Candidate(p, l) ==> Settled(p, lim, l)
  }

  /** Only the new arc's reservation has been added to the reservations. */
  ghost predicate ReservesFor(before: seq<seq<Use>>, after: seq<seq<Use>>, id: int) {
    && Extends(before, after)
    && forall k, j :: 0 <= k < |before| && |before[k]| <= j < |after[k]| ==> after[k][j].id == id
  }

  /** The plan with one more arc. */
  ghost predicate Joined(p: Plan, q: Plan, m: Link) {
    && q.pes == p.pes && q.nodes == p.nodes && q.links == p.links + [m] && ReservesFor(p.coms, q.coms, |p.links|)
    && 0 <= m.dag < |p.dags| && IsVertex(p.dags[m.dag], m.from) && IsVertex(p.dags[m.dag], m.to)
    && q.dags == p.dags[m.dag := RawGraphs.WithEdge(p.dags[m.dag], m.from, m.to)]
  }

  lemma FullStays(p: Plan, q: Plan, lim: Limits, l: Link, m: Link)
    requires Joined(p, q, m) && Full(p.dags, l, lim)
    ensures Full(q.dags, l, lim)
  {
  }

  lemma SnapshotStays(c: seq<seq<Use>>, p: Plan, q: Plan, l: Link, m: Link)
    requires Joined(p, q, m) && Snapshot(c, p, l) && Earlier(l, m)
    ensures Snapshot(c, q, l)
  {
    forall k, j | 0 <= k < |c| && 0 <= j < |q.coms[k]|
      ensures 0 <= q.coms[k][j].id < |q.links| && (j < |c[k]| <==> Earlier(q.links[q.coms[k][j].id], l))
    {
      if j < |p.coms[k]| {
        assert q.coms[k][j] == p.coms[k][j];
      }
    }
  }

  /** A new arc unsettles no earlier pair. */
  lemma SettledStays(p: Plan, q: Plan, lim: Limits, m: Link)
    requires Joined(p, q, m) && SettledBefore(p, lim, m)
    ensures SettledBefore(q, lim, m)
  {
    hide HasRoom;
    hide Finish;
    hide Begin;
    hide Snapshot;
    forall l: Link | Candidate(q, l) && Earlier(l, m) ensures Settled(q, lim, l) {
      var producer, consumer := p.nodes[l.dag][l.from], p.nodes[l.dag][l.to];
      assert Candidate(p, l) && Settled(p, lim, l);
      if Full(p.dags, l, lim) {
        FullStays(p, q, lim, l, m);
      } else if l !in p.links && producer.pe != consumer.pe {
        var c: seq<seq<Use>> :| Snapshot(c, p, l) && |c| == |lim.rates|
          && !HasRoom(c, lim.rates, Finish(p.pes, producer), Begin(p.pes, consumer), lim.fill);
        SnapshotStays(c, p, q, l, m);
      }
    }
  }

  /** What is reserved now are the reservations of the arcs earlier than the pair looked at. */
  lemma SnapshotNow(p: Plan, m: Link)
    requires Underway(p, m)
    ensures Snapshot(p.coms, p, m)
  {
  }

  function NextLink(m: Link): Link {
    Link(m.dag, m.from, m.to + 1)
  }

  /** The pair has been looked at: with its arc, or rightly without. */
  lemma StepSettles(p: Plan, q: Plan, lim: Limits, m: Link)
    requires Underway(p, m) && SettledBefore(p, lim, m)
    requires q == p || Joined(p, q, m)
    requires Candidate(q, m) ==> Settled(q, lim, m)
    ensures Underway(q, NextLink(m)) && SettledBefore(q, lim, NextLink(m))
  {
    hide Settled;
    hide Candidate;
    if q != p {
      SettledStays(p, q, lim, m);
      forall k, j | 0 <= k < |q.coms| && 0 <= j < |q.coms[k]| ensures 0 <= q.coms[k][j].id < |q.links| {
        if j < |p.coms[k]| {
          assert q.coms[k][j] == p.coms[k][j];
        }
      }
    }
    forall l: Link | Earlier(l, NextLink(m)) ensures Earlier(l, m) || l == m {
    }
  }

  lemma RowSettled(p: Plan, lim: Limits, x: int, y: int)
    requires 0 <= x < |p.nodes| && Underway(p, Link(x, y, |p.nodes[x]|)) && SettledBefore(p, lim, Link(x, y, |p.nodes[x]|))
    ensures Underway(p, Link(x, y + 1, 0)) && SettledBefore(p, lim, Link(x, y + 1, 0))
  {
    hide Settled;
    forall l: Link | Candidate(p, l) && Earlier(l, Link(x, y + 1, 0)) ensures Settled(p, lim, l) {
      assert Earlier(l, Link(x, y, |p.nodes[x]|));
    }
  }

  lemma GraphSettled(p: Plan, lim: Limits, x: int)
    requires 0 <= x < |p.nodes| && Underway(p, Link(x, |p.nodes[x]|, 0)) && SettledBefore(p, lim, Link(x, |p.nodes[x]|, 0))
    ensures Underway(p, Link(x + 1, 0, 0)) && SettledBefore(p, lim, Link(x + 1, 0, 0))
  {
    hide Settled;
    forall l: Link | Candidate(p, l) && Earlier(l, Link(x + 1, 0, 0)) ensures Settled(p, lim, l) {
      assert Earlier(l, Link(x, |p.nodes[x]|, 0));
    }
  }

  lemma AllSettled(p: Plan, lim: Limits)
    requires SettledBefore(p, lim, Link(|p.nodes|, 0, 0))
    ensures Complete(p, lim)
  {
    hide Settled;
  }

  lemma NothingYet(p: Plan, lim: Limits)
    requires p.links == [] && forall k :: 0 <= k < |p.coms| ==> p.coms[k] == []
    ensures Underway(p, Link(0, 0, 0)) && SettledBefore(p, lim, Link(0, 0, 0))
  {
    hide Settled;
  }

  /** The pair's arc would carry data. */
  predicate Allowed(p: Plan, l: Link, lim: Limits)
    requires Candidate(p, l)
  {
    var producer, consumer := p.nodes[l.dag][l.from], p.nodes[l.dag][l.to];
    if producer.pe == consumer.pe then lim.localData >= 1.0
    else |p.coms| == |lim.rates| && HasRoom(p.coms, lim.rates, Finish(p.pes, producer), Begin(p.pes, consumer), lim.fill)
  }

  lemma TriedIsSettled(p: Plan, q: Plan, lim: Limits, m: Link)
    requires Underway(p, m) && |p.coms| == |lim.rates|
    requires if Candidate(p, m) && !Full(p.dags, m, lim) && Allowed(p, m, lim) then Joined(p, q, m) else q == p
    ensures (q == p || Joined(p, q, m)) && (Candidate(q, m) ==> Settled(q, lim, m))
  {
    hide Full;
    hide HasRoom;
    hide Finish;
    hide Begin;
    hide Snapshot;
    hide ReservesFor;
    SnapshotNow(p, m);
    if q != p {
      assert q.links[|p.links|] == m;
    }
  }

  lemma ReservedFor(before: seq<seq<Use>>, after: seq<seq<Use>>, id: int, t1: real, t2: real)
    requires Reserved(before, after, id, t1, t2)
    ensures ReservesFor(before, after, id)
  {
    var k: int, u: Use :| ReservedAt(before, after, k, u, id, t1, t2);
  }

  lemma PackOne(us: seq<Use>, h: real, slack: real, soFar: real, u: Use)
    requires Packed(us, h, slack) && u.ts == soFar && 0.0 <= soFar < u.te <= h
    requires soFar == if us == [] then 0.0 else us[|us| - 1].te + slack
    ensures Packed(us + [u], h, slack)
  {
  }

  // ---------------------------------------------------------------- the object

  class PGraph {
    const hPeriod: real
    const taskSlack: real
    const arcFillFactor: real
    const avgTaskTime: real
    const inDeg: int
    const outDeg: int
    const baseRate: real
    const rates: seq<real>
    const comSoln: array<seq<Use>>
    var peSoln: seq<seq<Use>>
    var nodes: seq<seq<Node>>
    var dags: seq<Digraph>
    var links: seq<Link>
    var taskCount: int

    ghost predicate Valid()
      reads this, comSoln
    {
      && taskSlack >= 0.0 && 0.0 < arcFillFactor <= 1.0
      && |rates| == comSoln.Length && (forall k :: 0 <= k < |rates| ==> rates[k] > 0.0)
      && (forall k :: 0 <= k < |peSoln| ==> Packed(peSoln[k], hPeriod, taskSlack))
      && NodesOk(peSoln, nodes) && TasksOnce(peSoln, nodes) && DagsOk(dags, nodes, links)
      && LinksOk(peSoln, nodes, comSoln[..], links) && AllValid(comSoln[..])
      && (forall x :: 0 <= x < |dags| ==> DegreesOk(dags[x], inDeg, outDeg))
    }

    ghost function State(): Plan
      reads this, comSoln
    {
      Plan(peSoln, nodes, dags, links, comSoln[..])
    }

    ghost function Bounds(): Limits {
      Limits(rates, arcFillFactor, 0.2 * avgTaskTime * baseRate, inDeg, outDeg)
    }

    /** Drawing a task graph for a task and adding its vertex. */
    method AddTask(u: Use) returns (w: int)
      requires Valid() && |peSoln| > 0 && |dags| > 0 && links == []
      requires Packed(peSoln[|peSoln| - 1] + [u], hPeriod, taskSlack)
      modifies this
      ensures Valid() && links == [] && |dags| == old(|dags|) && taskCount == old(taskCount) + 1
      ensures peSoln == old(peSoln[|peSoln| - 1 := peSoln[|peSoln| - 1] + [u]])
      ensures 0 <= w < old(|nodes|)
      ensures nodes == old(nodes[w := nodes[w] + [Node(|peSoln| - 1, |peSoln[|peSoln| - 1]|)]])
    {
      hide TasksOnce;
      hide DagsOk;
      hide NodesOk;
      hide Packed;
      hide ValidUses;
      hide Consistent;
      w :| 0 <= w < |dags|;
      var k := |peSoln| - 1;
      DagCount(nodes, dags, []);
      NewTaskOnce(peSoln, nodes, w, u);
      NewNodeOk(peSoln, nodes, w, u);
      AddNode(nodes, dags, w, Node(k, |peSoln[k]|));
      nodes := nodes[w := nodes[w] + [Node(k, |peSoln[k]|)]];
      peSoln := peSoln[k := peSoln[k] + [u]];
      dags := dags[w := dags[w].(vertices := dags[w].vertices + [Vertex([], [])])];
      taskCount := taskCount + 1;
    }

    /** The packing loop for one processor. Task times are drawn from above a positive bound, clipped to the period. */
    method PackProcessor(shortest: real)
      requires Valid() && |dags| > 0 && links == [] && shortest > 0.0
      modifies this
      ensures Valid() && |dags| == old(|dags|) && links == []
      ensures |peSoln| == old(|peSoln|) + 1 && peSoln[..old(|peSoln|)] == old(peSoln)
      ensures hPeriod <= 0.0 || (var us := peSoln[|peSoln| - 1]; us != [] && us[|us| - 1].te + taskSlack >= hPeriod)
    {
      hide TasksOnce;
      hide DagsOk;
      hide NodesOk;
      hide Packed;
      hide ValidUses;
      ghost var before := peSoln;
      NewProcessor(peSoln, nodes, hPeriod, taskSlack);
      NewProcessorOnce(peSoln, nodes);
      peSoln := peSoln + [[]];
      var k := |peSoln| - 1;
      var soFar := 0.0;
      while soFar < hPeriod
        invariant Valid() && |peSoln| == k + 1 && |dags| == old(|dags|) && links == [] && 0.0 <= soFar
        invariant peSoln[..k] == before
        invariant soFar == if peSoln[k] == [] then 0.0 else peSoln[k][|peSoln[k]| - 1].te + taskSlack
        decreases if soFar < hPeriod then ((hPeriod - soFar) / shortest).Floor + 1 else 0
      {
        var t: real := *;
        if t < shortest {
          t := shortest;
        }
        if hPeriod - soFar < t {
          t := hPeriod - soFar;
        }
        var u := Use(taskCount, soFar, t + soFar);
        PackOne(peSoln[k], hPeriod, taskSlack, soFar, u);
        var w := AddTask(u);
        if t >= shortest {
          FloorDrops(hPeriod - soFar, t + taskSlack, shortest);
        } else {
        }
        soFar := soFar + (t + taskSlack);
      }
    }

    method OutArcOk(x: int, node: int) returns (r: bool)
      requires 0 <= x < |dags| && IsVertex(dags[x], node)
      ensures r <==> (outDeg >= 0 ==> |dags[x].vertices[node].outs| < outDeg)
    {
      if outDeg >= 0 {
        return |dags[x].vertices[node].outs| < outDeg;
      }
      return true;
    }

    method InArcOk(x: int, node: int) returns (r: bool)
      requires 0 <= x < |dags| && IsVertex(dags[x], node)
      ensures r <==> (inDeg >= 0 ==> |dags[x].vertices[node].ins| < inDeg)
    {
      if inDeg >= 0 {
        return |dags[x].vertices[node].ins| < inDeg;
      }
      return true;
    }

    /** The body of the arc-creation loops: an arc from task y to task z of graph x exactly when times, degree limits and
        communication resources allow one. Arcs within a processor need no reservation. */
    method TryArc(x: int, y: int, z: int)
      requires Valid() && 0 <= x < |dags| && |dags| == |nodes| && 0 <= y < |nodes[x]| && 0 <= z < |nodes[x]|
      modifies this`dags, this`links, comSoln
      ensures Valid() && |dags| == old(|dags|)
      ensures var p, l := old(State()), Link(x, y, z);
              if Candidate(p, l) && !Full(p.dags, l, Bounds()) && Allowed(p, l, Bounds()) then
                Joined(p, State(), l) && (nodes[x][y].pe != nodes[x][z].pe ==> exists start, length ::
                  Takes(p.coms, comSoln[..], rates, |p.links|, Finish(peSoln, nodes[x][y]), Begin(peSoln, nodes[x][z]),
                        arcFillFactor, start, length))
              else State() == p
    {
      hide TasksOnce;
      hide Takes;
      hide HasRoom;
      hide DagsOk;
      hide NodesOk;
      hide LinksOk;
      hide DegreesOk;
      hide AllValid;
      hide Packed;
      hide Reserved;
      hide Carried;
      DagSize(nodes, dags, links, x);
      var outOk := OutArcOk(x, y);
      var inOk := InArcOk(x, z);
      if !(outOk && inOk) {
        return;
      }
      TaskTimes(peSoln, nodes, hPeriod, taskSlack, x, y);
      TaskTimes(peSoln, nodes, hPeriod, taskSlack, x, z);
      var n1, n2 := nodes[x][y], nodes[x][z];
      var n1end := peSoln[n1.pe][n1.use].te;
      var n2beg := peSoln[n2.pe][n2.use].ts;
      if n2beg > n1end {
        ghost var before := comSoln[..];
        var id := |links|;
        if n1.pe == n2.pe {
          var size := 0.2 * avgTaskTime * baseRate;
          if size >= 1.0 {
            JoinTasks(x, y, z);
          }
        } else {
          var size := ComPossible(id, n1end, n2beg, comSoln, rates, arcFillFactor);
          if size > 0.0 {
            ReservedFor(before, comSoln[..], id, n1end, n2beg);
            ReservedIsCarried(before, comSoln[..], id, n1end, n2beg);
            LinksStay(peSoln, nodes, before, comSoln[..], links);
            JoinTasks(x, y, z);
          }
        }
      }
    }

    /** add_edge with its bookkeeping. */
    method JoinTasks(x: int, y: int, z: int)
      requires Valid() && 0 <= x < |dags| && |dags| == |nodes| && 0 <= y < |nodes[x]| && 0 <= z < |nodes[x]|
      requires LinkOk(peSoln, nodes, comSoln[..], Link(x, y, z), |links|)
      requires |dags[x].vertices| == |nodes[x]|
      requires outDeg >= 0 ==> |dags[x].vertices[y].outs| < outDeg
      requires inDeg >= 0 ==> |dags[x].vertices[z].ins| < inDeg
      modifies this`dags, this`links
      ensures Valid() && links == old(links) + [Link(x, y, z)]
      ensures dags == old(dags)[x := RawGraphs.WithEdge(old(dags)[x], y, z)]
    {
      hide TasksOnce;
      hide DagsOk;
      hide NodesOk;
      hide DegreesOk;
      hide AllValid;
      hide Packed;
      hide LinkOk;
      AddLink(nodes, links, dags, Link(x, y, z));
      DegreesAfterEdge(dags[x], inDeg, outDeg, y, z);
      dags := dags[x := RawGraphs.WithEdge(dags[x], y, z)];
      links := links + [Link(x, y, z)];
    }

    /** The arc-creation loops: afterwards every pair of tasks that could be joined is joined, unless a degree limit has
        been reached, the data of an arc within a processor is too small, or the reservations of the earlier arcs had
        left no room. */
    method CreateArcs()
      requires Valid() && links == [] && forall k :: 0 <= k < comSoln.Length ==> comSoln[k] == []
      modifies this`dags, this`links, comSoln
      ensures Valid() && |dags| == old(|dags|) && Complete(State(), Bounds())
    {
      hide PGraph.Valid;
      hide Complete;
      hide Underway;
      hide SettledBefore;
      ghost var count := |dags|;
      NothingYet(State(), Bounds());
      SameCount();
      for x := 0 to |dags|
        invariant Valid() && |dags| == count == |nodes|
        invariant Underway(State(), Link(x, 0, 0)) && SettledBefore(State(), Bounds(), Link(x, 0, 0))
      {
        for y := 0 to |nodes[x]|
          invariant Valid() && |dags| == count == |nodes|
          invariant Underway(State(), Link(x, y, 0)) && SettledBefore(State(), Bounds(), Link(x, y, 0))
        {
          for z := 0 to |nodes[x]|
            invariant Valid() && |dags| == count == |nodes|
            invariant Underway(State(), Link(x, y, z)) && SettledBefore(State(), Bounds(), Link(x, y, z))
          {
            SettleNext(x, y, z);
          }
          RowSettled(State(), Bounds(), x, y);
        }
        GraphSettled(State(), Bounds(), x);
      }
      AllSettled(State(), Bounds());
    }

    /** One pass of the arc-creation loops settles one more pair. */
    method SettleNext(x: int, y: int, z: int)
      requires Valid() && 0 <= x < |dags| && |dags| == |nodes| && 0 <= y < |nodes[x]| && 0 <= z < |nodes[x]|
      requires Underway(State(), Link(x, y, z)) && SettledBefore(State(), Bounds(), Link(x, y, z))
      modifies this`dags, this`links, comSoln
      ensures Valid() && |dags| == old(|dags|)
      ensures Underway(State(), Link(x, y, z + 1)) && SettledBefore(State(), Bounds(), Link(x, y, z + 1))
    {
      hide PGraph.Valid;
      hide Underway;
      hide SettledBefore;
      hide Joined;
      hide Takes;
      hide Full;
      ghost var p, m := State(), Link(x, y, z);
      RatesCount();
      TryArc(x, y, z);
      TriedIsSettled(p, State(), Bounds(), m);
      StepSettles(p, State(), Bounds(), m);
      SameCount();
    }

    lemma RatesCount()
      requires Valid()
      ensures |rates| == comSoln.Length
    {
    }

    lemma SameCount()
      requires Valid()
      ensures |dags| == |nodes|
    {
    }

    /** The whole construction. Afterwards the schedule is valid. comRates holds the data rate of each communication
        type, comKinds the type of each communication resource. */
    constructor (numTaskGraphs: nat, numPes: nat, period: real, slack: real, fill: real, averageTime: real, shortest: real,
                 comRates: seq<real>, comKinds: seq<nat>, inLimit: int, outLimit: int)
      requires numTaskGraphs > 0 && slack >= 0.0 && 0.0 < fill <= 1.0 && shortest > 0.0
      requires |comRates| > 0 && forall k :: 0 <= k < |comRates| ==> comRates[k] > 0.0
      requires forall k :: 0 <= k < |comKinds| ==> comKinds[k] < |comRates|
      ensures Valid() && fresh(comSoln) && |peSoln| == numPes && |dags| == numTaskGraphs
      ensures hPeriod == period && taskSlack == slack && inDeg == inLimit && outDeg == outLimit
      ensures |rates| == |comKinds| && forall k :: 0 <= k < |rates| ==> rates[k] == comRates[comKinds[k]]
      ensures Bounds() == Limits(rates, fill, 0.2 * averageTime * comRates[0], inLimit, outLimit)
      ensures Complete(State(), Bounds())
    {
      hPeriod, taskSlack, arcFillFactor, avgTaskTime := period, slack, fill, averageTime;
      inDeg, outDeg, baseRate := inLimit, outLimit, comRates[0];
      rates := seq(|comKinds|, k requires 0 <= k < |comKinds| => comRates[comKinds[k]]);
      comSoln := new seq<Use>[|comKinds|](k => []);
      peSoln, links, taskCount := [], [], 0;
      nodes := seq(numTaskGraphs, x => []);
      dags := seq(numTaskGraphs, x => Digraph([], []));
      new;
      for k := 0 to numPes
        invariant Valid() && |dags| == numTaskGraphs && links == [] && |peSoln| == k
        invariant forall j :: 0 <= j < comSoln.Length ==> comSoln[j] == []
      {
        PackProcessor(shortest);
      }
      CreateArcs();
    }

    // -------------------------------------------------------------- what a valid schedule promises

    /** Tasks on one processor do not overlap and lie inside the period. */
    lemma TasksFit(k: int)
      requires Valid() && 0 <= k < |peSoln|
      ensures ValidUses(peSoln[k]) && forall i :: 0 <= i < |peSoln[k]| ==> peSoln[k][i].te <= hPeriod
    {
      PackedIsValid(peSoln[k], hPeriod, taskSlack);
    }

    /** Every task graph is acyclic. */
    lemma GraphIsAcyclic(x: int)
      requires Valid() && 0 <= x < |dags|
      ensures Acyclic(dags[x], false)
    {
      hide Acyclic;
      hide LinksOk;
      hide DagsOk;
      hide NodesOk;
      TaskGraphsAreAcyclic(peSoln, nodes, comSoln[..], links, dags, x);
    }

    /** Every arc between processors has a reservation after its producer's end and before its consumer's start. */
    lemma ArcsAreReserved(i: int)
      requires Valid() && 0 <= i < |links|
      ensures LinkOk(peSoln, nodes, comSoln[..], links[i], i)
    {
    }
  }

  lemma DagSize(nodes: seq<seq<Node>>, dags: seq<Digraph>, links: seq<Link>, x: int)
    requires DagsOk(dags, nodes, links) && 0 <= x < |dags|
    ensures |dags[x].vertices| == |nodes[x]|
  {
  }

  lemma TaskTimes(pes: seq<seq<Use>>, nodes: seq<seq<Node>>, h: real, slack: real, x: int, v: int)
    requires NodesOk(pes, nodes) && 0 <= x < |nodes| && 0 <= v < |nodes[x]|
    requires forall k :: 0 <= k < |pes| ==> Packed(pes[k], h, slack)
    ensures NodeOk(pes, nodes[x][v]) && 0.0 <= Begin(pes, nodes[x][v]) < Finish(pes, nodes[x][v])
  {
  }

  lemma FloorDrops(room: real, step: real, shortest: real)
    requires shortest > 0.0 && room > 0.0 && step >= shortest
    ensures room - step > 0.0 ==> (room - step) / shortest <= room / shortest - 1.0
    ensures room / shortest >= 0.0
  {
    assert (room - step) / shortest == room / shortest - step / shortest;
    assert step / shortest >= 1.0;
  }

  lemma NewProcessor(pes: seq<seq<Use>>, nodes: seq<seq<Node>>, h: real, slack: real)
    requires NodesOk(pes, nodes)
    ensures NodesOk(pes + [[]], nodes) && Packed([], h, slack)
  {
  }

  lemma DagCount(nodes: seq<seq<Node>>, dags: seq<Digraph>, links: seq<Link>)
    requires DagsOk(dags, nodes, links)
    ensures |dags| == |nodes|
  {
  }
}
