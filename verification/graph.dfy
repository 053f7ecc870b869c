/** The span graph of one trace: one node per span, an edge from parent to
    child wherever a span's parent resolves inside the trace, built the way
    `Graph::new` drives its DAG. The DAG is a node sequence, an id to index
    table and the edge list in insertion order. */
module SpanGraph {
  import opened Wrappers
  import Seqs
  import opened Primitives

  datatype Edge = Edge(parent: nat, child: nat)

  datatype GraphObject = GraphObject(nodes: seq<Span>, lookup: map<string, nat>, edges: seq<Edge>)

  /** Every index in the table and on an edge names a node */
  predicate WellFormed(g: GraphObject) {
    && (forall k | k in g.lookup :: g.lookup[k] < |g.nodes|)
    && (forall i | 0 <= i < |g.edges| :: g.edges[i].parent < |g.nodes| && g.edges[i].child < |g.nodes|)
  }

  type Graph = g: GraphObject | WellFormed(g) witness GraphObject([], map[], [])

  /** The DAG's refusal of an edge that would close a cycle */
  datatype GraphError = WouldCycle(parent: nat, child: nat)

  /** A path of at most `fuel` edges leads from `from` to `to` */
  predicate Reaches(edges: seq<Edge>, from: nat, to: nat, fuel: nat)
    decreases fuel
  {
    from == to ||
    (fuel > 0 && exists i | 0 <= i < |edges| :: edges[i].parent == from && Reaches(edges, edges[i].child, to, fuel - 1))
  }

  /** Adding an edge to the DAG: refused when the child already reaches the
      parent (a path in a graph of n nodes needs at most n edges) */
  function AddEdge(g: Graph, p: nat, c: nat): (r: Result<Graph, GraphError>)
    requires p < |g.nodes| && c < |g.nodes|
    ensures r.Err? <==> Reaches(g.edges, c, p, |g.nodes|)
    ensures r.Err? ==> r.error == WouldCycle(p, c)
    ensures r.Ok? ==> r.value.nodes == g.nodes && r.value.lookup == g.lookup && r.value.edges == g.edges + [Edge(p, c)]
  {
    if Reaches(g.edges, c, p, |g.nodes|) then Err(WouldCycle(p, c))
    else Ok(g.(edges := g.edges + [Edge(p, c)]))
  }

  /** One node per span, in the hash map's order */
  function Nodes(t: Trace): (nodes: seq<Span>)
    ensures |nodes| == |t.order|
    ensures forall i | 0 <= i < |t.order| :: nodes[i] == t.spans[t.order[i]]
  {
    seq(|t.order|, i requires 0 <= i < |t.order| => t.spans[t.order[i]])
  }

  /** The id to node index table */
  function Lookup(t: Trace): (m: map<string, nat>)
    ensures m.Keys == t.spans.Keys
    ensures forall k | k in m :: m[k] < |t.order| && t.order[m[k]] == k
  {
    IndexFrom(t.order, 0)
  }

  /** Each id of `order[i..]` mapped to its first position there */
  function IndexFrom(order: seq<string>, i: nat): (m: map<string, nat>)
    requires i <= |order|
    ensures forall k :: k in m <==> exists j | i <= j < |order| :: order[j] == k
    ensures forall k | k in m :: i <= m[k] < |order| && order[m[k]] == k
    decreases |order| - i
  {
    if i == |order| then map[] else IndexFrom(order, i + 1)[order[i] := i]
  }

  /** The table sends the id at each position of the hash map's order back to that position */
  lemma LookupInverse(t: Trace, i: nat)
    requires i < |t.order|
    ensures Lookup(t)[t.order[i]] == i
  {
    var j := Lookup(t)[t.order[i]];
    assert t.order[j] == t.order[i];
  }

  /** The table entry of a span of the trace points back at it */
  lemma LookupAt(t: Trace, id: string)
    requires id in t.spans
    ensures Lookup(t)[id] < |t.order| && t.order[Lookup(t)[id]] == id
  {
  }

  /** The edge `Graph::new` adds for span `id`, if its parent resolves */
  function EdgeFor(t: Trace, id: string): (r: Option<Edge>)
    ensures r.Some? <==> ParentKey(t, id).Some?
  {
    match ParentKey(t, id)
    case None => None
    case Some(p) => Some(Edge(Lookup(t)[p], Lookup(t)[id]))
  }

  /** The edges added for the spans `ids`, in that order */
  function EdgesFor(t: Trace, ids: seq<string>): seq<Edge>
    decreases |ids|
  {
    if |ids| == 0 then []
    else
      var last := ids[|ids| - 1];
      EdgesFor(t, ids[..|ids| - 1]) + (match EdgeFor(t, last) case None => [] case Some(e) => [e])
  }

  /** Every edge of `es` joins two of the first `n` nodes */
  predicate Within(es: seq<Edge>, n: nat) {
    forall i | 0 <= i < |es| :: es[i].parent < n && es[i].child < n
  }

  /** `add_edge` for each of `es` in turn, stopping at the first refusal;
      a refused edge is one whose child already reaches its parent through
      the edges there before it */
  function AddAll(g: Graph, es: seq<Edge>): (r: Result<Graph, GraphError>)
    requires Within(es, |g.nodes|)
    ensures r.Ok? ==> r.value.nodes == g.nodes && r.value.lookup == g.lookup && r.value.edges == g.edges + es
    ensures r.Err? ==> exists i | 0 <= i < |es| ::
              && es[i] == Edge(r.error.parent, r.error.child)
              && Reaches(g.edges + es[..i], es[i].child, es[i].parent, |g.nodes|)
    decreases |es|
  {
    if |es| == 0 then Ok(g)
    else
      match AddEdge(g, es[0].parent, es[0].child)
      case Err(e) =>
        assert g.edges + es[..0] == g.edges;
        Err(e)
      case Ok(g') =>
        var r := AddAll(g', es[1..]);
        assert r.Ok? ==> g'.edges + es[1..] == g.edges + es;
        assert r.Err? ==> exists i | 0 <= i < |es| ::
                 && es[i] == Edge(r.error.parent, r.error.child)
                 && Reaches(g.edges + es[..i], es[i].child, es[i].parent, |g.nodes|) by {
          if r.Err? {
            var j :| 0 <= j < |es[1..]| && es[1..][j] == Edge(r.error.parent, r.error.child)
                     && Reaches(g'.edges + es[1..][..j], es[1..][j].child, es[1..][j].parent, |g'.nodes|);
            assert g'.edges + es[1..][..j] == g.edges + es[..j + 1];
          }
        }
        r
  }

  /** The DAG after the first loop of `Graph::new`: every span added as a
      node, in the hash map's order, and no edge yet */
  function Unlinked(t: Trace): Graph {
    GraphObject(Nodes(t), Lookup(t), [])
  }

  /** `Graph::new`: one node per span, then, for each span in the hash
      map's order whose parent resolves, the edge from the parent's node to
      the span's node; a refused edge fails the construction */
  function New(t: Trace): (r: Result<Graph, GraphError>)
    ensures r.Ok? ==> |r.value.nodes| == |t.order| && r.value.lookup == Lookup(t)
    ensures r.Err? ==> Edge(r.error.parent, r.error.child) in EdgesFor(t, t.order)
  {
    EdgesWithin(t);
    AddAll(Unlinked(t), EdgesFor(t, t.order))
  }

  /** The edges built for a trace join nodes of the trace */
  lemma EdgesWithin(t: Trace)
    ensures Within(EdgesFor(t, t.order), |Nodes(t)|)
  {
    EdgesForSound(t, t.order);
  }

  /** The spans whose parent resolves inside the trace */
  function Resolvable(t: Trace): set<string> {
    set k | k in t.spans && ParentKey(t, k).Some?
  }

  /** The edge list built for `ids` holds the edge of every span of `ids`
      whose parent resolves */
  lemma {:induction false} EdgesForComplete(t: Trace, ids: seq<string>, i: nat)
    requires i < |ids| && EdgeFor(t, ids[i]).Some?
    ensures EdgeFor(t, ids[i]).value in EdgesFor(t, ids)
    decreases |ids|
  {
    var init := ids[..|ids| - 1];
    if i < |ids| - 1 {
      assert init[i] == ids[i];
      EdgesForComplete(t, init, i);
    }
  }

  /** Every edge built for `ids` is the edge of the span of `ids` at its child end */
  lemma {:induction false} EdgesForSound(t: Trace, ids: seq<string>)
    ensures forall n | 0 <= n < |EdgesFor(t, ids)| ::
              var e := EdgesFor(t, ids)[n];
              e.parent < |t.order| && e.child < |t.order| && t.order[e.child] in ids && EdgeFor(t, t.order[e.child]) == Some(e)
    decreases |ids|
  {
    if |ids| > 0 {
      var init := ids[..|ids| - 1];
      var last := ids[|ids| - 1];
      EdgesForSound(t, init);
      var before := EdgesFor(t, init);
      var tail := match EdgeFor(t, last) case None => [] case Some(e) => [e];
      var es := EdgesFor(t, ids);
      assert es == before + tail;
      forall n | 0 <= n < |es|
        ensures es[n].parent < |t.order| && es[n].child < |t.order| && t.order[es[n].child] in ids && EdgeFor(t, t.order[es[n].child]) == Some(es[n])
      {
        if n < |before| {
          assert es[n] == before[n];
          assert t.order[before[n].child] in init;
        } else {
          EdgeForParent(t, last);
          LookupAt(t, last);
        }
      }
    }
  }

  /** No two edges built for duplicate-free `ids` share a child */
  lemma {:induction false} EdgesForChildrenDistinct(t: Trace, ids: seq<string>)
    requires Seqs.Distinct(ids)
    ensures forall n, m | 0 <= n < m < |EdgesFor(t, ids)| :: EdgesFor(t, ids)[n].child != EdgesFor(t, ids)[m].child
    decreases |ids|
  {
    if |ids| > 0 {
      var init := ids[..|ids| - 1];
      var last := ids[|ids| - 1];
      EdgesForChildrenDistinct(t, init);
      EdgesForSound(t, init);
      var before := EdgesFor(t, init);
      if EdgeFor(t, last).Some? {
        var e := EdgeFor(t, last).value;
        assert EdgesFor(t, ids) == before + [e];
        LookupAt(t, last);
        assert last !in init;
        forall n | 0 <= n < |before|
          ensures before[n].child != e.child
        {
          assert t.order[before[n].child] in init;
        }
      } else {
        assert EdgesFor(t, ids) == before;
      }
    }
  }

  function HasResolvableParent(t: Trace): string -> bool {
    k => ParentKey(t, k).Some?
  }

  /** One edge per span of `ids` whose parent resolves */
  lemma {:induction false} EdgesForCount(t: Trace, ids: seq<string>)
    ensures |EdgesFor(t, ids)| == Seqs.CountWhere(ids, HasResolvableParent(t))
    decreases |ids|
  {
    if |ids| > 0 {
      EdgesForCount(t, ids[..|ids| - 1]);
    }
  }

  /** The edge of a span joins the table indices of its resolved parent and of itself */
  lemma EdgeForParent(t: Trace, id: string)
    ensures GetParent(t, id).None? ==> EdgeFor(t, id).None?
    ensures GetParent(t, id).Some? ==>
              EdgeFor(t, id) == Some(Edge(Lookup(t)[GetParent(t, id).value.spanId], Lookup(t)[id]))
  {
  }

  /** `Graph::new` keeps its node sequence and table: one node per span,
      every id indexed to the node of its span */
  lemma NewNodes(t: Trace)
    ensures var r := New(t);
            r.Ok? ==>
              && |r.value.nodes| == |t.spans|
              && r.value.lookup.Keys == t.spans.Keys
              && (forall k | k in t.spans :: r.value.nodes[r.value.lookup[k]] == t.spans[k])
  {
    Seqs.DistinctCardinality(t.order);
    assert (set x | x in t.order) == t.spans.Keys;
  }

  /** A built graph's edges are the edges of the spans in the hash map's
      order; a refused edge is the edge of the span at its child end */
  lemma NewEdgesFollow(t: Trace)
    ensures var r := New(t);
            && (r.Ok? ==> r.value.edges == EdgesFor(t, t.order))
            && (r.Err? ==> r.error.child < |t.order| && EdgeFor(t, t.order[r.error.child]) == Some(Edge(r.error.parent, r.error.child)))
  {
    EdgesForSound(t, t.order);
  }

  /** `Graph::new` adds an edge from parent to child for every span whose
      `GetParent` succeeds, and no other edge */
  lemma NewEdges(t: Trace)
    ensures var r := New(t);
            r.Ok? ==>
              && (forall k | k in t.spans && GetParent(t, k).Some? ::
                    Edge(r.value.lookup[GetParent(t, k).value.spanId], r.value.lookup[k]) in r.value.edges)
              && (forall n | 0 <= n < |r.value.edges| ::
                    GetParent(t, r.value.nodes[r.value.edges[n].child].spanId) == Some(r.value.nodes[r.value.edges[n].parent]))
  {
    if New(t).Ok? {
      NewEdgesComplete(t);
      NewEdgesSound(t);
    }
  }

  /** Every span whose parent resolves has its edge in a built graph */
  lemma NewEdgesComplete(t: Trace)
    requires New(t).Ok?
    ensures var g := New(t).value;
            forall k | k in t.spans && GetParent(t, k).Some? ::
              Edge(g.lookup[GetParent(t, k).value.spanId], g.lookup[k]) in g.edges
  {
    NewEdgesFollow(t);
    var g := New(t).value;
    forall k | k in t.spans && GetParent(t, k).Some?
      ensures Edge(g.lookup[GetParent(t, k).value.spanId], g.lookup[k]) in g.edges
    {
      LookupAt(t, k);
      EdgeForParent(t, k);
      EdgesForComplete(t, t.order, g.lookup[k]);
    }
  }

  /** Every edge of a built graph joins a span's resolved parent to the span */
  lemma NewEdgesSound(t: Trace)
    requires New(t).Ok?
    ensures var g := New(t).value;
            forall n | 0 <= n < |g.edges| ::
              GetParent(t, g.nodes[g.edges[n].child].spanId) == Some(g.nodes[g.edges[n].parent])
  {
    NewEdgesFollow(t);
    EdgesForSound(t, t.order);
    var g := New(t).value;
    forall n | 0 <= n < |g.edges|
      ensures GetParent(t, g.nodes[g.edges[n].child].spanId) == Some(g.nodes[g.edges[n].parent])
    {
      var e := g.edges[n];
      assert EdgeFor(t, t.order[e.child]) == Some(e);
      EdgeForParent(t, t.order[e.child]);
    }
  }

  /** The spans of the hash map's order whose parent resolves are `Resolvable` */
  lemma ResolvableInOrder(t: Trace)
    ensures Seqs.ElementsWhere(t.order, HasResolvableParent(t)) == Resolvable(t)
  {
    forall k ensures k in Seqs.ElementsWhere(t.order, HasResolvableParent(t)) <==> k in Resolvable(t) {
      assert k in t.order <==> k in t.spans;
    }
  }

  /** The edge count of a built graph is the number of spans whose parent is in the trace */
  lemma NewEdgeCount(t: Trace)
    ensures var r := New(t);
            r.Ok? ==> |r.value.edges| == |Resolvable(t)|
  {
    NewEdgesFollow(t);
    EdgesForCount(t, t.order);
    Seqs.CountWhereCardinality(t.order, HasResolvableParent(t));
    ResolvableInOrder(t);
  }

  /** `Graph::new` fails only on an edge from a span's resolved parent to
      the span, refused because the span already reaches that parent through
      the edges of the spans before it in the hash map's order; every edge
      built joins a span's resolved parent to the span, so the parent links
      close a cycle */
  lemma NewError(t: Trace)
    ensures var r := New(t);
            r.Err? ==>
              && r.error.child < |t.order| && r.error.parent < |t.order|
              && GetParent(t, t.order[r.error.child]) == Some(t.spans[t.order[r.error.parent]])
              && ParentLinks(t, EdgesFor(t, t.order))
              && exists i | 0 <= i < |EdgesFor(t, t.order)| ::
                   && EdgesFor(t, t.order)[i] == Edge(r.error.parent, r.error.child)
                   && Reaches(EdgesFor(t, t.order)[..i], r.error.child, r.error.parent, |t.order|)
  {
    NewEdgesFollow(t);
    EdgesForLinks(t);
    NewRefusal(t);
  }

  /** A refused edge's child reaches its parent through the edges built before it */
  lemma NewRefusal(t: Trace)
    ensures var r := New(t);
            r.Err? ==>
              exists i | 0 <= i < |EdgesFor(t, t.order)| ::
                && EdgesFor(t, t.order)[i] == Edge(r.error.parent, r.error.child)
                && Reaches(EdgesFor(t, t.order)[..i], r.error.child, r.error.parent, |t.order|)
  {
    EdgesWithin(t);
    RefusalFromEmpty(Unlinked(t), EdgesFor(t, t.order));
  }

  /** Starting without edges, a refused edge's child reaches its parent
      through the edges of `es` before it */
  lemma RefusalFromEmpty(g: Graph, es: seq<Edge>)
    requires g.edges == [] && Within(es, |g.nodes|)
    ensures var r := AddAll(g, es);
            r.Err? ==> exists i | 0 <= i < |es| ::
              es[i] == Edge(r.error.parent, r.error.child) && Reaches(es[..i], es[i].child, es[i].parent, |g.nodes|)
  {
    assert forall i | 0 <= i <= |es| :: g.edges + es[..i] == es[..i];
  }

  /** Every edge of `es` joins a span's resolved parent to the span */
  predicate ParentLinks(t: Trace, es: seq<Edge>) {
    forall n | 0 <= n < |es| ::
      es[n].parent < |t.order| && es[n].child < |t.order| &&
      GetParent(t, t.order[es[n].child]) == Some(t.spans[t.order[es[n].parent]])
  }

  /** The edges built for a trace are all parent links */
  lemma EdgesForLinks(t: Trace)
    ensures ParentLinks(t, EdgesFor(t, t.order))
  {
    EdgesForSound(t, t.order);
    var es := EdgesFor(t, t.order);
    forall n | 0 <= n < |es|
      ensures GetParent(t, t.order[es[n].child]) == Some(t.spans[t.order[es[n].parent]])
    {
      EdgeForParent(t, t.order[es[n].child]);
      LookupInverse(t, es[n].parent);
    }
  }

  /** Node weights `w` rise along every edge */
  predicate Rising(edges: seq<Edge>, w: seq<nat>) {
    forall i | 0 <= i < |edges| :: edges[i].parent < |w| && edges[i].child < |w| && w[edges[i].parent] < w[edges[i].child]
  }

  /** Along rising edges a path never leads to a lighter node */
  lemma {:induction false} RisingReaches(edges: seq<Edge>, w: seq<nat>, from: nat, to: nat, fuel: nat)
    requires Rising(edges, w) && from < |w| && to < |w|
    requires Reaches(edges, from, to, fuel)
    ensures w[from] <= w[to]
    decreases fuel
  {
    if from != to {
      var i :| 0 <= i < |edges| && edges[i].parent == from && Reaches(edges, edges[i].child, to, fuel - 1);
      RisingReaches(edges, w, edges[i].child, to, fuel - 1);
    }
  }

  /** The weights a rank map gives the nodes, in the hash map's order */
  function Weights(t: Trace, rank: map<string, nat>): (w: seq<nat>)
    requires Ranked(t, rank)
    ensures |w| == |t.order| && forall i | 0 <= i < |t.order| :: w[i] == rank[t.order[i]]
  {
    seq(|t.order|, i requires 0 <= i < |t.order| => rank[t.order[i]])
  }

  /** An edge that rises is accepted, and the edges stay rising */
  lemma AddEdgeRising(g: Graph, w: seq<nat>, p: nat, c: nat)
    requires |w| == |g.nodes| && Rising(g.edges, w)
    requires p < |g.nodes| && c < |g.nodes| && w[p] < w[c]
    ensures AddEdge(g, p, c) == Ok(g.(edges := g.edges + [Edge(p, c)]))
    ensures Rising(g.edges + [Edge(p, c)], w)
  {
    if Reaches(g.edges, c, p, |g.nodes|) {
      RisingReaches(g.edges, w, c, p, |g.nodes|);
    }
  }

  /** Adding rising edges to a graph whose edges rise never meets a cycle */
  lemma {:induction false} AddAllRising(g: Graph, w: seq<nat>, es: seq<Edge>)
    requires |w| == |g.nodes| && Rising(g.edges, w) && Rising(es, w)
    ensures Within(es, |g.nodes|) && AddAll(g, es).Ok?
    decreases |es|
  {
    if |es| > 0 {
      AddEdgeRising(g, w, es[0].parent, es[0].child);
      var g' := g.(edges := g.edges + [es[0]]);
      AddAllRising(g', w, es[1..]);
    }
  }

  /** The edges of a ranked trace rise with the rank */
  lemma EdgesRanked(t: Trace, rank: map<string, nat>)
    requires Ranked(t, rank)
    ensures Rising(EdgesFor(t, t.order), Weights(t, rank))
  {
    EdgesForSound(t, t.order);
    var es := EdgesFor(t, t.order);
    var w := Weights(t, rank);
    forall n | 0 <= n < |es|
      ensures w[es[n].parent] < w[es[n].child]
    {
      var id := t.order[es[n].child];
      EdgeForParent(t, id);
      var pk := ParentKey(t, id).value;
      LookupAt(t, pk);
    }
  }

  /** A trace whose parent links descend a rank map, i.e. hold no cycle,
      always builds */
  lemma NewSucceedsWhenRanked(t: Trace, rank: map<string, nat>)
    requires Ranked(t, rank)
    ensures New(t).Ok?
  {
    EdgesRanked(t, rank);
    NewFromRising(t, Weights(t, rank));
  }

  /** Edges that rise with some weighting of the spans never close a cycle */
  lemma NewFromRising(t: Trace, w: seq<nat>)
    requires |w| == |t.order| && Rising(EdgesFor(t, t.order), w)
    ensures New(t).Ok?
  {
    EdgesWithin(t);
    AddAllRising(Unlinked(t), w, EdgesFor(t, t.order));
  }

  /** The graph of a ranked trace has rising edges */
  lemma NewRising(t: Trace, rank: map<string, nat>)
    requires Ranked(t, rank)
    ensures New(t).Ok? && Rising(New(t).value.edges, Weights(t, rank))
  {
    NewSucceedsWhenRanked(t, rank);
    NewEdgesFollow(t);
    EdgesRanked(t, rank);
  }

  /** The parent ends of the edges into node `idx`, the most recently added
      edge first (the order in which the DAG lists a node's incoming edges) */
  function IncomingParents(edges: seq<Edge>, idx: nat): (ps: seq<nat>)
    ensures forall p :: p in ps <==> Edge(p, idx) in edges
    decreases |edges|
  {
    if |edges| == 0 then []
    else
      var e := edges[|edges| - 1];
      var rest := IncomingParents(edges[..|edges| - 1], idx);
      assert edges == edges[..|edges| - 1] + [e];
      if e.child == idx then [e.parent] + rest else rest
  }

  /** A node no edge enters has no parents */
  lemma {:induction false} IncomingParentsNone(edges: seq<Edge>, idx: nat)
    requires forall n | 0 <= n < |edges| :: edges[n].child != idx
    ensures IncomingParents(edges, idx) == []
    decreases |edges|
  {
    if |edges| > 0 {
      IncomingParentsNone(edges[..|edges| - 1], idx);
    }
  }

  /** When no two edges share a child, a node has at most one incoming edge */
  lemma {:induction false} IncomingParentsAtMostOne(edges: seq<Edge>, idx: nat)
    requires ChildrenDistinct(edges)
    ensures |IncomingParents(edges, idx)| <= 1
    decreases |edges|
  {
    if |edges| > 0 {
      var init := edges[..|edges| - 1];
      var e := edges[|edges| - 1];
      IncomingParentsAtMostOne(init, idx);
      if e.child == idx {
        forall n | 0 <= n < |init| ensures init[n].child != idx {
          assert init[n] == edges[n];
        }
        IncomingParentsNone(init, idx);
      }
    }
  }

  /** Every index a node index list names is a node */
  predicate IndicesIn(g: Graph, ix: seq<nat>) {
    forall i | 0 <= i < |ix| :: ix[i] < |g.nodes|
  }

  /** The nodes at the indices `ix` */
  function NodesAt(g: Graph, ix: seq<nat>): (r: seq<Span>)
    requires IndicesIn(g, ix)
    ensures |r| == |ix| && forall i | 0 <= i < |ix| :: r[i] == g.nodes[ix[i]]
  {
    seq(|ix|, i requires 0 <= i < |ix| => g.nodes[ix[i]])
  }

  /** `Graph::parents`: no answer for an id the table lacks, else the spans
      at the parent end of every edge into its node */
  function Parents(g: Graph, id: string): (r: Option<seq<Span>>)
    ensures r.None? <==> id !in g.lookup
    ensures r.Some? ==> forall s :: s in r.value <==> exists p: nat :: Edge(p, g.lookup[id]) in g.edges && p < |g.nodes| && g.nodes[p] == s
  {
    if id !in g.lookup then None
    else
      var ps := IncomingParents(g.edges, g.lookup[id]);
      assert IndicesIn(g, ps) by {
        forall i | 0 <= i < |ps| ensures ps[i] < |g.nodes| {
          assert Edge(ps[i], g.lookup[id]) in g.edges;
        }
      }
      var r := NodesAt(g, ps);
      assert forall s :: s in r <==> exists p: nat :: Edge(p, g.lookup[id]) in g.edges && p < |g.nodes| && g.nodes[p] == s by {
        forall s ensures s in r <==> exists p: nat :: Edge(p, g.lookup[id]) in g.edges && p < |g.nodes| && g.nodes[p] == s {
          if s in r {
            var i :| 0 <= i < |r| && r[i] == s;
            assert ps[i] in ps;
          }
          if exists p: nat :: Edge(p, g.lookup[id]) in g.edges && p < |g.nodes| && g.nodes[p] == s {
            var p: nat :| Edge(p, g.lookup[id]) in g.edges && p < |g.nodes| && g.nodes[p] == s;
            assert p in ps;
            var i :| 0 <= i < |ps| && ps[i] == p;
            assert r[i] == s;
          }
        }
      }
      Some(r)
  }

  /** No two edges share a child */
  predicate ChildrenDistinct(edges: seq<Edge>) {
    forall n, m | 0 <= n < m < |edges| :: edges[n].child != edges[m].child
  }

  /** With no two edges sharing a child, `Graph::parents` answers with at
      most one span: the parent end of the edge into the node, if any */
  lemma ParentsAtMostOne(g: Graph, id: string)
    requires id in g.lookup && ChildrenDistinct(g.edges)
    ensures (forall p: nat :: Edge(p, g.lookup[id]) !in g.edges) ==> Parents(g, id) == Some([])
    ensures forall p: nat | Edge(p, g.lookup[id]) in g.edges :: p < |g.nodes| && Parents(g, id) == Some([g.nodes[p]])
  {
    var idx := g.lookup[id];
    var ps := IncomingParents(g.edges, idx);
    IncomingParentsAtMostOne(g.edges, idx);
    forall p: nat | Edge(p, idx) in g.edges
      ensures p < |g.nodes| && Parents(g, id) == Some([g.nodes[p]])
    {
      assert p in ps;
      var n :| 0 <= n < |g.edges| && g.edges[n] == Edge(p, idx);
      assert ps == [p];
      assert Parents(g, id).value == NodesAt(g, ps);
      assert NodesAt(g, ps) == [g.nodes[p]];
    }
    if |ps| > 0 {
      assert ps[0] in ps;
    }
  }

  /** No two edges of a built graph share a child */
  lemma NewChildrenDistinct(t: Trace)
    ensures New(t).Ok? ==> ChildrenDistinct(New(t).value.edges)
  {
    NewEdgesFollow(t);
    EdgesForChildrenDistinct(t, t.order);
  }

  /** In a built graph the edge into a span's node comes from its resolved parent */
  lemma NewIncoming(t: Trace, id: string, p: nat)
    requires New(t).Ok? && id in t.spans
    requires Edge(p, New(t).value.lookup[id]) in New(t).value.edges
    ensures p < |t.order| && GetParent(t, id) == Some(New(t).value.nodes[p])
  {
    var g := New(t).value;
    NewEdges(t);
    var n :| 0 <= n < |g.edges| && g.edges[n] == Edge(p, g.lookup[id]);
    assert g.nodes[g.lookup[id]] == t.spans[id];
  }

  /** A span whose parent resolves has an edge into its node in a built graph */
  lemma NewOutgoing(t: Trace, id: string)
    requires New(t).Ok? && GetParent(t, id).Some?
    ensures Edge(New(t).value.lookup[GetParent(t, id).value.spanId], New(t).value.lookup[id]) in New(t).value.edges
  {
    NewEdges(t);
  }

  /** On a built graph `Graph::parents` answers with the span's resolved
      parent, or with nothing for a root or an orphan */
  lemma ParentsOfNew(t: Trace, id: string)
    requires New(t).Ok?
    ensures Parents(New(t).value, id) ==
            if id !in t.spans then None
            else Some(match GetParent(t, id) case None => [] case Some(p) => [p])
  {
    var g := New(t).value;
    NewNodes(t);
    if id in t.spans {
      NewChildrenDistinct(t);
      ParentsAtMostOne(g, id);
      var idx := g.lookup[id];
      if GetParent(t, id).Some? {
        NewOutgoing(t, id);
        var p := g.lookup[GetParent(t, id).value.spanId];
        NewIncoming(t, id, p);
      } else {
        forall p: nat ensures Edge(p, idx) !in g.edges {
          if Edge(p, idx) in g.edges {
            NewIncoming(t, id, p);
          }
        }
      }
    }
  }

  /** The child reached through the most recently added edge out of node
      `idx`: the first one the DAG lists, since each new edge goes to the
      front of its node's outgoing list */
  function FirstChild(edges: seq<Edge>, idx: nat): (r: Option<nat>)
    ensures r.Some? ==> Edge(idx, r.value) in edges
    ensures r.None? <==> forall i | 0 <= i < |edges| :: edges[i].parent != idx
    decreases |edges|
  {
    if |edges| == 0 then None
    else
      var e := edges[|edges| - 1];
      if e.parent == idx then Some(e.child)
      else
        var r := FirstChild(edges[..|edges| - 1], idx);
        assert forall i | 0 <= i < |edges| - 1 :: edges[..|edges| - 1][i] == edges[i];
        r
  }

  /** `FirstChild` picks the latest edge out of the node */
  lemma {:induction false} FirstChildIsLatest(edges: seq<Edge>, idx: nat)
    requires FirstChild(edges, idx).Some?
    ensures exists i | 0 <= i < |edges| ::
              && edges[i] == Edge(idx, FirstChild(edges, idx).value)
              && forall j | i < j < |edges| :: edges[j].parent != idx
    decreases |edges|
  {
    var n := |edges| - 1;
    if edges[n].parent != idx {
      var init := edges[..n];
      FirstChildIsLatest(init, idx);
      var i :| 0 <= i < |init| && init[i] == Edge(idx, FirstChild(init, idx).value) && forall j | i < j < |init| :: init[j].parent != idx;
      assert edges[i] == init[i];
      assert forall j | i < j < |edges| :: edges[j].parent != idx by {
        forall j | i < j < |edges| ensures edges[j].parent != idx {
          if j < n { assert edges[j] == init[j]; }
        }
      }
    }
  }

  /** The walk that `Graph::children` runs from node `idx`: each step moves
      to the node's first child, for at most `fuel` steps */
  function ChildChain(edges: seq<Edge>, idx: nat, fuel: nat): (r: seq<nat>)
    ensures |r| <= fuel
    ensures forall i | 0 <= i < |r| :: FirstChild(edges, if i == 0 then idx else r[i - 1]) == Some(r[i])
    ensures |r| < fuel ==> FirstChild(edges, if |r| == 0 then idx else r[|r| - 1]).None?
    decreases fuel
  {
    if fuel == 0 then []
    else
      match FirstChild(edges, idx)
      case None => []
      case Some(c) => [c] + ChildChain(edges, c, fuel - 1)
  }

  /** `Graph::children`: no answer for an id the table lacks, else the spans
      the walk of first children passes, the start excluded */
  function Children(g: Graph, id: string): (r: Option<seq<Span>>)
    ensures r.None? <==> id !in g.lookup
    ensures r.Some? ==>
              var chain := ChildChain(g.edges, g.lookup[id], |g.nodes|);
              && |r.value| == |chain|
              && forall i | 0 <= i < |chain| :: chain[i] < |g.nodes| && r.value[i] == g.nodes[chain[i]]
  {
    if id !in g.lookup then None
    else
      var chain := ChildChain(g.edges, g.lookup[id], |g.nodes|);
      assert IndicesIn(g, chain) by {
        forall i | 0 <= i < |chain| ensures chain[i] < |g.nodes| {
          var from := if i == 0 then g.lookup[id] else chain[i - 1];
          assert Edge(from, chain[i]) in g.edges;
        }
      }
      Some(NodesAt(g, chain))
  }

  /** Along rising edges whose weights lie below `bound`, the walk of first
      children stops on its own within `bound` steps */
  lemma {:induction false} ChildChainEnds(edges: seq<Edge>, w: seq<nat>, bound: nat, idx: nat, fuel: nat)
    requires Rising(edges, w) && idx < |w|
    requires forall i | 0 <= i < |w| :: w[i] < bound
    requires fuel >= bound - w[idx]
    ensures |ChildChain(edges, idx, fuel)| < fuel
    decreases fuel
  {
    match FirstChild(edges, idx)
    case None =>
    case Some(c) =>
      var n :| 0 <= n < |edges| && edges[n] == Edge(idx, c);
      ChildChainEnds(edges, w, bound, c, fuel - 1);
  }

  /** On a built graph of a trace ranked below its size, the walk of
      `Graph::children` stops on its own, before the model's step bound */
  lemma ChildrenEnd(t: Trace, rank: map<string, nat>, id: string)
    requires RankedBelow(t, rank, |t.spans|) && id in t.spans
    ensures New(t).Ok?
    ensures |ChildChain(New(t).value.edges, New(t).value.lookup[id], |New(t).value.nodes|)| < |New(t).value.nodes|
  {
    NewRising(t, rank);
    NewNodes(t);
    var g := New(t).value;
    WeightsBelow(t, rank);
    ChildChainEnds(g.edges, Weights(t, rank), |t.spans|, g.lookup[id], |g.nodes|);
  }

  /** Ranks below a bound give weights below it */
  lemma WeightsBelow(t: Trace, rank: map<string, nat>)
    requires RankedBelow(t, rank, |t.spans|)
    ensures forall i | 0 <= i < |Weights(t, rank)| :: Weights(t, rank)[i] < |t.spans|
  {
    forall i | 0 <= i < |t.order| ensures rank[t.order[i]] < |t.spans| {
      assert t.order[i] in t.spans;
    }
  }

  /** Each edge of a built graph runs from a span's resolved parent to the span */
  lemma NewEdgeLink(t: Trace, p: nat, c: nat)
    requires New(t).Ok? && Edge(p, c) in New(t).value.edges
    ensures p < |New(t).value.nodes| && c < |New(t).value.nodes|
    ensures GetParent(t, New(t).value.nodes[c].spanId) == Some(New(t).value.nodes[p])
  {
    NewEdges(t);
    var g := New(t).value;
    var n :| 0 <= n < |g.edges| && g.edges[n] == Edge(p, c);
  }

  /** The `i`th span of the walk of `Graph::children` sits at the child end
      of an edge whose parent end holds the span before it */
  lemma ChildrenStep(g: Graph, id: string, i: nat) returns (p: nat, c: nat)
    requires id in g.lookup && i < |Children(g, id).value|
    ensures Edge(p, c) in g.edges && p < |g.nodes| && c < |g.nodes|
    ensures Children(g, id).value[i] == g.nodes[c]
    ensures p == if i == 0 then g.lookup[id] else ChildChain(g.edges, g.lookup[id], |g.nodes|)[i - 1]
    ensures g.nodes[p] == if i == 0 then g.nodes[g.lookup[id]] else Children(g, id).value[i - 1]
  {
    var chain := ChildChain(g.edges, g.lookup[id], |g.nodes|);
    p := if i == 0 then g.lookup[id] else chain[i - 1];
    c := chain[i];
    assert Edge(p, c) in g.edges;
    var n :| 0 <= n < |g.edges| && g.edges[n] == Edge(p, c);
  }

  /** Each span of `cs` is a span of the trace with the span before it as
      its resolved parent, the first one `first` */
  predicate DescendsFrom(t: Trace, first: Span, cs: seq<Span>) {
    && (forall i | 0 <= i < |cs| :: cs[i].spanId in t.spans && t.spans[cs[i].spanId] == cs[i])
    && (|cs| > 0 ==> GetParent(t, cs[0].spanId) == Some(first))
    && (forall i | 0 < i < |cs| :: GetParent(t, cs[i].spanId) == Some(cs[i - 1]))
  }

  /** The `i`th span of the walk of `Graph::children` in a built graph is a
      span of the trace whose resolved parent is the span before it */
  lemma ChildrenLink(t: Trace, id: string, i: nat)
    requires New(t).Ok? && id in t.spans && i < |Children(New(t).value, id).value|
    ensures var cs := Children(New(t).value, id).value;
            && cs[i].spanId in t.spans && t.spans[cs[i].spanId] == cs[i]
            && GetParent(t, cs[i].spanId) == Some(if i == 0 then t.spans[id] else cs[i - 1])
  {
    var g := New(t).value;
    NewNodes(t);
    var p, c := ChildrenStep(g, id, i);
    NewEdgeLink(t, p, c);
    assert g.nodes[c] == t.spans[t.order[c]];
  }

  /** Every span on the walk of `Graph::children` in a built graph is a
      child of the span before it, the first one of the start span */
  lemma ChildrenLinked(t: Trace, id: string)
    requires New(t).Ok? && id in t.spans
    ensures DescendsFrom(t, t.spans[id], Children(New(t).value, id).value)
  {
    var cs := Children(New(t).value, id).value;
    forall i | 0 <= i < |cs|
      ensures cs[i].spanId in t.spans && t.spans[cs[i].spanId] == cs[i]
    {
      ChildrenLink(t, id, i);
    }
    if |cs| > 0 {
      ChildrenLink(t, id, 0);
    }
    forall i | 0 < i < |cs|
      ensures GetParent(t, cs[i].spanId) == Some(cs[i - 1])
    {
      ChildrenLink(t, id, i);
    }
  }

  /** A span whose node has no outgoing edge in a built graph has no child in the trace */
  lemma NewLeaf(t: Trace, x: string)
    requires New(t).Ok? && x in t.spans
    requires forall i | 0 <= i < |New(t).value.edges| :: New(t).value.edges[i].parent != New(t).value.lookup[x]
    ensures FindChild(t, x).None?
  {
    if FindChild(t, x).Some? {
      var k := FindChild(t, x).value.spanId;
      assert ParentKey(t, k) == Some(x);
      NewOutgoing(t, k);
    }
  }

  /** When the walk of `Graph::children` stops before its step bound, no
      edge leaves the node of the span it ends at */
  lemma ChildrenLast(g: Graph, id: string) returns (last: nat)
    requires id in g.lookup
    requires |ChildChain(g.edges, g.lookup[id], |g.nodes|)| < |g.nodes|
    ensures last < |g.nodes|
    ensures g.nodes[last] == var cs := Children(g, id).value; if |cs| == 0 then g.nodes[g.lookup[id]] else cs[|cs| - 1]
    ensures forall i | 0 <= i < |g.edges| :: g.edges[i].parent != last
  {
    var chain := ChildChain(g.edges, g.lookup[id], |g.nodes|);
    last := if |chain| == 0 then g.lookup[id] else chain[|chain| - 1];
    if |chain| > 0 {
      assert FirstChild(g.edges, if |chain| - 1 == 0 then g.lookup[id] else chain[|chain| - 2]) == Some(last);
    }
  }

  /** On a built graph of a trace ranked below its size, the walk of
      `Graph::children` ends at a span with no child in the trace */
  lemma ChildrenReachLeaf(t: Trace, rank: map<string, nat>, id: string)
    requires RankedBelow(t, rank, |t.spans|) && id in t.spans
    ensures New(t).Ok?
    ensures var cs := Children(New(t).value, id).value;
            FindChild(t, if |cs| == 0 then id else cs[|cs| - 1].spanId).None?
  {
    ChildrenEnd(t, rank, id);
    var g := New(t).value;
    var last := ChildrenLast(g, id);
    var x := t.order[last];
    assert g.nodes[last] == t.spans[x];
    assert g.nodes[g.lookup[id]] == t.spans[id];
    LookupInverse(t, last);
    NewLeaf(t, x);
  }
}
