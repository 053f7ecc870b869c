/** Worked traces for the span graph: a three-span chain, which builds for
    every hash map order, and a span naming itself as parent, which the DAG
    refuses. */
module GraphExamples {
  import opened Wrappers
  import Seqs
  import opened Primitives
  import opened SpanGraph

  function ExampleSpan(id: string, refs: seq<Reference>): Span {
    Span("trace", id, None, "operation", refs, 0, [], "p1")
  }

  const Root: Span := ExampleSpan("parent", [])
  const Child0: Span := ExampleSpan("child-0", [Reference(CHILD_OF, "trace", "parent")])
  const Child1: Span := ExampleSpan("child-1", [Reference(CHILD_OF, "trace", "child-0")])

  /** parent <- child-0 <- child-1 */
  const ChainSpans: map<string, Span> := map["parent" := Root, "child-0" := Child0, "child-1" := Child1]

  const ChainRank: map<string, nat> := map["parent" := 0, "child-0" := 1, "child-1" := 2]

  /** The parent links of the chain, resolved in any trace holding it */
  lemma ChainParents(t: Trace)
    requires t.spans == ChainSpans
    ensures GetParent(t, "parent") == None
    ensures GetParent(t, "child-0") == Some(Root)
    ensures GetParent(t, "child-1") == Some(Child0)
  {
    assert Root.references == [];
    assert ParentSpanId(Child0) == Some("parent") by {
      assert Child0.references[0].refType == CHILD_OF;
    }
    assert ParentSpanId(Child1) == Some("child-0") by {
      assert Child1.references[0].refType == CHILD_OF;
    }
  }

  /** The chain's ranks descend along its parent links */
  lemma ChainRanked(t: Trace)
    requires t.spans == ChainSpans
    ensures RankedBelow(t, ChainRank, |t.spans|)
  {
    ChainParents(t);
    assert |t.spans| == 3 by {
      assert t.spans.Keys == {"parent", "child-0", "child-1"};
    }
    forall k | k in t.spans && ParentKey(t, k).Some?
      ensures ChainRank[ParentKey(t, k).value] < ChainRank[k]
    {
      assert GetParent(t, k) == Some(t.spans[ParentKey(t, k).value]);
    }
  }

  /** Whatever the hash map's order, the chain builds */
  lemma ChainBuilds(t: Trace)
    requires t.spans == ChainSpans
    ensures New(t).Ok?
  {
    ChainRanked(t);
    NewSucceedsWhenRanked(t, ChainRank);
  }

  /** In the built chain, `Graph::parents` of `child-1` yields `child-0`
      alone, of the root nothing, and of an unknown id no answer */
  lemma ChainParentsOfNew(t: Trace)
    requires t.spans == ChainSpans
    ensures New(t).Ok?
    ensures Parents(New(t).value, "child-1") == Some([Child0])
    ensures Parents(New(t).value, "parent") == Some([])
    ensures Parents(New(t).value, "missing") == None
  {
    ChainBuilds(t);
    ChainParents(t);
    ParentsOfNew(t, "child-1");
    ParentsOfNew(t, "parent");
    ParentsOfNew(t, "missing");
  }

  /** In the chain, a span of the trace whose resolved parent is `p` is the only child of `p` */
  lemma ChildInChain(t: Trace, c: Span, p: string)
    requires t.spans == ChainSpans
    requires c.spanId in t.spans && t.spans[c.spanId] == c
    requires p in t.spans && GetParent(t, c.spanId) == Some(t.spans[p])
    ensures p == "parent" ==> c == Child0
    ensures p == "child-0" ==> c == Child1
    ensures p != "child-1"
  {
    ChainParents(t);
    assert c.spanId == "parent" || c.spanId == "child-0" || c.spanId == "child-1";
  }

  /** The only descent from `parent` in the chain that ends at a span with
      no child is `child-0`, `child-1` */
  lemma ChainDescent(t: Trace, cs: seq<Span>)
    requires t.spans == ChainSpans
    requires DescendsFrom(t, Root, cs)
    requires FindChild(t, if |cs| == 0 then "parent" else cs[|cs| - 1].spanId).None?
    ensures cs == [Child0, Child1]
  {
    assert t.spans["parent"] == Root && t.spans["child-0"] == Child0 && t.spans["child-1"] == Child1;
    assert IsChildOf(t.spans["child-0"], "parent");
    assert IsChildOf(t.spans["child-1"], "child-0");
    assert |cs| >= 1;
    ChildInChain(t, cs[0], "parent");
    assert |cs| >= 2;
    ChildInChain(t, cs[1], "child-0");
    if |cs| > 2 {
      ChildInChain(t, cs[2], "child-1");
    }
  }

  /** Whatever the hash map's order, the walk of `Graph::children` from
      `parent` passes `child-0` and then `child-1` */
  lemma ChainChildren(t: Trace)
    requires t.spans == ChainSpans
    ensures New(t).Ok?
    ensures Children(New(t).value, "parent") == Some([Child0, Child1])
  {
    ChainRanked(t);
    assert "parent" in t.spans && t.spans["parent"] == Root;
    ChildrenReachLeaf(t, ChainRank, "parent");
    ChildrenLinked(t, "parent");
    var cs := Children(New(t).value, "parent").value;
    ChainDescent(t, cs);
  }

  const Loop: Span := ExampleSpan("loop", [Reference(CHILD_OF, "trace", "loop")])

  /** A span that names itself as parent closes a cycle: building fails */
  lemma SelfParentFails(t: Trace)
    requires t.spans == map["loop" := Loop]
    ensures New(t).Err?
  {
    assert ParentSpanId(Loop) == Some("loop") by {
      assert Loop.references[0].refType == CHILD_OF;
    }
    assert t.order == ["loop"] by {
      Seqs.DistinctCardinality(t.order);
      assert (set x | x in t.order) == {"loop"};
    }
    assert GetParent(t, "loop") == Some(Loop);
    var g := Unlinked(t);
    assert g.lookup["loop"] == 0;
    assert EdgeFor(t, "loop") == Some(Edge(0, 0));
    assert EdgesFor(t, t.order) == [Edge(0, 0)] by {
      assert t.order[..0] == [];
    }
    assert Reaches(g.edges, 0, 0, |g.nodes|);
    assert AddEdge(g, 0, 0).Err?;
    assert New(t) == AddAll(g, [Edge(0, 0)]);
  }
}
