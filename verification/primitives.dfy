/** The span and trace values decoded from a Jaeger query response, with the
    lookups the rest of the system uses: tag lookup, the `CHILD_OF` parent
    reference, the span-list to map conversion, parent and child lookup in a
    trace and the two predicate-driven walks over ancestors and descendants. */
module Primitives {
  import opened Wrappers
  import Seqs
  import Decimal

  /** A tag value as decoded (untagged): a string, a boolean or an unsigned number */
  datatype TagValue = Str(s: string) | Boolean(b: bool) | Number(n: nat)

  datatype Tag = Tag(key: string, ty: string, value: TagValue)

  datatype Reference = Reference(refType: string, traceId: string, spanId: string)

  /** One span. The floating-point `duration`, `logs` and `warnings` are not modelled. */
  datatype Span = Span(
    traceId: string,
    spanId: string,
    flags: Option<nat>,
    operationName: string,
    references: seq<Reference>,
    startTime: nat,
    tags: seq<Tag>,
    processId: string)

  /** The only reference type that designates a parent */
  const CHILD_OF: string := "CHILD_OF"

  /** String form of a tag value: strings as themselves, booleans as
      `true`/`false`, numbers in canonical decimal (no leading zero) */
  function RenderTagValue(v: TagValue): (s: string)
    ensures v.Str? ==> s == v.s
    ensures v.Boolean? ==> (s == "true" <==> v.b) && (s == "false" <==> !v.b)
    ensures v.Number? ==> Decimal.Parse(s) == Some(v.n)
    ensures v.Number? ==> |s| > 0 && Decimal.AllDigits(s) && (s[0] == '0' ==> |s| == 1)
  {
    match v
    case Str(s) => s
    case Boolean(b) => if b then "true" else "false"
    case Number(n) => Decimal.ParseFromNat(n); Decimal.FromNat(n)
  }

  /** `Tag::value`: the rendered value of a tag */
  function TagText(t: Tag): (s: string)
    ensures t.value.Str? ==> s == t.value.s
    ensures t.value.Boolean? ==> (s == "true" <==> t.value.b) && (s == "false" <==> !t.value.b)
    ensures t.value.Number? ==> Decimal.Parse(s) == Some(t.value.n)
    ensures t.value.Number? ==> |s| > 0 && Decimal.AllDigits(s) && (s[0] == '0' ==> |s| == 1)
  {
    RenderTagValue(t.value)
  }

  /** The first tag of `span`, in list order, whose key is `key` */
  function GetTag(span: Span, key: string): (r: Option<Tag>)
    ensures r.None? <==> forall i | 0 <= i < |span.tags| :: span.tags[i].key != key
    ensures r.Some? ==>
              exists i | 0 <= i < |span.tags| ::
                && span.tags[i] == r.value
                && span.tags[i].key == key
                && forall j | 0 <= j < i :: span.tags[j].key != key
  {
    match Seqs.FirstIndex(span.tags, (t: Tag) => t.key == key)
    case None => None
    case Some(i) => Some(span.tags[i])
  }

  /** The span id of the first `CHILD_OF` reference; other references are ignored */
  function ParentSpanId(span: Span): (r: Option<string>)
    ensures r.None? <==> forall i | 0 <= i < |span.references| :: span.references[i].refType != CHILD_OF
    ensures r.Some? ==>
              exists i | 0 <= i < |span.references| ::
                && span.references[i].refType == CHILD_OF
                && span.references[i].spanId == r.value
                && forall j | 0 <= j < i :: span.references[j].refType != CHILD_OF
  {
    match Seqs.FirstIndex(span.references, (x: Reference) => x.refType == CHILD_OF)
    case None => None
    case Some(i) => Some(span.references[i].spanId)
  }

  /** The decoded span list keyed by span id; a later span replaces an
      earlier one with the same id (see `SpansToMapLastWins`) */
  function SpansToMap(spans: seq<Span>): (m: map<string, Span>)
    ensures forall i | 0 <= i < |spans| :: spans[i].spanId in m
    ensures forall k | k in m :: m[k].spanId == k && m[k] in spans
    decreases |spans|
  {
    if |spans| == 0 then map[]
    else
      var init := spans[..|spans| - 1];
      var last := spans[|spans| - 1];
      assert forall i | 0 <= i < |init| :: init[i] == spans[i];
      SpansToMap(init)[last.spanId := last]
  }

  /** Each key holds the last span in list order with that id */
  lemma {:induction false} SpansToMapLastWins(spans: seq<Span>, i: nat)
    requires i < |spans|
    requires forall j | i < j < |spans| :: spans[j].spanId != spans[i].spanId
    ensures SpansToMap(spans)[spans[i].spanId] == spans[i]
    decreases |spans|
  {
    var init := spans[..|spans| - 1];
    if i < |spans| - 1 {
      assert init[i] == spans[i];
      assert forall j | i < j < |init| :: init[j] == spans[j];
      SpansToMapLastWins(init, i);
    }
  }

  /** Every span is stored under its own id */
  predicate WellKeyed(spans: map<string, Span>) {
    forall k | k in spans :: spans[k].spanId == k
  }

  /** `order` lists every key of `keys` exactly once */
  predicate Enumerates(order: seq<string>, keys: set<string>) {
    && Seqs.Distinct(order)
    && (forall i | 0 <= i < |order| :: order[i] in keys)
    && (forall k | k in keys :: k in order)
  }

  /** A trace: its spans keyed by id, and `order`, the (unspecified but fixed)
      order in which the hash map yields its entries. The processes table and
      warnings are not modelled. */
  datatype TraceObject = TraceObject(traceId: string, spans: map<string, Span>, order: seq<string>)

  predicate ValidTrace(t: TraceObject) {
    WellKeyed(t.spans) && Enumerates(t.order, t.spans.Keys)
  }

  type Trace = t: TraceObject | ValidTrace(t) witness TraceObject("", map[], [])

  /** A trace decoded from a span list; `order` stands for the hash map's iteration order */
  function DecodeTrace(traceId: string, spans: seq<Span>, order: seq<string>): (t: Trace)
    requires Enumerates(order, SpansToMap(spans).Keys)
    ensures t.spans.Keys == set i | 0 <= i < |spans| :: spans[i].spanId
  {
    TraceObject(traceId, SpansToMap(spans), order)
  }

  /** The envelope of a query response */
  datatype RpcResponse<T> = RpcResponse(data: seq<T>, total: nat, limit: nat, offset: nat)

  /** `RpcResponse::consume`: the payload, dropping the envelope */
  function Consume<T>(r: RpcResponse<T>): seq<T> {
    r.data
  }

  /** True when `s` names `id` as its parent */
  predicate IsChildOf(s: Span, id: string) {
    ParentSpanId(s) == Some(id)
  }

  /** A span of the trace naming `id` as its parent: the first one the hash map yields */
  function FindChild(t: Trace, id: string): (r: Option<Span>)
    ensures r.Some? ==> r.value.spanId in t.spans && t.spans[r.value.spanId] == r.value && IsChildOf(r.value, id)
    ensures r.None? <==> forall k | k in t.spans :: !IsChildOf(t.spans[k], id)
  {
    match ChildIndex(t, id)
    case None => None
    case Some(i) => Some(t.spans[t.order[i]])
  }

  /** Position in the hash map's order of the span `FindChild` returns */
  function ChildIndex(t: Trace, id: string): (r: Option<nat>)
    ensures r.Some? ==> r.value < |t.order| && IsChildOf(t.spans[t.order[r.value]], id)
    ensures r.None? <==> forall k | k in t.spans :: !IsChildOf(t.spans[k], id)
  {
    Seqs.FirstIndex(t.order, (k: string) => k in t.spans && IsChildOf(t.spans[k], id))
  }

  /** `FindChild` returns the first child the hash map yields */
  lemma FindChildIsFirst(t: Trace, id: string, i: nat)
    requires FindChild(t, id).Some?
    requires i < |t.order| && IsChildOf(t.spans[t.order[i]], id)
    ensures ChildIndex(t, id).value <= i
    ensures t.order[ChildIndex(t, id).value] == FindChild(t, id).value.spanId
  {
  }

  /** The key of the parent of `id` when both `id` and its parent are in the trace */
  function ParentKey(t: TraceObject, id: string): (r: Option<string>)
    ensures r.Some? ==> id in t.spans && r.value in t.spans && ParentSpanId(t.spans[id]) == Some(r.value)
    ensures r.None? <==> id !in t.spans || ParentSpanId(t.spans[id]).None? || ParentSpanId(t.spans[id]).value !in t.spans
  {
    if id !in t.spans then None
    else
      match ParentSpanId(t.spans[id])
      case None => None
      case Some(p) => if p in t.spans then Some(p) else None
  }

  /** The span stored under the parent id of span `id` */
  function GetParent(t: Trace, id: string): (r: Option<Span>)
    ensures r.None? <==> id !in t.spans || ParentSpanId(t.spans[id]).None? || ParentSpanId(t.spans[id]).value !in t.spans
    ensures r.Some? ==> id in t.spans && ParentSpanId(t.spans[id]) == Some(r.value.spanId) && t.spans[r.value.spanId] == r.value
  {
    match ParentKey(t, id)
    case None => None
    case Some(p) => Some(t.spans[p])
  }

  /** A span whose parent resolves is found again by searching for a child of that parent */
  lemma ParentHasChild(t: Trace, id: string)
    requires GetParent(t, id).Some?
    ensures FindChild(t, GetParent(t, id).value.spanId).Some?
    ensures GetParent(t, FindChild(t, GetParent(t, id).value.spanId).value.spanId) == GetParent(t, id)
  {
    var p := GetParent(t, id).value;
    assert IsChildOf(t.spans[id], p.spanId);
  }

  /** What a found child says about the parent relation: the child's parent is the span searched from */
  lemma ChildHasParent(t: Trace, id: string)
    requires id in t.spans && FindChild(t, id).Some?
    ensures GetParent(t, FindChild(t, id).value.spanId) == Some(t.spans[id])
  {
  }

  /** `rank` strictly decreases from each span to its parent: the parent
      references of the trace contain no cycle */
  predicate Ranked(t: Trace, rank: map<string, nat>) {
    && (forall k | k in t.spans :: k in rank)
    && (forall k | k in t.spans && ParentKey(t, k).Some? :: rank[ParentKey(t, k).value] < rank[k])
  }

  /** `Ranked` with every rank below `bound` */
  predicate RankedBelow(t: Trace, rank: map<string, nat>, bound: nat) {
    Ranked(t, rank) && forall k | k in t.spans :: rank[k] < bound
  }

  /** How a walk ended: the source's `Ok(())`, the predicate's error, or the
      point where the model's fuel ran out (the source would recurse further) */
  datatype WalkOutcome<+E> = Finished | Failed(error: E) | OutOfFuel

  /** Every span handed to the predicate, in order, and how the walk ended */
  datatype Walk<+E> = Walk(visited: seq<Span>, outcome: WalkOutcome<E>)

  /** The recursion shared by both walks: `step` finds the next span from an
      id, `f` is applied to it and the walk goes on from that span while `f`
      returns false and `more` holds of the span. `f` receives every span it
      was applied to before, which stands for whatever state the source's
      closure keeps; `seen` is that history at the start, and the result
      extends it with the spans this walk visits. */
  function Recurse<E>(step: string -> Option<Span>, more: Span -> bool, id: string,
                      f: (seq<Span>, Span) -> Result<bool, E>, fuel: nat, seen: seq<Span>): (r: Walk<E>)
    ensures |seen| <= |r.visited| <= |seen| + fuel + 1 && r.visited[..|seen|] == seen
    ensures |r.visited| > |seen| ==> step(id) == Some(r.visited[|seen|])
    ensures forall i | |seen| <= i < |r.visited| - 1 :: step(r.visited[i].spanId) == Some(r.visited[i + 1])
    ensures forall i | |seen| <= i < |r.visited| - 1 :: f(r.visited[..i], r.visited[i]) == Ok(false) && more(r.visited[i])
    ensures |r.visited| == |seen| ==> r.outcome == Finished && step(id).None?
    decreases fuel
  {
    match step(id)
    case None => Walk(seen, Finished)
    case Some(c) =>
      match f(seen, c)
      case Err(e) => Walk(seen + [c], Failed(e))
      case Ok(stop) =>
        if stop || !more(c) then Walk(seen + [c], Finished)
        else if fuel == 0 then Walk(seen + [c], OutOfFuel)
        else
          var r := Recurse(step, more, c.spanId, f, fuel - 1, seen + [c]);
          assert r.visited[..|seen|] == seen && r.visited[|seen|] == c by {
            assert r.visited[..|seen| + 1] == seen + [c];
          }
          r
  }

  /** The ending condition of a walk that visited at least one span */
  ghost predicate StopsAt<E>(step: string -> Option<Span>, more: Span -> bool, f: (seq<Span>, Span) -> Result<bool, E>,
                       fuel: nat, seen: seq<Span>, r: Walk<E>)
    requires |r.visited| > |seen|
  {
    var n := |r.visited|;
    var verdict := f(r.visited[..n - 1], r.visited[n - 1]);
    match r.outcome
    case Failed(e) => verdict == Err(e)
    case Finished => verdict == Ok(true) || (verdict == Ok(false) && (!more(r.visited[n - 1]) || step(r.visited[n - 1].spanId).None?))
    case OutOfFuel => n == |seen| + fuel + 1 && verdict == Ok(false) && more(r.visited[n - 1])
  }

  /** How a walk ends: with the predicate's error, with its first `true`, at
      a span after which `more` fails or `step` finds nothing, or (in the
      model only) with the fuel spent where the source would go on */
  lemma {:induction false} RecurseStops<E>(step: string -> Option<Span>, more: Span -> bool, id: string,
                                           f: (seq<Span>, Span) -> Result<bool, E>, fuel: nat, seen: seq<Span>)
    ensures var r := Recurse(step, more, id, f, fuel, seen);
            |r.visited| > |seen| ==> StopsAt(step, more, f, fuel, seen, r)
    decreases fuel
  {
    var r := Recurse(step, more, id, f, fuel, seen);
    match step(id)
    case None =>
    case Some(c) =>
      assert (seen + [c])[..|seen|] == seen;
      match f(seen, c)
      case Err(e) =>
        assert r == Walk(seen + [c], Failed(e));
      case Ok(stop) =>
        if stop || !more(c) {
          assert r == Walk(seen + [c], Finished);
        } else if fuel == 0 {
          assert r == Walk(seen + [c], OutOfFuel);
        } else {
          RecurseStops(step, more, c.spanId, f, fuel - 1, seen + [c]);
          if |r.visited| == |seen| + 1 {
            assert r.visited == r.visited[..|seen| + 1] == seen + [c];
          }
        }
  }

  /** The three ways a walk that visited something ends, read off `StopsAt` */
  lemma StopsAtCases<E>(step: string -> Option<Span>, more: Span -> bool, f: (seq<Span>, Span) -> Result<bool, E>,
                        fuel: nat, seen: seq<Span>, r: Walk<E>)
    requires |r.visited| > |seen| && StopsAt(step, more, f, fuel, seen, r)
    ensures var n := |r.visited|;
            var last := r.visited[n - 1];
            var verdict := f(r.visited[..n - 1], last);
            && (r.outcome.Failed? ==> verdict == Err(r.outcome.error))
            && (r.outcome.Finished? ==> verdict == Ok(true) || (verdict == Ok(false) && (!more(last) || step(last.spanId).None?)))
            && (r.outcome.OutOfFuel? ==> n == |seen| + fuel + 1 && verdict == Ok(false) && more(last))
  {
  }

  function ParentStep(t: Trace): string -> Option<Span> {
    id => GetParent(t, id)
  }

  function HasParentRef(s: Span): bool {
    ParentSpanId(s).Some?
  }

  function ChildStep(t: Trace): string -> Option<Span> {
    id => FindChild(t, id)
  }

  function Always(s: Span): bool {
    true
  }

  /** `recurse_parents`: applies `f` to the ancestors of `id`, nearest first,
      until `f` returns true or fails, or the span it was applied to has no
      parent reference, or the referenced parent is not in the trace */
  function RecurseParents<E>(t: Trace, id: string, f: (seq<Span>, Span) -> Result<bool, E>, fuel: nat): (r: Walk<E>)
    ensures |r.visited| <= fuel + 1
    ensures |r.visited| > 0 ==> GetParent(t, id) == Some(r.visited[0])
    ensures forall i | 0 <= i < |r.visited| - 1 :: GetParent(t, r.visited[i].spanId) == Some(r.visited[i + 1])
    ensures forall i | 0 <= i < |r.visited| - 1 ::
              f(r.visited[..i], r.visited[i]) == Ok(false) && ParentSpanId(r.visited[i]).Some?
    ensures |r.visited| == 0 <==> GetParent(t, id).None?
    ensures |r.visited| == 0 ==> r.outcome == Finished
  {
    Recurse(ParentStep(t), HasParentRef, id, f, fuel, [])
  }

  /** `recurse_children`: applies `f` to one child per level, the one
      `FindChild` returns, until `f` returns true or fails, or a span has no child */
  function RecurseChildren<E>(t: Trace, id: string, f: (seq<Span>, Span) -> Result<bool, E>, fuel: nat): (r: Walk<E>)
    ensures |r.visited| <= fuel + 1
    ensures |r.visited| > 0 ==> FindChild(t, id) == Some(r.visited[0])
    ensures forall i | 0 <= i < |r.visited| - 1 :: FindChild(t, r.visited[i].spanId) == Some(r.visited[i + 1])
    ensures forall i | 0 <= i < |r.visited| - 1 :: f(r.visited[..i], r.visited[i]) == Ok(false)
    ensures |r.visited| == 0 <==> FindChild(t, id).None?
    ensures |r.visited| == 0 ==> r.outcome == Finished
  {
    Recurse(ChildStep(t), Always, id, f, fuel, [])
  }

  /** How `recurse_parents` ends: the predicate's error, its first `true`, or
      an ancestor whose parent does not resolve; the model's fuel runs out only
      on an ancestor the source would recurse past */
  lemma RecurseParentsStops<E>(t: Trace, id: string, f: (seq<Span>, Span) -> Result<bool, E>, fuel: nat)
    ensures var r := RecurseParents(t, id, f, fuel);
            var n := |r.visited|;
            && (r.outcome.Failed? ==> n > 0 && f(r.visited[..n - 1], r.visited[n - 1]) == Err(r.outcome.error))
            && (r.outcome.Finished? && n > 0 ==>
                  var verdict := f(r.visited[..n - 1], r.visited[n - 1]);
                  verdict == Ok(true) ||
                  (verdict == Ok(false) && (ParentSpanId(r.visited[n - 1]).None? || GetParent(t, r.visited[n - 1].spanId).None?)))
            && (r.outcome.OutOfFuel? ==>
                  n == fuel + 1 && f(r.visited[..n - 1], r.visited[n - 1]) == Ok(false) && ParentSpanId(r.visited[n - 1]).Some?)
  {
    var r := RecurseParents(t, id, f, fuel);
    RecurseStops(ParentStep(t), HasParentRef, id, f, fuel, []);
    if |r.visited| > 0 {
      StopsAtCases(ParentStep(t), HasParentRef, f, fuel, [], r);
      var last := r.visited[|r.visited| - 1];
      assert ParentStep(t)(last.spanId) == GetParent(t, last.spanId);
      assert HasParentRef(last) == ParentSpanId(last).Some?;
    }
  }

  /** How `recurse_children` ends: the predicate's error, its first `true`, or
      a span without a child; the model's fuel runs out only where the source
      would recurse further */
  lemma RecurseChildrenStops<E>(t: Trace, id: string, f: (seq<Span>, Span) -> Result<bool, E>, fuel: nat)
    ensures var r := RecurseChildren(t, id, f, fuel);
            var n := |r.visited|;
            && (r.outcome.Failed? ==> n > 0 && f(r.visited[..n - 1], r.visited[n - 1]) == Err(r.outcome.error))
            && (r.outcome.Finished? && n > 0 ==>
                  var verdict := f(r.visited[..n - 1], r.visited[n - 1]);
                  verdict == Ok(true) || (verdict == Ok(false) && FindChild(t, r.visited[n - 1].spanId).None?))
            && (r.outcome.OutOfFuel? ==> n == fuel + 1 && f(r.visited[..n - 1], r.visited[n - 1]) == Ok(false))
  {
    var r := RecurseChildren(t, id, f, fuel);
    RecurseStops(ChildStep(t), Always, id, f, fuel, []);
    if |r.visited| > 0 {
      StopsAtCases(ChildStep(t), Always, f, fuel, [], r);
      var last := r.visited[|r.visited| - 1];
      assert ChildStep(t)(last.spanId) == FindChild(t, last.spanId);
      assert Always(last);
    }
  }

  /** A walk whose `step` strictly decreases a measure `m` never needs more
      fuel than the measure of its start */
  lemma {:induction false} RecurseEnds<E>(step: string -> Option<Span>, more: Span -> bool, m: string -> nat, id: string,
                                          f: (seq<Span>, Span) -> Result<bool, E>, fuel: nat, seen: seq<Span>)
    requires forall x | step(x).Some? :: m(step(x).value.spanId) < m(x)
    requires fuel >= m(id)
    ensures Recurse(step, more, id, f, fuel, seen).outcome != OutOfFuel
    decreases fuel
  {
    match step(id)
    case None =>
    case Some(c) =>
      match f(seen, c)
      case Err(e) =>
      case Ok(stop) =>
        if !stop && more(c) {
          assert m(c.spanId) < m(id);
          RecurseEnds(step, more, m, c.spanId, f, fuel - 1, seen + [c]);
        }
  }

  /** On a trace without parent cycles, fuel at least the rank of the start
      suffices: the ancestor walk ends the way the source's does */
  lemma RecurseParentsEnds<E>(t: Trace, rank: map<string, nat>, id: string, f: (seq<Span>, Span) -> Result<bool, E>, fuel: nat)
    requires Ranked(t, rank)
    requires id in t.spans ==> fuel >= rank[id]
    ensures RecurseParents(t, id, f, fuel).outcome != OutOfFuel
  {
    var m := (x: string) => if x in t.spans then rank[x] else 0;
    forall x | ParentStep(t)(x).Some?
      ensures m(ParentStep(t)(x).value.spanId) < m(x)
    {
      assert ParentKey(t, x) == Some(GetParent(t, x).value.spanId);
    }
    RecurseEnds(ParentStep(t), HasParentRef, m, id, f, fuel, []);
  }

  /** On a trace whose ranks lie below `bound`, fuel `bound` suffices for the
      descendant walk from any id, in the trace or not */
  lemma RecurseChildrenEnds<E>(t: Trace, rank: map<string, nat>, bound: nat, id: string, f: (seq<Span>, Span) -> Result<bool, E>, fuel: nat)
    requires RankedBelow(t, rank, bound)
    requires fuel >= bound
    ensures RecurseChildren(t, id, f, fuel).outcome != OutOfFuel
  {
    var m := (x: string) => if x in t.spans then bound - rank[x] - 1 else bound;
    forall x | ChildStep(t)(x).Some?
      ensures m(ChildStep(t)(x).value.spanId) < m(x)
    {
      var c := FindChild(t, x).value;
      if x in t.spans {
        assert ParentKey(t, c.spanId) == Some(x);
      }
    }
    RecurseEnds(ChildStep(t), Always, m, id, f, fuel, []);
  }
}
