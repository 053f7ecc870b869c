# dot-jaeger core, modelled in Dafny

dot-jaeger pulls traces from a Jaeger agent and turns the spans it finds into
Prometheus metrics about parachain candidates. This project models the
sequential core of that program as pure functions over immutable data. The
model covers four areas:

- **Primitives**: the Jaeger span and trace records (`src/primitives.rs`).
  This covers tag lookup, the `CHILD_OF` parent reference, the span list keyed
  by span id, and parent and child lookup inside a trace. It also covers the
  two predicate-driven walks, `recurse_parents` and `recurse_children`.
- **SpanGraph**: the span graph (`src/graph.rs`). It has one node per span,
  and a parent-to-child edge wherever a span's parent resolves inside the
  trace. It also covers the direct-parent iterator `Graph::parents` and the
  first-child descent `Graph::children`.
- **Daemon**: candidate extraction and the metrics state (`src/daemon.rs`).
  This covers `Candidate::try_from` and `extract_from_span`, plus `insert`,
  `extend`, `update` and `clear` on the per-stage candidate lists. It also
  covers the histogram observations and the gauge that `update` feeds.
- **Api**: the query side of the Jaeger HTTP API (`src/api.rs`). This covers
  the `Endpoint` paths, `endpoint`, `ParamBuilder` and `build_parameters`.

Modules:

| module | file | models |
|---|---|---|
| `Wrappers` | `wrappers.dfy` | `Option` and `Result` |
| `Seqs` | `seqs.dfy` | first index, duplicate-free sequences, counting |
| `Decimal` | `decimal.dfy` | `usize::to_string` and a parser as its partner |
| `Utf8` | `utf8.dfy` | the UTF-8 bytes of a `str`, a decoder as their partner, and byte-index slicing |
| `Hex` | `hex.dfy` | `hex::decode_to_slice` and an encoder as its partner |
| `Primitives` | `primitives.dfy` | `src/primitives.rs` |
| `SpanGraph` | `graph.dfy` | `src/graph.rs` |
| `GraphExamples` | `graph_examples.dfy` | the parent/child test trace of `src/graph.rs` |
| `Daemon` | `daemon.dfy` | `src/daemon.rs` |
| `Api` | `api.dfy` | `src/api.rs` |

Modelling choices:

- **Hash map iteration order.** A trace is its span map plus `order`, a
  duplicate-free sequence of its keys. `order` stands for the unspecified
  iteration order of the Rust `HashMap`. `find_child` and `Graph::new` both
  iterate the map, so the model states their results in terms of `order`.
  Results that do not depend on the order are proved for every order.
- **The walks.** The source recursion is unbounded, so the walks take `fuel`.
  They end with `Finished`, `Failed(e)` (the predicate's error, propagated)
  or `OutOfFuel`. The predicate is a function of the spans visited so far and
  the current span, which covers the stateful `FnMut` closures callers pass.
  When the parent links descend a rank, the walks provably never run out of
  fuel.
- **The DAG.** It is a node sequence, an id-to-index table and the edge list
  in insertion order. Adding an edge is refused exactly when the child already
  reaches the parent. This matches daggy's cycle check.
- **Child order.** petgraph lists a node's edges most recent first. So the
  "first child" that `Graph::children` follows is the child of the last edge
  added from that node.
- **`Graph::new`** is modelled as one `add_edge` per span in map order, with
  the parent resolved once per span. The source asks `get_parent` inside its
  loop. That lookup is pure, so the edges are the same.
- **Metrics** are a value threaded through the operations. The histogram is
  the multiset of stages it has observed, and the gauge holds the last value
  set.
- **Strings and bytes.** Strings are sequences of Unicode scalar values.
  Where the source works on bytes, the model works on their UTF-8
  encoding: `&value[2..]` skips two bytes and panics off a char boundary,
  and `hex::decode_to_slice` counts, indexes and reports bytes.
- **Stage.** `insert` draws its stage at random from `0..10`. Here the stage
  is a parameter below `STAGE_COUNT`. Operations over many spans take one
  stage per span.

## Model

| member | source | states |
|---|---|---|
| Primitives.RenderTagValue | src/primitives.rs:163-171 | A string tag renders as itself, a boolean as "true" exactly when it is true and as "false" exactly when it is false, and a number as a canonical decimal string, digits only with no leading zero, that parses back to the same number |
| Primitives.TagText | src/primitives.rs:150-152 | A tag's text is its value rendered: a string as itself, a boolean as "true" or "false" according to its value, a number as a canonical decimal, with no leading zero, that parses back to it |
| Decimal.ParseFromNat | src/primitives.rs:168 | The decimal rendering of any number parses back to that number |
| Decimal.FromNatInjective | src/primitives.rs:168 | Two numbers with the same decimal rendering are equal |
| Primitives.GetTag | src/primitives.rs:129-131 | No tag is found exactly when no tag has the key; otherwise the tag found has the key and no earlier tag in list order has it |
| Primitives.ParentSpanId | src/primitives.rs:134-137 | No parent id exactly when no reference is of type CHILD_OF; otherwise the span id of the first CHILD_OF reference, with references of other types skipped |
| Primitives.SpansToMap | src/primitives.rs:48-57 | Every listed span's id is a key, and every key maps to a listed span carrying that id |
| Primitives.SpansToMapLastWins | src/primitives.rs:52-55 | When ids repeat, the span stored under an id is the one at its last occurrence in the list |
| Primitives.DecodeTrace | src/primitives.rs:37-57 | A decoded trace's keys are exactly the span ids of the decoded list |
| Primitives.FindChild | src/primitives.rs:60-63 | A span found is a span of the trace naming `id` as its parent; nothing is found exactly when no span of the trace names `id` as its parent |
| Primitives.FindChildIsFirst | src/primitives.rs:62 | The span found is the first, in map iteration order, that names `id` as its parent |
| Primitives.GetParent | src/primitives.rs:65-74 | No parent exactly when the id is not in the trace, or its span has no CHILD_OF reference, or the referenced id is not in the trace; otherwise the span stored under the referenced id |
| Primitives.ParentHasChild | src/primitives.rs:61-74 | A resolved parent has a child, and that child resolves back to the same parent |
| Primitives.ChildHasParent | src/primitives.rs:61-74 | The child found for a span of the trace resolves back to that span as its parent |
| Primitives.RecurseParents | src/primitives.rs:91-102 | The spans visited are successive resolved parents, starting at the parent of `id`; each one before the last was answered false and has a parent reference; nothing is visited exactly when `id` has no resolved parent |
| Primitives.RecurseParentsStops | src/primitives.rs:96-101 | A failed walk ends at the span whose predicate call returned that error; a finished walk ends at a span answered true, or answered false with no parent reference or no resolvable parent; fuel runs out only after fuel + 1 spans all answered false |
| Primitives.RecurseParentsEnds | src/primitives.rs:92-102 | When parent links descend a rank and the fuel covers the rank of `id`, the walk never runs out of fuel |
| Primitives.RecurseChildren | src/primitives.rs:76-89 | The spans visited are successive found children, starting at a child of `id`; each one before the last was answered false; nothing is visited exactly when `id` has no child |
| Primitives.RecurseChildrenStops | src/primitives.rs:83-88 | A failed walk ends at the span whose predicate call returned that error; a finished walk ends at a span answered true, or answered false and having no child; fuel runs out only after fuel + 1 spans all answered false |
| Primitives.RecurseChildrenEnds | src/primitives.rs:79-89 | When parent links descend a rank below a bound and the fuel covers the bound, the descent never runs out of fuel |
| SpanGraph.AddEdge | src/graph.rs:47 | daggy's `add_edge`: refused with `WouldCycle` exactly when the child already reaches the parent; otherwise exactly that edge is appended, with the nodes and table untouched |
| SpanGraph.Lookup | src/graph.rs:38-41 | The table's keys are exactly the trace's span ids, and each id maps to the position of its span in iteration order |
| SpanGraph.AddAll | src/graph.rs:43-49 | Adding edges in turn either succeeds with exactly those edges appended and the nodes and table untouched, or fails on an edge of the list whose child already reaches its parent through the graph's edges and the edges of the list before it |
| SpanGraph.New | src/graph.rs:34-51 | A built graph has one node per span of the iteration order and the id table of that order; a failure names one of the parent-to-child edges being added |
| SpanGraph.NewNodes | src/graph.rs:38-41 | A built graph has one node per span, its table holds every span id, and each id indexes the node holding its span |
| SpanGraph.NewEdgesFollow | src/graph.rs:43-49 | A built graph's edges are the edges of the resolvable spans in map order; a refused edge is the edge of the span at its child end |
| SpanGraph.NewEdges | src/graph.rs:43-49 | A built graph has the edge from parent to child for every span whose parent resolves, and every edge joins a span's resolved parent to the span |
| SpanGraph.NewEdgeCount | src/graph.rs:43-49 | A built graph has exactly one edge per span whose parent lies in the same trace |
| SpanGraph.NewError | src/graph.rs:47 | When construction fails, the refused edge joins a span of the trace to its resolved parent, every edge built joins a span to its resolved parent, and the span already reaches that parent through the edges built before it, so the parent links close a cycle |
| SpanGraph.NewSucceedsWhenRanked | src/graph.rs:43-51 | A trace whose parent links descend some rank, and so hold no cycle, always builds |
| SpanGraph.FirstChildIsLatest | src/graph.rs:59 | The first child listed for a node is the child end of the most recently added edge leaving it |
| SpanGraph.Parents | src/graph.rs:65-68 | No answer exactly when the id is not in the table; otherwise the nodes at the parent ends of the edges into the id's node |
| SpanGraph.ParentsOfNew | src/graph.rs:65-68 | In a built graph, the parents of a span of the trace are its resolved parent alone, or nothing when it has none; an unknown id gets no answer |
| SpanGraph.Children | src/graph.rs:54-63 | No answer exactly when the id is not in the table; otherwise the nodes along the first-child chain from the id's node |
| SpanGraph.ChildrenLinked | src/graph.rs:54-63 | In a built graph, each span yielded by `children` is a span of the trace whose resolved parent is the previous span yielded, starting from the span of `id` |
| SpanGraph.ChildrenEnd | src/graph.rs:56-60 | On a ranked trace, the first-child chain ends before it has visited as many nodes as the graph has, so the walk is finite |
| SpanGraph.ChildrenReachLeaf | src/graph.rs:54-63 | On a ranked trace, the descent from `id` ends at a span that no span of the trace names as its parent |
| GraphExamples.ChainParentsOfNew | src/graph.rs:86-95 | In the parent, child-0, child-1 chain, for every map order, the parents of child-1 are child-0 alone, the root has none, and an unknown id gets no answer |
| GraphExamples.ChainChildren | src/graph.rs:97-110 | In the same chain, for every map order, the descent from the root yields child-0 and then child-1 |
| GraphExamples.SelfParentFails | src/graph.rs:47 | A span naming itself as its parent closes a cycle, so construction fails |
| Utf8.SliceFrom | src/daemon.rs:188 | `&value[2..]`: the bytes of the UTF-8 encoding from the index on, exactly when the index is a char boundary (the start, the end, or a byte that is not a continuation byte); no result, where Rust panics, otherwise |
| Utf8.CharBoundaryIsPrefix | src/daemon.rs:188 | A byte index is a char boundary exactly when some prefix of the string's characters encodes to that many bytes |
| Utf8.SliceAfterPrefix | src/daemon.rs:188 | Slicing `p + q` at the byte length of `p` gives exactly the encoding of `q` |
| Utf8.DecodeEncode | src/daemon.rs:188 | Decoding the UTF-8 encoding of any string gives the string back, so the byte view loses nothing |
| Hex.DecodeToSlice | src/daemon.rs:188 | On bytes: odd length gives OddLength; an even length other than twice the slice length gives InvalidStringLength; decoding succeeds exactly when the length fits and every byte is a hex digit, giving each byte from its digit pair; when the length fits but a byte is not a hex digit, the error is InvalidHexCharacter for the first such byte, at its position, as the character with its value |
| Hex.DecodeEncode | src/daemon.rs:188 | Decoding the hex encoding of any bytes gives the bytes back |
| Daemon.TryFrom | src/daemon.rs:182-196 | A span without the hash tag gives "no hash"; a candidate's hash tag is sliceable at byte 2, the bytes after the first two decode to the candidate's hash, which is not all zero, and it carries the span's operation name; "no hash" comes exactly from a missing tag or an all-zero hash |
| Daemon.TryFromEncoded | src/daemon.rs:184-195 | Any prefix of two bytes (two ASCII characters or one two-byte character) followed by the hex of a nonzero hash yields the candidate with that hash and the span's operation name |
| Daemon.TryFromErrors | src/daemon.rs:188 | The slice panics exactly when byte 2 is not a char boundary, which is exactly when no prefix of the characters encodes to two bytes; a hex error is returned exactly when decoding the bytes after the first two fails with that error |
| Daemon.TryFromTwoByteChar | src/daemon.rs:188 | "é" alone is its two bytes skipped and leaves nothing to decode, so the length is refused; "é" followed by the hex of a nonzero hash yields that hash |
| Daemon.TryFromBadByteIndex | src/daemon.rs:188 | After "0x" and 62 hex digits, a trailing "é" is reported as a bad hex character at byte index 62, with the character of its first byte |
| Daemon.ExtractFromSpan | src/daemon.rs:210-216 | Every span yields stage 0, whatever its tags |
| Daemon.NewMetrics | src/daemon.rs:106-131 | New metrics hold no candidate under any stage, an empty histogram and a zero gauge |
| Daemon.Insert | src/daemon.rs:145-161 | Insertion succeeds exactly when the span yields a candidate; a failure returns that candidate error; the histogram and gauge do not change |
| Daemon.InsertFiles | src/daemon.rs:150-156 | The drawn stage's list grows by exactly the span's candidate at its end; every other stage's list is unchanged; the stage becomes a key; no list is ever left empty |
| Daemon.InsertTwice | src/daemon.rs:147-161 | Inserting the same span twice files its candidate twice: there is no deduplication by hash |
| Daemon.Extend | src/daemon.rs:163-169 | Extending never touches the histogram or the gauge; its result and filing are stated by ExtendResult and ExtendFiles against an independent definition |
| Daemon.ExtendResult | src/daemon.rs:163-169 | Extending succeeds exactly when every span yields a candidate; otherwise the error is that of the first span that does not |
| Daemon.ExtendFiles | src/daemon.rs:164-168 | After extending, each stage's list is its old list followed by the candidates of the spans before the first failure that were drawn for it, in order; nothing is rolled back |
| Daemon.ExtendNoEmptyLists | src/daemon.rs:151-155 | Extending keeps every stage present with at least one candidate |
| Daemon.ObservationsCount | src/daemon.rs:137-139 | One histogram pass makes exactly one observation per filed candidate |
| Daemon.Update | src/daemon.rs:133-143 | As written: inserts like extend; on success it observes every filed candidate's stage once more and sets the gauge to the number of stages present; on failure it stops before the histogram and gauge |
| Daemon.UpdateCounted | src/daemon.rs:133-143 | Corrected: the same result, candidates and histogram as `update`, with the gauge left alone on failure |
| Daemon.UpdateCountedGauge | src/daemon.rs:137-140 | On success the corrected gauge equals the number of observations the update added to the histogram, which is the number of candidates held |
| Daemon.GaugeCountsStages | src/daemon.rs:140 | For any two spans that yield candidates, drawn for one stage, two candidates are filed, yet the gauge as written reads 1 and the corrected gauge 2 |
| Daemon.GaugeMiscountWitness | src/daemon.rs:140 | There are two concrete spans with different hashes on which the gauge as written reads 1 and the corrected gauge reads 2 |
| Daemon.Clear | src/daemon.rs:171-174 | After clearing, every stage's list is empty, and the histogram and gauge keep their values |
| Daemon.UpdateAfterClear | src/daemon.rs:172-174 | An update of no spans after clearing succeeds, holds no candidates and sets the gauge to 0, with the histogram untouched |
| Daemon.CollectSpansMembers | src/daemon.rs:86 | The spans handed to `update` are exactly the values of the decoded traces' span maps, the reading line 86 evidently intends |
| Daemon.CollectMetrics | src/daemon.rs:81-88 | Collecting through the as-written `update` succeeds exactly when every span of every trace yields a candidate; the candidates are those extending files; a failure leaves the histogram and gauge alone; a success sets the gauge to the number of stages present |
| Daemon.CollectMetricsCounted | src/daemon.rs:81-88 | The collector with the corrected update ends with the same result, candidates and histogram, and on success a gauge equal to the number of candidates |
| Api.Path | src/api.rs:48-55 | Each endpoint displays as a path under "/api/": Traces exactly as "/api/traces" and Services exactly as "/api/services" |
| Api.EndpointUrl | src/api.rs:102-104 | The endpoint URL is the base URL followed by the endpoint's path |
| Api.SplitEndpointUrlInverse | src/api.rs:102-104 | The base URL and the endpoint can be read back from any endpoint URL |
| Api.EndpointUrlInjective | src/api.rs:102-104 | Different base URLs or endpoints never give the same endpoint URL |
| Api.Query | src/api.rs:143-151 | The HTTP client's `query` keeps the URL and the pairs there, and adds exactly the given pair at the end |
| Api.NewBuilder | src/api.rs:119-121 | A new builder has no parameter set |
| Api.WithLimit | src/api.rs:124-127 | The limit becomes the given one; service and lookback keep their values |
| Api.WithService | src/api.rs:130-133 | The service becomes the given one; limit and lookback keep their values |
| Api.WithLookback | src/api.rs:136-139 | The lookback becomes the given one; limit and service keep their values |
| Api.SettersIndependent | src/api.rs:123-139 | Each setter replaces its own parameter only: setters of different parameters commute, a later call of one setter overrides an earlier one, and the three setters on a new builder give exactly the values set |
| Api.BuildNew | src/api.rs:119-121 | Building from a new builder leaves the request unchanged |
| Api.Build | src/api.rs:141-155 | Building keeps the URL and appends, after the pairs already there, the pairs of the parameters set |
| Api.BuildAdds | src/api.rs:141-155 | Building keeps the URL and the existing query pairs, then adds the keys service, limit and lookback in that order, each present exactly when set; service and lookback carry their values, and limit its decimal form |
| Api.BuildReadsBack | src/api.rs:141-155 | Reading the added pairs back recovers the builder exactly |
| Api.BuildParameters | src/api.rs:98-100 | The request keeps its URL and query, and the added pairs read back as the options' service, limit and lookback |

## Left out

- I/O and concurrency are not modelled: `PrometheusDaemon::start`, the Ctrl-C handler, the exporter, the timed waits and all logging and printing (`src/daemon.rs:56-79`, `src/graph.rs:57-58`). `src/http.rs`, `src/cli.rs` and `src/main.rs` are not part of this model.
- `JaegerApi::{new, traces, trace, services}` (`src/api.rs:65-95`) are not modelled: they are HTTP calls through ureq followed by serde JSON decoding. Only the values after decoding (`DecodeTrace`, `Consume`) and the request they build are modelled.
- Primitives.Consume: `RpcResponse::consume` is its one field, and it carries no contract because there is nothing more to state.
- The Prometheus registry, the metric names and `linear_buckets` are not modelled (`src/daemon.rs:106-131`). The f64 conversion of observations and of the gauge is not modelled either: the histogram is a multiset of stages, and the gauge is a natural number.
- `rand::thread_rng().gen_range(0..10)` (`src/daemon.rs:149`) is nondeterministic. The stage is a parameter below 10.
- Span `duration`, `logs`, `warnings`, `flags`, `start_time` and the trace's `processes` are carried or dropped, but no modelled logic reads them.
- Daemon.TryFrom: where `&h.value()[2..]` panics in the source (a value of fewer than two bytes, or byte 2 inside a character), the model returns `SlicePanics` instead.
- Hex.DecodeToSlice: on a bad byte the hex crate has already written the pairs before it into the buffer. The model returns only the error, which is all `try_from` keeps.
- daggy's internals are not modelled. Its `WouldCycle` error carries only the edge weight. The model's error also records the refused edge's parent and child, which the proofs use to name the failing span.
- Primitives.RecurseParents: the source recursion is unbounded, and the model stops with `OutOfFuel` after `fuel + 1` spans. `RecurseParentsEnds` and `RecurseChildrenEnds` show this never happens when the fuel covers the rank of an acyclic trace. A cyclic trace loops forever in the source; the model runs out of fuel.
- Primitives.RecurseChildren: the same fuel bound as `RecurseParents`.
- SpanGraph.Children: daggy's `recursive_walk` is unbounded. The model follows at most as many first-child steps as the graph has nodes. `ChildrenEnd` shows the chain is shorter than that on an acyclic trace, so nothing is cut off there.
- SpanGraph.NewSucceedsWhenRanked: only one direction is proved (no cycle in the parent links implies construction succeeds). `NewError` shows that a failure comes from daggy's cycle check on a real parent link whose child already reaches its parent through other parent links. That a cycle in the parent links always makes construction fail is not proved.
- Daemon.CollectMetrics: `src/daemon.rs:86` as written iterates `t.spans.iter()`, which yields (id, span) pairs where `update` takes spans, so the line does not compile; the model hands `update` each map's values in iteration order instead. Line 83 also calls `self.api.into_json`, which `JaegerApi` (`src/api.rs:65-95`) does not define; the model takes the decoded traces as its input.
- Daemon.ExtractFromSpan: the source reads the `candidate-stage` tag and then discards it, so the model does not read it.
- ureq's percent-encoding of query values is not modelled. The query is the list of raw key/value pairs.
- `build_parameters` reads `app.lookback`, but the `App` struct in `src/cli.rs` has no `lookback` field. The model's `QueryOptions` carries `service`, `limit` and `lookback` as `build_parameters` uses them.
- The source leaves grouping candidates by parent span and organising them by their stage tag for later (the TODO at `src/daemon.rs:91-94`). The stage is a random placeholder in `insert` (`src/daemon.rs:148-149`) and a constant one in `extract_from_span` (`src/daemon.rs:211-214`), and parsing the stage tag is commented out (`src/daemon.rs:200-207`, `src/daemon.rs:212`). The model follows the code: candidates are not grouped or deduplicated (`InsertTwice`), `update` does not clear them, and `extract_from_span` gives stage 0.
- The test data file behind `TEST_DATA` is not part of this model. `GraphExamples` uses a three-span chain with the ids the graph tests name.

## Findings

| source | as written | input that shows it | evidently intended | confidence | as-written member | corrected member |
|---|---|---|---|---|---|---|
| src/daemon.rs:140 | `update` sets `parachain_total_candidates` to `self.candidates.len()`, which is the number of stages holding candidates | two spans with the different nonzero hashes 0x00…01 and 0x00…02, both drawn for stage 0: two candidates are filed, and the gauge is set to 1 | the gauge, described as "Total candidates registered on this node", holds the number of candidates, which is 2 here | not executed | Daemon.GaugeMiscountWitness | Daemon.UpdateCounted |
