/** The metrics side of the Prometheus daemon: reading a candidate (a hex
    hash and an operation name) out of a span, filing candidates per stage,
    and the histogram and gauge an update feeds. The Prometheus registry,
    the HTTP exporter and the polling loop are not modelled; the histogram
    is the multiset of values it has observed and the gauge its last value. */
module Daemon {
  import opened Wrappers
  import Seqs
  import Hex
  import Utf8
  import opened Primitives

  /** Tag key of the candidate hash */
  const HASH_IDENTIFIER: string := "candidate-hash"
  /** Tag key of the candidate stage (looked up, then ignored) */
  const STAGE_IDENTIFIER: string := "candidate-stage"
  /** Bytes in a candidate hash */
  const HASH_LENGTH: nat := 32
  /** Stages are drawn from `0..STAGE_COUNT` */
  const STAGE_COUNT: nat := 10

  /** `u8` */
  type Stage = x: nat | x < 256

  /** `n` zero bytes */
  function Zeros(n: nat): (z: seq<Hex.Byte>)
    ensures |z| == n && forall i | 0 <= i < n :: z[i] == 0
  {
    if n == 0 then [] else Zeros(n - 1) + [0]
  }

  /** The hash `try_from` starts from, and refuses to return */
  const ZERO_HASH: seq<Hex.Byte> := Zeros(HASH_LENGTH)

  type Hash = h: seq<Hex.Byte> | |h| == HASH_LENGTH witness ZERO_HASH

  datatype Candidate = Candidate(hash: Hash, operation: string)

  /** Why a span yields no candidate: no hash (no tag, or the all-zero hash),
      a tag value that `&value[2..]` cannot slice (fewer than two bytes, or
      byte 2 inside a character: the source panics there), or a hex
      decoding error */
  datatype CandidateError =
    | NoHash
    | SlicePanics(value: string)
    | BadHex(error: Hex.HexError)

  /** The text of the span's first hash tag, if it has one */
  function HashText(span: Span): Option<string> {
    match GetTag(span, HASH_IDENTIFIER)
    case None => None
    case Some(tag) => Some(TagText(tag))
  }

  /** The bytes of a hash value after its first two bytes */
  function AfterPrefix(text: string): seq<Utf8.Byte>
    requires Utf8.IsCharBoundary(text, 2)
  {
    Utf8.SliceFrom(text, 2).value
  }

  /** `Candidate::try_from`: decode the hash tag's value, after its first
      two bytes, into 32 bytes; a missing tag leaves the hash all zero, and
      an all-zero hash is refused */
  function TryFrom(span: Span): (r: Result<Candidate, CandidateError>)
    ensures HashText(span).None? ==> r == Err(NoHash)
    ensures r.Ok? ==>
              && HashText(span).Some? && Utf8.IsCharBoundary(HashText(span).value, 2)
              && Hex.DecodeToSlice(Utf8.Encode(HashText(span).value)[2..], HASH_LENGTH) == Ok(r.value.hash)
              && r.value.hash != ZERO_HASH
              && r.value.operation == span.operationName
    ensures r == Err(NoHash) <==>
              || HashText(span).None?
              || (Utf8.IsCharBoundary(HashText(span).value, 2) && Hex.DecodeToSlice(AfterPrefix(HashText(span).value), HASH_LENGTH) == Ok(ZERO_HASH))
  {
    match HashText(span)
    case None => Err(NoHash)
    case Some(text) =>
      match Utf8.SliceFrom(text, 2)
      case None => Err(SlicePanics(text))
      case Some(rest) =>
        match Hex.DecodeToSlice(rest, HASH_LENGTH)
        case Err(e) => Err(BadHex(e))
        case Ok(bytes) =>
          if bytes == ZERO_HASH then Err(NoHash)
          else Ok(Candidate(bytes, span.operationName))
  }

  /** The hash value text that writes `h` in lower-case hex */
  function HexText(h: Hash): (s: string)
    ensures Utf8.Encode(s) == Hex.Encode(h)
  {
    Utf8.EncodeAsciiText(Hex.Encode(h));
    Utf8.AsciiText(Hex.Encode(h))
  }

  /** A span whose hash tag holds a prefix of two bytes (two ASCII
      characters such as "0x", or one two-byte character) followed by the
      hex of a nonzero hash yields that hash and the span's operation */
  lemma TryFromEncoded(span: Span, prefix: string, h: Hash)
    requires |Utf8.Encode(prefix)| == 2 && h != ZERO_HASH
    requires HashText(span) == Some(prefix + HexText(h))
    ensures TryFrom(span) == Ok(Candidate(h, span.operationName))
  {
    Utf8.SliceAfterPrefix(prefix, HexText(h));
    Hex.DecodeEncode(h);
  }

  /** The failures other than a missing hash: a value `&value[2..]` cannot
      slice, then the hex decoder's error on the bytes after the first two */
  lemma TryFromErrors(span: Span)
    requires HashText(span).Some?
    ensures var text := HashText(span).value;
            && (TryFrom(span) == Err(SlicePanics(text)) <==> !Utf8.IsCharBoundary(text, 2))
            && (!Utf8.IsCharBoundary(text, 2) <==> forall k | 0 <= k <= |text| :: |Utf8.Encode(text[..k])| != 2)
            && (forall e :: TryFrom(span) == Err(BadHex(e)) <==>
                  Utf8.IsCharBoundary(text, 2) && Hex.DecodeToSlice(AfterPrefix(text), HASH_LENGTH) == Err(e))
  {
    Utf8.CharBoundaryIsPrefix(HashText(span).value, 2);
  }

  /** "é", one character of two bytes */
  const E_ACUTE: string := "\U{E9}"

  /** Byte counting, not character counting: "é" alone is the two bytes
      the source skips, so nothing is left to decode and the length is
      refused; followed by the hex of a nonzero hash it is skipped as the
      prefix */
  lemma TryFromTwoByteChar(span: Span, h: Hash)
    requires h != ZERO_HASH
    ensures HashText(span) == Some(E_ACUTE) ==> TryFrom(span) == Err(BadHex(Hex.InvalidStringLength))
    ensures HashText(span) == Some(E_ACUTE + HexText(h)) ==> TryFrom(span) == Ok(Candidate(h, span.operationName))
  {
    assert Utf8.Encode(E_ACUTE) == [0xC3, 0xA9];
    if HashText(span) == Some(E_ACUTE) {
      assert Utf8.SliceFrom(E_ACUTE, 2) == Some([]);
    }
    if HashText(span) == Some(E_ACUTE + HexText(h)) {
      TryFromEncoded(span, E_ACUTE, h);
    }
  }

  /** Positions are byte positions: after "0x" and 62 hex digits, "é"
      leaves its two bytes as the last pair, and the first of them is
      reported, as the character `0xC3 as char`, at byte index 62 */
  lemma TryFromBadByteIndex(span: Span, h: Hash)
    ensures HashText(span) == Some("0x" + HexText(h)[..62] + E_ACUTE) ==>
              TryFrom(span) == Err(BadHex(Hex.InvalidHexCharacter(0xC3 as char, 62)))
  {
    var digits := HexText(h)[..62];
    if HashText(span) == Some("0x" + digits + E_ACUTE) {
      var rest := Utf8.Encode(digits + E_ACUTE);
      assert ("0x" + digits + E_ACUTE) == "0x" + (digits + E_ACUTE);
      Utf8.SliceAfterPrefix("0x", digits + E_ACUTE);
      assert Utf8.SliceFrom("0x" + digits + E_ACUTE, 2) == Some(rest);
      DigitsThenTwoBytes(h, rest);
      assert Hex.FirstBadAt(rest, 0, 62);
    }
  }

  /** The bytes of 62 hex digits of `h` followed by "é" */
  lemma DigitsThenTwoBytes(h: Hash, rest: seq<Utf8.Byte>)
    requires rest == Utf8.Encode(HexText(h)[..62] + E_ACUTE)
    ensures |rest| == 64 && rest[62] == 0xC3
    ensures forall i | 0 <= i < 62 :: Hex.IsHexDigit(rest[i])
  {
    var digits := HexText(h)[..62];
    Utf8.EncodeAppend(digits, E_ACUTE);
    Utf8.EncodeAppend(digits, HexText(h)[62..]);
    assert HexText(h) == digits + HexText(h)[62..];
    assert Utf8.Encode(E_ACUTE) == [0xC3, 0xA9];
    assert forall i | 0 <= i < 62 :: rest[i] == Hex.Encode(h)[i];
  }

  /** `extract_from_span`: the stage tag the source looks up is discarded,
      and every span is given stage 0 */
  function ExtractFromSpan(span: Span): (r: Result<Option<Stage>, CandidateError>)
    ensures r.Ok? && r.value == Some(0)
  {
    Ok(Some(0))
  }

  /** The candidates filed per stage, the values the histogram has observed
      and the gauge's last value */
  datatype Metrics = Metrics(candidates: map<Stage, seq<Candidate>>, histogram: multiset<Stage>, gauge: nat)

  /** `Metrics::new` */
  function NewMetrics(): (r: Metrics)
    ensures forall k: Stage :: ListAt(r, k) == []
    ensures r.histogram == multiset{} && r.gauge == 0
  {
    Metrics(map[], multiset{}, 0)
  }

  /** The candidates filed under stage `k` */
  function ListAt(m: Metrics, k: Stage): seq<Candidate> {
    if k in m.candidates then m.candidates[k] else []
  }

  /** Every stage present holds at least one candidate */
  predicate NoEmptyLists(m: Metrics) {
    forall k | k in m.candidates :: |m.candidates[k]| > 0
  }

  /** `Metrics::insert` with the stage the source draws at random from
      `0..10` given as `stage`: the span's candidate is appended to that
      stage's list, or the span's error is returned and nothing changes */
  function Insert(m: Metrics, span: Span, stage: Stage): (r: Result<Metrics, CandidateError>)
    requires stage < STAGE_COUNT
    ensures r.Ok? <==> TryFrom(span).Ok?
    ensures r.Err? ==> r.error == TryFrom(span).error
    ensures r.Ok? ==> r.value.histogram == m.histogram && r.value.gauge == m.gauge
  {
    match ExtractFromSpan(span)
    case Err(e) => Err(e)
    case Ok(found) =>
      if found.None? then Ok(m)
      else if stage in m.candidates then
        match TryFrom(span)
        case Err(e) => Err(e)
        case Ok(c) => Ok(m.(candidates := m.candidates[stage := m.candidates[stage] + [c]]))
      else
        match TryFrom(span)
        case Err(e) => Err(e)
        case Ok(c) => Ok(m.(candidates := m.candidates[stage := [c]]))
  }

  /** A successful `Insert` appends the candidate to its stage's list and
      leaves every other list alone; the stage is then present */
  lemma InsertFiles(m: Metrics, span: Span, stage: Stage, k: Stage)
    requires stage < STAGE_COUNT && TryFrom(span).Ok?
    ensures ListAt(Insert(m, span, stage).value, k) == ListAt(m, k) + (if k == stage then [TryFrom(span).value] else [])
    ensures Insert(m, span, stage).value.candidates.Keys == m.candidates.Keys + {stage}
    ensures NoEmptyLists(m) ==> NoEmptyLists(Insert(m, span, stage).value)
  {
  }

  /** The state after a fallible operation and how it ended; on an error the
      state keeps whatever was done before it */
  datatype Outcome = Outcome(metrics: Metrics, result: Result<(), CandidateError>)

  /** Stages the source draws, one per span */
  predicate StagesFor(spans: seq<Span>, stages: seq<Stage>) {
    |stages| == |spans| && forall i | 0 <= i < |stages| :: stages[i] < STAGE_COUNT
  }

  /** `Metrics::extend`: insert the spans in order, stopping at the first
      error without undoing the insertions before it */
  function Extend(m: Metrics, spans: seq<Span>, stages: seq<Stage>): (r: Outcome)
    requires StagesFor(spans, stages)
    ensures r.metrics.histogram == m.histogram && r.metrics.gauge == m.gauge
    decreases |spans|
  {
    if |spans| == 0 then Outcome(m, Ok(()))
    else
      var n := |spans| - 1;
      var before := Extend(m, spans[..n], stages[..n]);
      if before.result.Err? then before
      else
        match Insert(before.metrics, spans[n], stages[n])
        case Err(e) => Outcome(before.metrics, Err(e))
        case Ok(m') => Outcome(m', Ok(()))
  }

  /** The number of leading spans that yield a candidate */
  function Accepted(spans: seq<Span>): (n: nat)
    ensures n <= |spans|
    ensures forall i | 0 <= i < n :: TryFrom(spans[i]).Ok?
    ensures n < |spans| ==> TryFrom(spans[n]).Err?
  {
    match Seqs.FirstIndex(spans, (s: Span) => TryFrom(s).Err?)
    case None => |spans|
    case Some(i) => i
  }

  /** Adding a span at the end changes the accepted count only when every
      span before it was accepted */
  lemma AcceptedSnoc(spans: seq<Span>)
    requires |spans| > 0
    ensures var n := |spans| - 1;
            var a0 := Accepted(spans[..n]);
            Accepted(spans) == if a0 < n then a0 else if TryFrom(spans[n]).Ok? then n + 1 else n
  {
    var n := |spans| - 1;
    assert forall i | 0 <= i < n :: spans[..n][i] == spans[i];
  }

  /** The candidates of `spans` whose stage is `k`, in order */
  function Filed(spans: seq<Span>, stages: seq<Stage>, k: Stage): seq<Candidate>
    requires |stages| == |spans|
    decreases |spans|
  {
    if |spans| == 0 then []
    else
      var n := |spans| - 1;
      Filed(spans[..n], stages[..n], k) + (if stages[n] == k && TryFrom(spans[n]).Ok? then [TryFrom(spans[n]).value] else [])
  }

  /** `Extend` succeeds exactly when every span yields a candidate, and
      otherwise ends with the error of the first span that yields none */
  lemma {:induction false} ExtendResult(m: Metrics, spans: seq<Span>, stages: seq<Stage>)
    requires StagesFor(spans, stages)
    ensures var r := Extend(m, spans, stages);
            && (r.result.Ok? <==> Accepted(spans) == |spans|)
            && (r.result.Err? ==> Accepted(spans) < |spans| && r.result.error == TryFrom(spans[Accepted(spans)]).error)
    decreases |spans|
  {
    if |spans| > 0 {
      var n := |spans| - 1;
      ExtendResult(m, spans[..n], stages[..n]);
      AcceptedSnoc(spans);
    }
  }

  lemma PrefixOfPrefix<T>(s: seq<T>, n: nat, a: nat)
    requires a <= n <= |s|
    ensures s[..n][..a] == s[..a]
  {
  }

  /** The candidates of the accepted spans drawn for stage `k`, in order */
  function FiledAccepted(spans: seq<Span>, stages: seq<Stage>, k: Stage): seq<Candidate>
    requires |stages| == |spans|
  {
    var a := Accepted(spans);
    Filed(spans[..a], stages[..a], k)
  }

  /** Adding a span at the end files its candidate only when it and every
      span before it are accepted */
  lemma FiledAcceptedSnoc(spans: seq<Span>, stages: seq<Stage>, k: Stage)
    requires |stages| == |spans| > 0
    ensures var n := |spans| - 1;
            FiledAccepted(spans, stages, k) ==
              if Accepted(spans[..n]) < n || TryFrom(spans[n]).Err? then FiledAccepted(spans[..n], stages[..n], k)
              else FiledAccepted(spans[..n], stages[..n], k) + (if stages[n] == k then [TryFrom(spans[n]).value] else [])
  {
    var n := |spans| - 1;
    var init, initStages := spans[..n], stages[..n];
    AcceptedSnoc(spans);
    var a, a0 := Accepted(spans), Accepted(init);
    if a0 < n || TryFrom(spans[n]).Err? {
      assert a == a0 <= n;
      PrefixOfPrefix(spans, n, a);
      PrefixOfPrefix(stages, n, a);
    } else {
      assert a == |spans| && a0 == n;
      assert init[..a0] == init && initStages[..a0] == initStages;
      assert spans[..a] == spans && stages[..a] == stages;
    }
  }

  /** After `Extend`, each stage's list is the old one followed by the
      candidates of the accepted spans drawn for that stage, in order */
  lemma {:induction false} ExtendFiles(m: Metrics, spans: seq<Span>, stages: seq<Stage>, k: Stage)
    requires StagesFor(spans, stages)
    ensures ListAt(Extend(m, spans, stages).metrics, k) == ListAt(m, k) + FiledAccepted(spans, stages, k)
    decreases |spans|
  {
    if |spans| == 0 {
      assert spans[..0] == [];
    } else {
      var n := |spans| - 1;
      var init, initStages := spans[..n], stages[..n];
      ExtendFiles(m, init, initStages, k);
      ExtendResult(m, init, initStages);
      FiledAcceptedSnoc(spans, stages, k);
      var before := Extend(m, init, initStages);
      if before.result.Ok? && TryFrom(spans[n]).Ok? {
        InsertFiles(before.metrics, spans[n], stages[n], k);
      }
    }
  }

  /** `Extend` keeps every present stage non-empty */
  lemma {:induction false} ExtendNoEmptyLists(m: Metrics, spans: seq<Span>, stages: seq<Stage>)
    requires StagesFor(spans, stages) && NoEmptyLists(m)
    ensures NoEmptyLists(Extend(m, spans, stages).metrics)
    decreases |spans|
  {
    if |spans| > 0 {
      var n := |spans| - 1;
      ExtendNoEmptyLists(m, spans[..n], stages[..n]);
      var before := Extend(m, spans[..n], stages[..n]);
      if before.result.Ok? && TryFrom(spans[n]).Ok? {
        InsertFiles(before.metrics, spans[n], stages[n], 0);
      }
    }
  }

  /** The observations of one histogram pass over `c`, stages `k` and up:
      each stage as many times as it has candidates */
  function ObservationsFrom(c: map<Stage, seq<Candidate>>, k: nat): (obs: multiset<Stage>)
    requires k <= 256
    ensures forall j: Stage :: obs[j] == if k <= j && j in c then |c[j]| else 0
    decreases 256 - k
  {
    if k == 256 then multiset{}
    else
      var rest := ObservationsFrom(c, k + 1);
      if k in c then rest[k := |c[k]|] else rest
  }

  /** The observations of one histogram pass over all stages */
  function Observations(c: map<Stage, seq<Candidate>>): (obs: multiset<Stage>)
    ensures forall j: Stage :: obs[j] == if j in c then |c[j]| else 0
  {
    ObservationsFrom(c, 0)
  }

  /** `Metrics::update` as written: extend, then, only if every span
      yielded a candidate, observe each stage once per candidate filed under
      it (all candidates so far, not only the new ones) and set the gauge to
      the number of stages present */
  function Update(m: Metrics, spans: seq<Span>, stages: seq<Stage>): (r: Outcome)
    requires StagesFor(spans, stages)
    ensures r.result == Extend(m, spans, stages).result
    ensures r.metrics.candidates == Extend(m, spans, stages).metrics.candidates
    ensures r.result.Err? ==> r.metrics.histogram == m.histogram && r.metrics.gauge == m.gauge
    ensures r.result.Ok? ==> forall k: Stage :: r.metrics.histogram[k] == m.histogram[k] + |ListAt(r.metrics, k)|
    ensures r.result.Ok? ==> r.metrics.gauge == |r.metrics.candidates.Keys|
  {
    var e := Extend(m, spans, stages);
    if e.result.Err? then e
    else
      var c := e.metrics.candidates;
      Outcome(e.metrics.(histogram := e.metrics.histogram + Observations(c), gauge := |c.Keys|), Ok(()))
  }

  /** The candidates filed under stages `k` and up */
  function TotalFrom(c: map<Stage, seq<Candidate>>, k: nat): nat
    requires k <= 256
    decreases 256 - k
  {
    if k == 256 then 0
    else (if k in c then |c[k]| else 0) + TotalFrom(c, k + 1)
  }

  /** The number of candidates filed, over all stages */
  function TotalCandidates(c: map<Stage, seq<Candidate>>): nat {
    TotalFrom(c, 0)
  }

  /** A histogram pass makes one observation per candidate */
  lemma {:induction false} ObservationsFromCount(c: map<Stage, seq<Candidate>>, k: nat)
    requires k <= 256
    ensures |ObservationsFrom(c, k)| == TotalFrom(c, k)
    decreases 256 - k
  {
    if k < 256 {
      ObservationsFromCount(c, k + 1);
      var rest := ObservationsFrom(c, k + 1);
      if k in c {
        assert rest[k] == 0;
        assert rest[k := |c[k]|] == rest + multiset{}[k := |c[k]|];
      }
    }
  }

  lemma ObservationsCount(c: map<Stage, seq<Candidate>>)
    ensures |Observations(c)| == TotalCandidates(c)
  {
    ObservationsFromCount(c, 0);
  }

  /** Taking away what was there before leaves what was added */
  lemma SumLessAddend(a: multiset<Stage>, b: multiset<Stage>)
    ensures a + b - a == b
  {
  }

  /** The observations one histogram pass adds number the candidates */
  lemma AddedObservations(h: multiset<Stage>, c: map<Stage, seq<Candidate>>)
    ensures |h + Observations(c) - h| == TotalCandidates(c)
  {
    ObservationsCount(c);
    SumLessAddend(h, Observations(c));
  }

  /** `Metrics::update` with the gauge set to the number of candidates, as
      its name and help text ("Total candidates registered on this node")
      promise; the candidates, the histogram and the result are those of
      `Update` */
  function UpdateCounted(m: Metrics, spans: seq<Span>, stages: seq<Stage>): (r: Outcome)
    requires StagesFor(spans, stages)
    ensures var u := Update(m, spans, stages);
            && r.result == u.result
            && r.metrics.candidates == u.metrics.candidates
            && r.metrics.histogram == u.metrics.histogram
    ensures r.result.Err? ==> r.metrics.gauge == m.gauge
  {
    var u := Update(m, spans, stages);
    if u.result.Err? then u
    else Outcome(u.metrics.(gauge := TotalCandidates(u.metrics.candidates)), Ok(()))
  }

  /** The corrected gauge holds the number of observations the update added
      to the histogram, which is the number of candidates held */
  lemma UpdateCountedGauge(m: Metrics, spans: seq<Span>, stages: seq<Stage>)
    requires StagesFor(spans, stages)
    ensures var r := UpdateCounted(m, spans, stages);
            r.result.Ok? ==>
              && r.metrics.gauge == |r.metrics.histogram - m.histogram|
              && r.metrics.gauge == TotalCandidates(r.metrics.candidates)
  {
    var e := Extend(m, spans, stages);
    AddedObservations(e.metrics.histogram, e.metrics.candidates);
  }

  /** `Metrics::clear`: forget the candidates; the histogram and gauge keep
      their values */
  function Clear(m: Metrics): (r: Metrics)
    ensures forall k: Stage :: ListAt(r, k) == []
    ensures r.histogram == m.histogram && r.gauge == m.gauge
    ensures NoEmptyLists(r)
  {
    m.(candidates := map[])
  }

  /** Filing is not deduplicated: inserting the same span twice under one
      stage files its candidate twice */
  lemma InsertTwice(m: Metrics, span: Span, stage: Stage)
    requires stage < STAGE_COUNT && TryFrom(span).Ok?
    ensures var once := Insert(m, span, stage).value;
            && Insert(once, span, stage).Ok?
            && ListAt(Insert(once, span, stage).value, stage) == ListAt(m, stage) + [TryFrom(span).value, TryFrom(span).value]
  {
    var once := Insert(m, span, stage).value;
    InsertFiles(m, span, stage, stage);
    InsertFiles(once, span, stage, stage);
  }

  /** After `Clear`, an update with no spans observes nothing and sets the
      gauge to zero */
  lemma UpdateAfterClear(m: Metrics)
    ensures Update(Clear(m), [], []).result.Ok?
    ensures Update(Clear(m), [], []).metrics == Metrics(map[], m.histogram, 0)
  {
    var obs := Observations(map[]);
    assert obs == multiset{} by {
      assert forall j: Stage :: obs[j] == 0;
    }
  }

  /** Two spans that yield candidates, drawn for stage 0, both land in
      stage 0's list, in order */
  lemma ExtendPair(a: Span, b: Span)
    requires TryFrom(a).Ok? && TryFrom(b).Ok?
    ensures var ca, cb := TryFrom(a).value, TryFrom(b).value;
            Extend(NewMetrics(), [a, b], [0, 0]) == Outcome(Metrics(map[0 := [ca, cb]], multiset{}, 0), Ok(()))
  {
    var ca, cb := TryFrom(a).value, TryFrom(b).value;
    var m := NewMetrics();
    assert [a, b][..1] == [a] && [0, 0][..1] == [0 as Stage];
    assert [a][..0] == [] && [0 as Stage][..0] == [];
    var one := Metrics(map[0 := [ca]], multiset{}, 0);
    assert Extend(m, [a], [0]) == Outcome(one, Ok(()));
    var two := Metrics(map[0 := [ca, cb]], multiset{}, 0);
    assert Insert(one, b, 0) == Ok(two) by {
      var m2 := one.(candidates := one.candidates[0 := one.candidates[0] + [cb]]);
      assert Insert(one, b, 0) == Ok(m2);
      assert one.candidates[0] + [cb] == [ca, cb];
      assert m2.candidates == two.candidates;
    }
  }

  /** Two spans that yield candidates, drawn for the same stage: `Update`
      registers both, yet sets the gauge to 1, where `UpdateCounted` sets it
      to 2 */
  lemma GaugeCountsStages(a: Span, b: Span)
    requires TryFrom(a).Ok? && TryFrom(b).Ok?
    ensures var r := Update(NewMetrics(), [a, b], [0, 0]);
            && r.result.Ok?
            && TotalCandidates(r.metrics.candidates) == 2
            && r.metrics.gauge == 1
    ensures var r := UpdateCounted(NewMetrics(), [a, b], [0, 0]);
            && r.result.Ok?
            && r.metrics.gauge == 2
  {
    var ca, cb := TryFrom(a).value, TryFrom(b).value;
    ExtendPair(a, b);
    var cs: map<Stage, seq<Candidate>> := map[0 := [ca, cb]];
    var obs := Observations(cs);
    assert obs == multiset{0, 0} by {
      assert forall j: Stage :: obs[j] == multiset{0 as Stage, 0}[j];
    }
    ObservationsCount(cs);
    assert cs.Keys == {0};
  }

  /** A span whose hash tag is "0x" followed by the hex of `h` */
  function HashSpan(h: Hash): (span: Span)
    ensures HashText(span) == Some("0x" + HexText(h))
  {
    var span := Span("trace", "span", None, "operation", [], 0, [Tag(HASH_IDENTIFIER, "string", Str("0x" + HexText(h)))], "p1");
    assert GetTag(span, HASH_IDENTIFIER) == Some(span.tags[0]);
    span
  }

  /** The hash of 31 zero bytes and then `b` */
  function LastByteHash(b: Utf8.Byte): (h: Hash)
    ensures b != 0 ==> h != ZERO_HASH
  {
    var h := Zeros(HASH_LENGTH - 1) + [b];
    assert h[HASH_LENGTH - 1] == b && ZERO_HASH[HASH_LENGTH - 1] == 0;
    h
  }

  /** A concrete input on which the two gauges part: two spans with the
      distinct hashes 0x00…01 and 0x00…02, both drawn for stage 0, so two
      different candidates are registered while the gauge as written reads 1 */
  lemma GaugeMiscountWitness() returns (a: Span, b: Span)
    ensures TryFrom(a).Ok? && TryFrom(b).Ok? && TryFrom(a).value.hash != TryFrom(b).value.hash
    ensures Update(NewMetrics(), [a, b], [0, 0]).metrics.gauge == 1
    ensures UpdateCounted(NewMetrics(), [a, b], [0, 0]).metrics.gauge == 2
  {
    var h1, h2 := LastByteHash(1), LastByteHash(2);
    assert h1[HASH_LENGTH - 1] != h2[HASH_LENGTH - 1];
    a, b := HashSpan(h1), HashSpan(h2);
    TryFromEncoded(a, "0x", h1);
    TryFromEncoded(b, "0x", h2);
    GaugeCountsStages(a, b);
  }

  /** The spans of `t`, in the order its map yields them */
  function TraceSpans(t: Trace): (s: seq<Span>)
    ensures |s| == |t.order|
    ensures forall sp :: sp in s <==> sp in t.spans.Values
  {
    var s := seq(|t.order|, i requires 0 <= i < |t.order| => t.spans[t.order[i]]);
    assert forall sp | sp in t.spans.Values :: sp in s by {
      forall sp | sp in t.spans.Values ensures sp in s {
        var k :| k in t.spans && t.spans[k] == sp;
        var i :| 0 <= i < |t.order| && t.order[i] == k;
        assert s[i] == sp;
      }
    }
    s
  }

  /** The spans of all `traces`, trace by trace, as `collect_metrics`
      evidently intends to hand them to `update` (`t.spans.values()`) */
  function CollectSpans(traces: seq<Trace>): (s: seq<Span>)
    decreases |traces|
  {
    if |traces| == 0 then []
    else CollectSpans(traces[..|traces| - 1]) + TraceSpans(traces[|traces| - 1])
  }

  /** A span is collected exactly when it is a span of one of the traces */
  lemma {:induction false} CollectSpansMembers(traces: seq<Trace>, sp: Span)
    ensures sp in CollectSpans(traces) <==> exists j | 0 <= j < |traces| :: sp in traces[j].spans.Values
    decreases |traces|
  {
    if |traces| > 0 {
      var n := |traces| - 1;
      CollectSpansMembers(traces[..n], sp);
      assert forall j | 0 <= j < n :: traces[..n][j] == traces[j];
    }
  }

  /** `PrometheusDaemon::collect_metrics` on the decoded traces, with one
      drawn stage per collected span, feeding `Update` the spans as
      `collect_metrics` evidently intends (`t.spans.values()`):
      the update succeeds exactly when every span of every trace yields a
      candidate; the candidates are those `Extend` files, and on success the
      gauge holds the number of stages present */
  function CollectMetrics(m: Metrics, traces: seq<Trace>, stages: seq<Stage>): (r: Outcome)
    requires StagesFor(CollectSpans(traces), stages)
    ensures r.result.Ok? <==> forall sp | sp in CollectSpans(traces) :: TryFrom(sp).Ok?
    ensures r.result.Ok? <==>
              forall j, k | 0 <= j < |traces| && k in traces[j].spans :: TryFrom(traces[j].spans[k]).Ok?
    ensures r.metrics.candidates == Extend(m, CollectSpans(traces), stages).metrics.candidates
    ensures r.result.Err? ==> r.metrics.histogram == m.histogram && r.metrics.gauge == m.gauge
    ensures r.result.Ok? ==> r.metrics.gauge == |r.metrics.candidates.Keys|
  {
    var spans := CollectSpans(traces);
    ExtendResult(m, spans, stages);
    forall j, k | 0 <= j < |traces| && k in traces[j].spans
      ensures traces[j].spans[k] in spans
    {
      CollectSpansMembers(traces, traces[j].spans[k]);
    }
    forall sp | sp in spans
      ensures exists j, k | 0 <= j < |traces| && k in traces[j].spans :: traces[j].spans[k] == sp
    {
      CollectSpansMembers(traces, sp);
    }
    Update(m, spans, stages)
  }

  /** The collector with the corrected update: the same candidates and
      histogram, and on success a gauge equal to the number of candidates */
  function CollectMetricsCounted(m: Metrics, traces: seq<Trace>, stages: seq<Stage>): (r: Outcome)
    requires StagesFor(CollectSpans(traces), stages)
    ensures var w := CollectMetrics(m, traces, stages);
            r.result == w.result && r.metrics.candidates == w.metrics.candidates && r.metrics.histogram == w.metrics.histogram
    ensures r.result.Ok? ==> r.metrics.gauge == TotalCandidates(r.metrics.candidates)
  {
    UpdateCountedGauge(m, CollectSpans(traces), stages);
    UpdateCounted(m, CollectSpans(traces), stages)
  }
}
