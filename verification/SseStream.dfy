/**
 The SSE collector of the connector gateway.  Bytes stay bytes: decoding a `data:` payload is
 part of `parse`, which stands for lossy UTF-8 decoding followed by the JSON parser.
 */
module SseStream {
  import opened Basics

  const MAX_UPSTREAM_RESPONSE_BYTES: nat := 16 * 1024 * 1024
  const LF: byte := 10
  const CR: byte := 13
  const SPACE: byte := 32
  const COLON: byte := 58
  const DATA: Bytes := [100, 97, 116, 97]

  /** A JSON value as far as the gateway looks at it; `id` is the JSON text of the member. */
  datatype Json =
    | Object(id: Option<string>, hasMethod: bool, hasResult: bool, hasError: bool, rest: string)
    | Batch(items: seq<Json>)
    | Scalar(text: string)

  type Parser = Bytes -> Option<Json>

  datatype Collector = Collector(expected: set<string>, pending: Bytes, data: Bytes, responses: seq<Json>)

  function New(expected: set<string>): Collector {
    Collector(expected, [], [], [])
  }

  function Messages(body: Json): seq<Json> {
    if body.Batch? then body.items else [body]
  }

  /** `expected_ids`. */
  function ExpectedIds(body: Json): set<string> {
    set m | m in Messages(body) && m.Object? && m.hasMethod && m.id.Some? && m.id.value != "null" :: m.id.value
  }

  predicate IsResponse(m: Json) {
    m.Object? && !m.hasMethod && (m.hasResult || m.hasError) && m.id.Some?
  }

  // -------------------------------------------------------------- the machine

  function Accept(c: Collector, m: Json): Collector {
    if IsResponse(m) && m.id.value in c.expected
    then c.(expected := c.expected - {m.id.value}, responses := c.responses + [m])
    else c
  }

  function AcceptAll(c: Collector, ms: seq<Json>): Collector {
    if ms == [] then c else Accept(AcceptAll(c, ms[..|ms| - 1]), ms[|ms| - 1])
  }

  /** What one event with this data adds. */
  function Deliver(c: Collector, data: Bytes, parse: Parser): Collector {
    match parse(data)
    case None => c
    case Some(body) => AcceptAll(c, Messages(body))
  }

  function Dispatch(c: Collector, parse: Parser): Collector {
    Deliver(c.(data := []), c.data, parse)
  }

  function TrimEnd(line: Bytes): Bytes {
    if line != [] && (line[|line| - 1] == LF || line[|line| - 1] == CR) then TrimEnd(line[..|line| - 1]) else line
  }

  function WithoutSpace(value: Bytes): Bytes {
    if value != [] && value[0] == SPACE then value[1..] else value
  }

  /** One line, its end trimmed. */
  function OnLine(c: Collector, line: Bytes, parse: Parser): Collector {
    if line == [] then Dispatch(c, parse)
    else if DATA + [COLON] <= line then
      c.(data := (if c.data == [] then [] else c.data + [LF]) + WithoutSpace(line[5..]))
    else c
  }

  /** The position of the first line feed, or the length. */
  function FirstLf(s: Bytes): (i: nat)
    ensures i <= |s|
    ensures LF !in s[..i]
    ensures i < |s| ==> s[i] == LF
  {
    if s == [] || s[0] == LF then 0
    else
      var i := 1 + FirstLf(s[1..]);
      assert s[..i] == [s[0]] + s[1..][..i - 1];
      i
  }

  /** Takes the first line out of `pending`. */
  function Step(c: Collector, parse: Parser): (r: Collector)
    requires FirstLf(c.pending) < |c.pending|
    ensures r.pending == c.pending[FirstLf(c.pending) + 1..]
  {
    var i := FirstLf(c.pending);
    var rest := c.(pending := c.pending[i + 1..]);
    DrainedPending(rest, TrimEnd(c.pending[..i + 1]), parse);
    OnLine(rest, TrimEnd(c.pending[..i + 1]), parse)
  }

  /** The loop of `push`: every complete line of `pending`. */
  function Drain(c: Collector, parse: Parser): Collector
    decreases |c.pending|
  {
    if FirstLf(c.pending) == |c.pending| then c else Drain(Step(c, parse), parse)
  }

  function Push(c: Collector, chunk: Bytes, parse: Parser): Collector {
    Drain(c.(pending := c.pending + chunk), parse)
  }

  predicate Complete(c: Collector) {
    c.expected == {} && c.responses != []
  }

  function Finish(c: Collector, parse: Parser): Option<Json> {
    Reply(Dispatch(c, parse).responses)
  }

  function Reply(responses: seq<Json>): Option<Json> {
    if |responses| == 0 then None else if |responses| == 1 then Some(responses[0]) else Some(Batch(responses))
  }

  // -------------------------------------------------------------- small facts

  lemma AcceptAllKeeps(c: Collector, ms: seq<Json>)
    ensures AcceptAll(c, ms).pending == c.pending && AcceptAll(c, ms).data == c.data
  {
  }

  lemma DrainedPending(c: Collector, line: Bytes, parse: Parser)
    ensures OnLine(c, line, parse).pending == c.pending
  {
    if line == [] && parse(c.data).Some? { AcceptAllKeeps(c.(data := []), Messages(parse(c.data).value)); }
  }

  lemma FirstLfConcat(a: Bytes, b: Bytes)
    ensures FirstLf(a + b) == if FirstLf(a) < |a| then FirstLf(a) else |a| + FirstLf(b)
  {
    if a == [] {
      assert a + b == b;
    } else {
      assert (a + b)[1..] == a[1..] + b;
    }
  }

  /** What `OnLine` does does not depend on the bytes still to come. */
  lemma OnLineFrame(c: Collector, line: Bytes, more: Bytes, parse: Parser)
    ensures OnLine(c.(pending := more), line, parse) == OnLine(c, line, parse).(pending := more)
  {
    if line == [] && parse(c.data).Some? { AcceptAllFrame(c.(data := []), Messages(parse(c.data).value), more); }
  }

  lemma {:induction false} AcceptAllFrame(c: Collector, ms: seq<Json>, more: Bytes)
    ensures AcceptAll(c.(pending := more), ms) == AcceptAll(c, ms).(pending := more)
  {
    if ms != [] { AcceptAllFrame(c, ms[..|ms| - 1], more); }
  }

  // ------------------------------------------------------- chunk independence

  lemma StepMore(c: Collector, more: Bytes, parse: Parser)
    requires FirstLf(c.pending) < |c.pending|
    ensures FirstLf(c.pending + more) == FirstLf(c.pending)
    ensures Step(c.(pending := c.pending + more), parse) == Step(c, parse).(pending := Step(c, parse).pending + more)
  {
    var i := FirstLf(c.pending);
    FirstLfConcat(c.pending, more);
    assert (c.pending + more)[..i + 1] == c.pending[..i + 1];
    assert (c.pending + more)[i + 1..] == c.pending[i + 1..] + more;
    OnLineFrame(c.(pending := c.pending[i + 1..]), TrimEnd(c.pending[..i + 1]), c.pending[i + 1..] + more, parse);
  }

  lemma {:induction false} DrainMore(c: Collector, more: Bytes, parse: Parser)
    ensures Push(Drain(c, parse), more, parse) == Push(c, more, parse)
    decreases |c.pending|
  {
    if FirstLf(c.pending) < |c.pending| {
      StepMore(c, more, parse);
      DrainMore(Step(c, parse), more, parse);
    }
  }

  /** Two pushes are one push of both chunks. */
  lemma PushSplit(c: Collector, a: Bytes, b: Bytes, parse: Parser)
    ensures Push(Push(c, a, parse), b, parse) == Push(c, a + b, parse)
  {
    DrainMore(c.(pending := c.pending + a), b, parse);
    assert (c.pending + a) + b == c.pending + (a + b);
  }

  function Concat(chunks: seq<Bytes>): Bytes {
    if chunks == [] then [] else Concat(chunks[..|chunks| - 1]) + chunks[|chunks| - 1]
  }

  function PushAll(c: Collector, chunks: seq<Bytes>, parse: Parser): Collector {
    if chunks == [] then c else Push(PushAll(c, chunks[..|chunks| - 1], parse), chunks[|chunks| - 1], parse)
  }

  /** Any split of the stream into chunks leaves the collector in the same state. */
  lemma {:induction false} ChunksDoNotMatter(expected: set<string>, chunks: seq<Bytes>, parse: Parser)
    ensures PushAll(New(expected), chunks, parse) == Push(New(expected), Concat(chunks), parse)
  {
    if chunks == [] {
      assert New(expected).(pending := [] + []) == New(expected);
    } else {
      ChunksDoNotMatter(expected, chunks[..|chunks| - 1], parse);
      PushSplit(New(expected), Concat(chunks[..|chunks| - 1]), chunks[|chunks| - 1], parse);
    }
  }

  // --------------------------------------------------------- stopping early

  lemma {:induction false} NothingExpectedAll(c: Collector, ms: seq<Json>)
    requires c.expected == {}
    ensures AcceptAll(c, ms) == c
  {
    if ms != [] { NothingExpectedAll(c, ms[..|ms| - 1]); }
  }

  lemma NothingExpectedLine(c: Collector, line: Bytes, parse: Parser)
    requires c.expected == {}
    ensures OnLine(c, line, parse).expected == {} && OnLine(c, line, parse).responses == c.responses
  {
    if line == [] && parse(c.data).Some? { NothingExpectedAll(c.(data := []), Messages(parse(c.data).value)); }
  }

  lemma {:induction false} NothingExpectedDrain(c: Collector, parse: Parser)
    requires c.expected == {}
    ensures Drain(c, parse).expected == {} && Drain(c, parse).responses == c.responses
    decreases |c.pending|
  {
    var i := FirstLf(c.pending);
    if i < |c.pending| {
      var rest := c.(pending := c.pending[i + 1..]);
      var line := TrimEnd(c.pending[..i + 1]);
      NothingExpectedLine(rest, line, parse);
      DrainedPending(rest, line, parse);
      NothingExpectedDrain(OnLine(rest, line, parse), parse);
    }
  }

  /** The rest of a stream changes nothing for a call whose answers are all there. */
  lemma CompleteIsFinal(c: Collector, more: Bytes, parse: Parser)
    requires c.expected == {}
    ensures Finish(Push(c, more, parse), parse) == Finish(c, parse)
  {
    var p := Push(c, more, parse);
    NothingExpectedDrain(c.(pending := c.pending + more), parse);
    NothingExpectedLine(p, [], parse);
    NothingExpectedLine(c, [], parse);
  }

  /** The gateway's answer to a whole stream. */
  function Answer(expected: set<string>, stream: Bytes, parse: Parser): Option<Json> {
    Finish(Push(New(expected), stream, parse), parse)
  }

  class SseCollector {
    var expected: set<string>
    var pending: Bytes
    var data: Bytes
    var responses: seq<Json>

    function View(): Collector
      reads this
    {
      Collector(expected, pending, data, responses)
    }

    constructor (expected: set<string>)
      ensures View() == New(expected)
    {
      this.expected, pending, data, responses := expected, [], [], [];
    }

    /** `push`: takes complete lines out of `pending` one by one. */
    method PushChunk(chunk: Bytes, parse: Parser)
      modifies this
      ensures View() == Push(old(View()), chunk, parse)
    {
      pending := pending + chunk;
      var i := FirstLf(pending);
      while i < |pending|
        invariant i == FirstLf(pending)
        invariant Drain(View(), parse) == Push(old(View()), chunk, parse)
        decreases |pending|
      {
        var line := TrimEnd(pending[..i + 1]);
        pending := pending[i + 1..];
        DrainedPending(View(), line, parse);
        TakeLine(line, parse);
        i := FirstLf(pending);
      }
    }

    method TakeLine(line: Bytes, parse: Parser)
      modifies this
      ensures View() == OnLine(old(View()), line, parse)
    {
      if line == [] {
        DispatchEvent(parse);
      } else if DATA + [COLON] <= line {
        if data != [] { data := data + [LF]; }
        data := data + WithoutSpace(line[5..]);
      }
    }

    /** `dispatch`. */
    method DispatchEvent(parse: Parser)
      modifies this
      ensures View() == Dispatch(old(View()), parse)
    {
      var event := data;
      data := [];
      var body := parse(event);
      if body.None? { return; }
      var messages := Messages(body.value);
      for i := 0 to |messages|
        invariant View() == AcceptAll(old(View()).(data := []), messages[..i])
      {
        var m := messages[i];
        assert messages[..i + 1][..i] == messages[..i];
        if IsResponse(m) && m.id.value in expected {
          expected := expected - {m.id.value};
          responses := responses + [m];
        }
      }
      assert messages[..|messages|] == messages;
    }
  }

  lemma {:induction false} ConcatPrefix(chunks: seq<Bytes>, k: nat)
    requires k <= |chunks|
    ensures Concat(chunks[..k]) <= Concat(chunks)
  {
    if k < |chunks| {
      ConcatPrefix(chunks[..|chunks| - 1], k);
      assert chunks[..|chunks| - 1][..k] == chunks[..k];
    } else {
      assert chunks[..k] == chunks;
    }
  }

  lemma NextChunk(expected: set<string>, chunks: seq<Bytes>, k: nat, parse: Parser)
    requires k < |chunks|
    ensures Concat(chunks[..k + 1]) == Concat(chunks[..k]) + chunks[k] && |Concat(chunks[..k + 1])| <= |Concat(chunks)|
    ensures Push(Push(New(expected), Concat(chunks[..k]), parse), chunks[k], parse)
            == Push(New(expected), Concat(chunks[..k + 1]), parse)
  {
    assert chunks[..k + 1][..k] == chunks[..k];
    ConcatPrefix(chunks, k + 1);
    PushSplit(New(expected), Concat(chunks[..k]), chunks[k], parse);
  }

  lemma AnswerOfPrefix(expected: set<string>, seen: Bytes, all: Bytes, parse: Parser)
    requires seen <= all && Push(New(expected), seen, parse).expected == {}
    ensures Answer(expected, all, parse) == Answer(expected, seen, parse)
  {
    var rest := all[|seen|..];
    assert seen + rest == all;
    PushSplit(New(expected), seen, rest, parse);
    CompleteIsFinal(Push(New(expected), seen, parse), rest, parse);
  }

  /** Stopping once complete loses nothing. */
  lemma EarlyAnswer(expected: set<string>, chunks: seq<Bytes>, k: nat, parse: Parser)
    requires k <= |chunks| && Push(New(expected), Concat(chunks[..k]), parse).expected == {}
    ensures Answer(expected, Concat(chunks), parse) == Answer(expected, Concat(chunks[..k]), parse)
  {
    ConcatPrefix(chunks, k);
    AnswerOfPrefix(expected, Concat(chunks[..k]), Concat(chunks), parse);
  }

  /** The answer holds these responses: nothing for none, one alone, more as a batch, in order. */
  predicate AnswerIs(answer: Option<Json>, responses: seq<Json>) {
    if responses == [] then answer == None
    else answer == Some(if |responses| == 1 then responses[0] else Batch(responses))
  }

  /** Every id was answered within the first `k` chunks and within the limit. */
  predicate CompleteAt(expected: set<string>, chunks: seq<Bytes>, k: nat, parse: Parser) {
    && 0 < k <= |chunks| && |Concat(chunks[..k])| <= 16 * 1024 * 1024
    && var c := Push(New(expected), Concat(chunks[..k]), parse);
       c.expected == {} && c.responses != []
  }

  ghost predicate NoneComplete(expected: set<string>, chunks: seq<Bytes>, k: int, parse: Parser) {
    forall j: nat | j <= k :: !CompleteAt(expected, chunks, j, parse)
  }

  lemma AnswerHolds(expected: set<string>, stream: Bytes, parse: Parser)
    ensures AnswerIs(Answer(expected, stream, parse), Dispatch(Push(New(expected), stream, parse), parse).responses)
  {
  }

  predicate AnsweredAt(expected: set<string>, chunks: seq<Bytes>, k: nat, parse: Parser, answer: Option<Json>) {
    CompleteAt(expected, chunks, k, parse) && answer == Answer(expected, Concat(chunks[..k]), parse)
  }

  /** Stopping there gives an answer, and the one that the whole stream would give. */
  lemma AnsweredEarly(expected: set<string>, chunks: seq<Bytes>, k: nat, parse: Parser)
    requires CompleteAt(expected, chunks, k, parse)
    ensures
      var answer := Answer(expected, Concat(chunks[..k]), parse);
      && answer.Some? && AnsweredAt(expected, chunks, k, parse, answer)
      && answer == Answer(expected, Concat(chunks), parse)
  {
    EarlyAnswer(expected, chunks, k, parse);
    NothingExpectedLine(Push(New(expected), Concat(chunks[..k]), parse), [], parse);
  }

  lemma NoneCompleteBeyond(expected: set<string>, chunks: seq<Bytes>, k: nat, parse: Parser)
    requires k <= |chunks| && |Concat(chunks[..k])| > MAX_UPSTREAM_RESPONSE_BYTES
    requires NoneComplete(expected, chunks, k - 1, parse)
    ensures NoneComplete(expected, chunks, |chunks|, parse)
  {
    forall j: nat | k <= j <= |chunks| ensures |Concat(chunks[..j])| > MAX_UPSTREAM_RESPONSE_BYTES {
      ConcatPrefix(chunks[..j], k);
      assert chunks[..j][..k] == chunks[..k];
    }
  }

  /** `collect_stream`, for a transport that delivers `chunks` and then ends. */
  method CollectStream(expected: set<string>, chunks: seq<Bytes>, parse: Parser) returns (answer: Option<Json>)
    ensures |Concat(chunks)| <= MAX_UPSTREAM_RESPONSE_BYTES ==> answer == Answer(expected, Concat(chunks), parse)
    ensures |Concat(chunks)| > MAX_UPSTREAM_RESPONSE_BYTES ==>
              && (answer == None <==> NoneComplete(expected, chunks, |chunks|, parse))
              && (answer.Some? ==> exists k: nat :: AnsweredAt(expected, chunks, k, parse, answer))
  {
    var collector := new SseCollector(expected);
    var total := 0;
    ChunksDoNotMatter(expected, [], parse);
    for k := 0 to |chunks|
      invariant collector.View() == Push(New(expected), Concat(chunks[..k]), parse)
      invariant total == |Concat(chunks[..k])| <= MAX_UPSTREAM_RESPONSE_BYTES
      invariant NoneComplete(expected, chunks, k, parse)
    {
      NextChunk(expected, chunks, k, parse);
      total := total + |chunks[k]|;
      if total > MAX_UPSTREAM_RESPONSE_BYTES {
        NoneCompleteBeyond(expected, chunks, k + 1, parse);
        return None;
      }
      collector.PushChunk(chunks[k], parse);
      if collector.expected == {} && collector.responses != [] {
        collector.DispatchEvent(parse);
        answer := Reply(collector.responses);
        AnsweredEarly(expected, chunks, k + 1, parse);
        return;
      }
    }
    assert chunks[..|chunks|] == chunks;
    collector.DispatchEvent(parse);
    answer := Reply(collector.responses);
  }

  // -------------------------------------------------- conservation of responses

  /** Still expected and already answered ids partition the call's ids; no id is answered twice. */
  ghost predicate Conserved(c: Collector, ids: set<string>) {
    && c.expected <= ids
    && (forall i | 0 <= i < |c.responses| ::
          IsResponse(c.responses[i]) && c.responses[i].id.value in ids && c.responses[i].id.value !in c.expected)
    && (forall i, j | 0 <= i < j < |c.responses| :: c.responses[i].id != c.responses[j].id)
    && (forall id | id in ids && id !in c.expected :: exists i ::
         0 <= i < |c.responses| && c.responses[i].id == Some(id))
  }

  lemma AcceptConserves(c: Collector, m: Json, ids: set<string>)
    requires Conserved(c, ids)
    ensures Conserved(Accept(c, m), ids)
  {
    var a := Accept(c, m);
    forall id | id in ids && id !in a.expected
      ensures exists i :: 0 <= i < |a.responses| && a.responses[i].id == Some(id) {
      if id !in c.expected {
        var i :| 0 <= i < |c.responses| && c.responses[i].id == Some(id);
        assert a.responses[i].id == Some(id);
      } else {
        assert a.responses[|c.responses|].id == Some(id);
      }
    }
  }

  lemma {:induction false} AcceptAllConserves(c: Collector, ms: seq<Json>, ids: set<string>)
    requires Conserved(c, ids)
    ensures Conserved(AcceptAll(c, ms), ids)
  {
    if ms != [] {
      AcceptAllConserves(c, ms[..|ms| - 1], ids);
      AcceptConserves(AcceptAll(c, ms[..|ms| - 1]), ms[|ms| - 1], ids);
    }
  }

  lemma LineConserves(c: Collector, line: Bytes, parse: Parser, ids: set<string>)
    requires Conserved(c, ids)
    ensures Conserved(OnLine(c, line, parse), ids)
  {
    if line == [] && parse(c.data).Some? { AcceptAllConserves(c.(data := []), Messages(parse(c.data).value), ids); }
  }

  lemma {:induction false} DrainConserves(c: Collector, parse: Parser, ids: set<string>)
    requires Conserved(c, ids)
    ensures Conserved(Drain(c, parse), ids)
    decreases |c.pending|
  {
    var i := FirstLf(c.pending);
    if i < |c.pending| {
      LineConserves(c.(pending := c.pending[i + 1..]), TrimEnd(c.pending[..i + 1]), parse, ids);
      DrainConserves(Step(c, parse), parse, ids);
    }
  }

  ghost predicate Answered(c: Collector, id: string) {
    exists i :: 0 <= i < |c.responses| && c.responses[i].Object? && c.responses[i].id == Some(id)
  }

  lemma CompleteWhenAllAnswered(c: Collector, ids: set<string>)
    requires Conserved(c, ids) && ids != {}
    ensures Complete(c) <==> forall id | id in ids :: Answered(c, id)
  {
    if forall id | id in ids :: Answered(c, id) {
      forall id | id in ids ensures id !in c.expected { assert Answered(c, id); }
      assert c.expected == {};
      var id :| id in ids;
      assert Answered(c, id);
    }
  }

  /**
   At every point of every stream: expected and answered ids partition the call's request ids,
   and a call with a request is complete exactly when none is left.
   */
  lemma ResponsesConserved(body: Json, stream: Bytes, parse: Parser)
    ensures
      var ids := ExpectedIds(body);
      var c := Push(New(ids), stream, parse);
      && Conserved(c, ids)
      && (ids != {} ==> (Complete(c) <==> forall id | id in ids :: Answered(c, id)))
  {
    var ids := ExpectedIds(body);
    DrainConserves(New(ids).(pending := [] + stream), parse, ids);
    if ids != {} { CompleteWhenAllAnswered(Push(New(ids), stream, parse), ids); }
  }
}
