/**
 What the gateway answers to a call, in terms of the messages that the events of the stream carry:
 of each id that the call asks for, the first response, in the order they come.
 */
module SseAnswers {
  import opened Basics
  import opened SseStream
  import opened SseStandard

  /** A message that answers the request with this id. */
  predicate Responds(m: Json, id: string) {
    m.Object? && !m.hasMethod && (m.hasResult || m.hasError) && m.id == Some(id)
  }

  /** The call asks for an answer with this id. */
  ghost predicate Asks(call: Json, id: string) {
    id != "null"
    && if call.Batch? then exists m :: m in call.items && IsRequest(m, id) else IsRequest(call, id)
  }

  predicate IsRequest(m: Json, id: string) {
    m.Object? && m.hasMethod && m.id == Some(id)
  }

  lemma ExpectedIdsAreAsked(call: Json, id: string)
    ensures id in ExpectedIds(call) <==> Asks(call, id)
  {
    if call.Batch? && Asks(call, id) {
      var m :| m in call.items && IsRequest(m, id);
      assert m in Messages(call);
    } else {
      assert call.Batch? || call in Messages(call);
    }
  }

  ghost predicate SomeResponds(ms: seq<Json>, id: string) {
    exists m :: m in ms && Responds(m, id)
  }

  /** The last message is the first that responds to `id`. */
  ghost predicate FirstTo(ms: seq<Json>, id: string)
    requires ms != []
  {
    Responds(ms[|ms| - 1], id) && !SomeResponds(ms[..|ms| - 1], id)
  }

  /** The first responses to these ids, in order. */
  ghost function Firsts(ids: set<string>, ms: seq<Json>): seq<Json> {
    if ms == [] then []
    else
      var n := |ms| - 1;
      Firsts(ids, ms[..n]) + if exists id :: id in ids && FirstTo(ms, id) then [ms[n]] else []
  }

  lemma SomeRespondsNext(ms: seq<Json>, id: string)
    requires ms != []
    ensures SomeResponds(ms, id) <==> SomeResponds(ms[..|ms| - 1], id) || Responds(ms[|ms| - 1], id)
  {
    assert ms == ms[..|ms| - 1] + [ms[|ms| - 1]];
  }

  /** What is still expected are the ids that nothing responds to. */
  lemma {:induction false} CollectedAreFirsts(ids: set<string>, ms: seq<Json>)
    ensures AcceptAll(New(ids), ms).responses == Firsts(ids, ms)
    ensures forall id :: id in AcceptAll(New(ids), ms).expected <==> id in ids && !SomeResponds(ms, id)
  {
    if ms != [] {
      CollectedAreFirsts(ids, ms[..|ms| - 1]);
      forall id ensures SomeResponds(ms, id) <==> SomeResponds(ms[..|ms| - 1], id) || Responds(ms[|ms| - 1], id) {
        SomeRespondsNext(ms, id);
      }
    }
  }

  /** All messages of these events, in order; data that is no JSON carries none. */
  function AllMessages(events: seq<Bytes>, parse: Parser): seq<Json> {
    if events == [] then []
    else
      var body := parse(events[|events| - 1]);
      AllMessages(events[..|events| - 1], parse)
        + if body == None then [] else if body.value.Batch? then body.value.items else [body.value]
  }

  lemma {:induction false} AcceptAllConcat(c: Collector, a: seq<Json>, b: seq<Json>)
    ensures AcceptAll(c, a + b) == AcceptAll(AcceptAll(c, a), b)
  {
    if b == [] {
      assert a + b == a;
    } else {
      assert (a + b)[..|a + b| - 1] == a + b[..|b| - 1];
      AcceptAllConcat(c, a, b[..|b| - 1]);
    }
  }

  lemma {:induction false} DeliveredMessages(c: Collector, events: seq<Bytes>, parse: Parser)
    ensures DeliverAll(c, events, parse) == AcceptAll(c, AllMessages(events, parse))
  {
    if events != [] {
      var front, body := events[..|events| - 1], parse(events[|events| - 1]);
      DeliveredMessages(c, front, parse);
      var more := if body == None then [] else Messages(body.value);
      AcceptAllConcat(c, AllMessages(front, parse), more);
      assert AllMessages(events, parse) == AllMessages(front, parse) + more;
    }
  }

  /** Every id that a message responds to has its response among the first ones. */
  lemma {:induction false} FirstsAnswer(ids: set<string>, ms: seq<Json>, id: string)
    requires id in ids
    ensures SomeResponds(Firsts(ids, ms), id) <==> SomeResponds(ms, id)
  {
    if ms != [] {
      var front, last := ms[..|ms| - 1], ms[|ms| - 1];
      FirstsAnswer(ids, front, id);
      SomeRespondsNext(ms, id);
      if FirstTo(ms, id) { assert last in Firsts(ids, ms); }
    }
  }

  lemma {:induction false} FirstsRespond(ids: set<string>, ms: seq<Json>)
    ensures forall m | m in Firsts(ids, ms) :: exists id :: id in ids && Responds(m, id)
  {
    if ms != [] { FirstsRespond(ids, ms[..|ms| - 1]); }
  }

  /**
   A call and the whole of its stream, however it is cut into chunks: the answer holds exactly the
   first responses to what the call asks for, among the messages of the standard's events and of a
   last one that no blank line ends; alone when it is one, as a batch when there are more.
   */
  method CollectCall(call: Json, chunks: seq<Bytes>, ghost lines: seq<Line>, ghost torn: Bytes, parse: Parser)
    returns (answer: Option<Json>)
    requires LineFeedBlind(parse) && Plain(lines) && LF !in torn
    requires Concat(chunks) == Text(lines) + torn && |Concat(chunks)| <= 16 * 1024 * 1024
    ensures
      var ms := AllMessages(StandardRun(lines + [Line([], false)]).events, parse);
      var firsts := Firsts(ExpectedIds(call), ms);
      && AnswerIs(answer, firsts)
      && (answer == None <==> forall id | Asks(call, id) :: !SomeResponds(ms, id))
      && (answer.Some? ==> Messages(answer.value) == firsts)
      && (forall id | Asks(call, id) :: SomeResponds(firsts, id) <==> SomeResponds(ms, id))
  {
    answer := CollectStream(ExpectedIds(call), chunks, parse);
    ghost var ids, events := ExpectedIds(call), StandardRun(lines + [Line([], false)]).events;
    ghost var ms := AllMessages(events, parse);
    AnswerFollowsStandard(ids, lines, torn, parse);
    DeliveredMessages(New(ids), events, parse);
    CollectedAreFirsts(ids, ms);
    AnswerMeaning(call, ms, answer);
  }

  lemma AnswerMeaning(call: Json, ms: seq<Json>, answer: Option<Json>)
    requires answer == Reply(Firsts(ExpectedIds(call), ms))
    ensures
      var firsts := Firsts(ExpectedIds(call), ms);
      && AnswerIs(answer, firsts)
      && (answer == None <==> forall id | Asks(call, id) :: !SomeResponds(ms, id))
      && (answer.Some? ==> Messages(answer.value) == firsts)
      && (forall id | Asks(call, id) :: SomeResponds(firsts, id) <==> SomeResponds(ms, id))
  {
    var ids := ExpectedIds(call);
    var firsts := Firsts(ids, ms);
    FirstsRespond(ids, ms);
    forall id ensures id in ids <==> Asks(call, id) { ExpectedIdsAreAsked(call, id); }
    forall id | id in ids ensures SomeResponds(firsts, id) <==> SomeResponds(ms, id) { FirstsAnswer(ids, ms, id); }
    if firsts != [] {
      assert firsts[0] in firsts;
      var id :| id in ids && Responds(firsts[0], id);
      assert SomeResponds(firsts, id);
    }
  }
}
