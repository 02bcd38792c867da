/**
 The collector against the event stream interpretation of section 9.2.6 of the HTML Living
 Standard, on streams whose lines end in LF or CRLF.
 */
module SseStandard {
  import opened Basics
  import opened SseStream

  /** A line without its end, and whether that end is CRLF. */
  datatype Line = Line(text: Bytes, crlf: bool)

  predicate Plain(lines: seq<Line>) {
    forall l | l in lines :: LF !in l.text && CR !in l.text
  }

  function End(l: Line): Bytes {
    if l.crlf then [CR, LF] else [LF]
  }

  function Text(lines: seq<Line>): Bytes {
    if lines == [] then [] else Text(lines[..|lines| - 1]) + (lines[|lines| - 1].text + End(lines[|lines| - 1]))
  }

  // --------------------------------------------------------------- the standard

  /** The data buffer, and the data of the events dispatched so far. */
  datatype Standard = Standard(buffer: Bytes, events: seq<Bytes>)

  function FirstColon(s: Bytes): (i: nat)
    ensures i <= |s|
    ensures i < |s| ==> s[i] == COLON
    ensures COLON !in s[..i]
  {
    if s == [] || s[0] == COLON then 0
    else
      var i := 1 + FirstColon(s[1..]);
      assert s[..i] == [s[0]] + s[1..][..i - 1];
      i
  }

  /** The field name of a line: what stands before the first colon, or the whole line. */
  function FieldName(line: Bytes): Bytes {
    line[..FirstColon(line)]
  }

  /** What stands behind the first colon, without one space in front. */
  function FieldValue(line: Bytes): Bytes {
    var behind := if FirstColon(line) == |line| then [] else line[FirstColon(line) + 1..];
    if [0x20] <= behind then behind[1..] else behind
  }

  function StandardLine(s: Standard, line: Bytes): Standard {
    if line == [] then
      if s.buffer == [] then s
      else Standard([], s.events + [if s.buffer[|s.buffer| - 1] == LF then s.buffer[..|s.buffer| - 1] else s.buffer])
    else if FieldName(line) == [0x64, 0x61, 0x74, 0x61] then s.(buffer := s.buffer + FieldValue(line) + [LF])
    else s
  }

  function StandardRun(lines: seq<Line>): Standard {
    if lines == [] then Standard([], []) else StandardLine(StandardRun(lines[..|lines| - 1]), lines[|lines| - 1].text)
  }

  // ------------------------------------------------------------ line by line

  function Lines(c: Collector, lines: seq<Line>, parse: Parser): Collector {
    if lines == [] then c else OnLine(Lines(c, lines[..|lines| - 1], parse), lines[|lines| - 1].text, parse)
  }

  lemma TrimEndOfLine(l: Line)
    requires LF !in l.text && CR !in l.text
    ensures TrimEnd(l.text + End(l)) == l.text
  {
    var t := l.text;
    assert TrimEnd(t) == t;
    if l.crlf {
      assert (t + [CR, LF])[..|t| + 1] == t + [CR];
      assert (t + [CR])[..|t|] == t;
      assert TrimEnd(t + [CR]) == t;
    } else {
      assert (t + [LF])[..|t|] == t;
    }
  }

  lemma FirstLfOfLine(l: Line)
    requires LF !in l.text
    ensures FirstLf(l.text + End(l)) == |l.text + End(l)| - 1
  {
    FirstLfConcat(l.text, End(l));
    if l.crlf { assert End(l)[1..] == [LF]; }
  }

  lemma DrainOne(c: Collector, parse: Parser)
    requires c.pending != [] && FirstLf(c.pending) == |c.pending| - 1
    ensures Drain(c, parse) == OnLine(c.(pending := []), TrimEnd(c.pending), parse)
  {
    var n := |c.pending|;
    assert c.pending[..n] == c.pending && c.pending[n..] == [];
    var one := Step(c, parse);
    assert FirstLf(one.pending) == |one.pending|;
    assert Drain(one, parse) == one;
  }

  /** Pushing one whole line is `OnLine`. */
  lemma PushLine(c: Collector, l: Line, parse: Parser)
    requires c.pending == [] && LF !in l.text && CR !in l.text
    ensures Push(c, l.text + End(l), parse) == OnLine(c, l.text, parse)
  {
    var all := l.text + End(l);
    assert [] + all == all;
    FirstLfOfLine(l);
    TrimEndOfLine(l);
    DrainOne(c.(pending := all), parse);
    assert c.(pending := all).(pending := []) == c;
  }

  lemma {:induction false} PushLines(c: Collector, lines: seq<Line>, parse: Parser)
    requires c.pending == [] && Plain(lines)
    ensures Push(c, Text(lines), parse) == Lines(c, lines, parse)
    ensures Lines(c, lines, parse).pending == []
  {
    if lines == [] {
      assert c.(pending := [] + []) == c;
    } else {
      var front, last := lines[..|lines| - 1], lines[|lines| - 1];
      PushLines(c, front, parse);
      PushSplit(c, Text(front), last.text + End(last), parse);
      PushLine(Lines(c, front, parse), last, parse);
      DrainedPending(Lines(c, front, parse), last.text, parse);
    }
  }

  // ---------------------------------------------------- data lines

  lemma FirstColonAfter(a: Bytes, b: Bytes)
    requires COLON !in a
    ensures FirstColon(a + [COLON] + b) == |a|
  {
    if a == [] {
      assert a + [COLON] + b == [COLON] + b;
    } else {
      assert (a + [COLON] + b)[1..] == a[1..] + [COLON] + b;
      FirstColonAfter(a[1..], b);
    }
  }

  /** A field named `data` is a line that starts with `data:`, or the bare word. */
  lemma DataLines(line: Bytes)
    ensures FieldName(line) == DATA <==> DATA + [COLON] <= line || line == DATA
    ensures DATA + [COLON] <= line ==> FieldValue(line) == WithoutSpace(line[5..])
    ensures line == DATA ==> FieldValue(line) == []
  {
    if DATA + [COLON] <= line {
      assert line == DATA + [COLON] + line[5..];
      FirstColonAfter(DATA, line[5..]);
    }
    if FieldName(line) == DATA && FirstColon(line) < |line| {
      assert line[..5] == line[..4] + [line[4]];
    }
    if line == DATA {
      var i := FirstColon(line);
      assert i == |line|;
      assert line[..4] == line;
    }
  }

  // ------------------------------------------------------ equal up to line feeds

  /**
   In a JSON text a line feed is white space between tokens or an error (sections 2 and 7 of RFC
   8259), so one more beside another, in front or at the end makes no difference.
   */
  ghost predicate LineFeedBlind(parse: Parser) {
    parse([]) == None && forall s, t :: BlindAt(parse, s, t)
  }

  predicate BlindAt(parse: Parser, s: Bytes, t: Bytes) {
    && parse([LF] + t) == parse(t) && parse(t + [LF]) == parse(t)
    && parse(s + [LF] + [LF] + t) == parse(s + [LF] + t)
  }

  /** Whatever follows, the buffer reads like the collected data and one line feed. */
  ghost predicate ReadsLike(buffer: Bytes, data: Bytes, parse: Parser) {
    && (buffer == [] ==> data == [])
    && (buffer != [] ==> buffer[|buffer| - 1] == LF)
    && forall t :: ReadsLikeBefore(buffer, data, t, parse)
  }

  predicate ReadsLikeBefore(buffer: Bytes, data: Bytes, t: Bytes, parse: Parser) {
    parse(buffer + t) == if data == [] then parse(t) else parse(data + [LF] + t)
  }

  lemma BareKeepsReading(buffer: Bytes, data: Bytes, parse: Parser)
    requires LineFeedBlind(parse) && ReadsLike(buffer, data, parse)
    ensures ReadsLike(buffer + [LF], data, parse)
  {
    forall t: Bytes ensures ReadsLikeBefore(buffer + [LF], data, t, parse) {
      assert BlindAt(parse, data, t) && ReadsLikeBefore(buffer, data, [LF] + t, parse);
      assert buffer + [LF] + t == buffer + ([LF] + t);
      assert data + [LF] + ([LF] + t) == data + [LF] + [LF] + t;
    }
  }

  lemma ValueKeepsReading(buffer: Bytes, data: Bytes, value: Bytes, parse: Parser)
    requires LineFeedBlind(parse) && ReadsLike(buffer, data, parse)
    requires value != [] || data != []
    ensures ReadsLike(buffer + value + [LF], (if data == [] then [] else data + [LF]) + value, parse)
  {
    var joined := (if data == [] then [] else data + [LF]) + value;
    forall t: Bytes ensures ReadsLikeBefore(buffer + value + [LF], joined, t, parse) {
      assert ReadsLikeBefore(buffer, data, value + [LF] + t, parse);
      assert buffer + value + [LF] + t == buffer + (value + [LF] + t);
      if data == [] {
        assert joined == value;
      } else {
        assert data + [LF] + (value + [LF] + t) == joined + [LF] + t;
      }
    }
  }

  lemma NothingReadsLikeNothing(parse: Parser)
    ensures ReadsLike([], [], parse)
  {
    forall t: Bytes ensures ReadsLikeBefore([], [], t, parse) { assert [] + t == t; }
  }

  lemma EventReadsAlike(buffer: Bytes, data: Bytes, parse: Parser)
    requires LineFeedBlind(parse) && ReadsLike(buffer, data, parse)
    ensures buffer == [] ==> parse(data) == None
    ensures buffer != [] ==> parse(buffer[..|buffer| - 1]) == parse(data)
  {
    if buffer != [] {
      assert ReadsLikeBefore(buffer, data, [], parse);
      assert BlindAt(parse, [], buffer[..|buffer| - 1]) && BlindAt(parse, [], data);
      assert buffer == buffer[..|buffer| - 1] + [LF];
      assert buffer + [] == buffer;
      assert data + [LF] + [] == data + [LF];
    }
  }

  // ------------------------------------------------------------- the events

  /** The events of a stream, each read as a message or a batch of messages. */
  function DeliverAll(c: Collector, events: seq<Bytes>, parse: Parser): Collector {
    if events == [] then c else Deliver(DeliverAll(c, events[..|events| - 1], parse), events[|events| - 1], parse)
  }

  lemma DeliverFrame(c: Collector, event: Bytes, data: Bytes, parse: Parser)
    ensures Deliver(c.(data := data), event, parse) == Deliver(c, event, parse).(data := data)
  {
    if parse(event).Some? { AcceptAllData(c, Messages(parse(event).value), data); }
  }

  lemma {:induction false} AcceptAllData(c: Collector, ms: seq<Json>, data: Bytes)
    ensures AcceptAll(c.(data := data), ms) == AcceptAll(c, ms).(data := data)
  {
    if ms != [] { AcceptAllData(c, ms[..|ms| - 1], data); }
  }

  /** The collector has taken the standard's events, and its data reads like the buffer. */
  ghost predicate InStep(c: Collector, ids: set<string>, s: Standard, parse: Parser) {
    && ReadsLike(s.buffer, c.data, parse)
    && c == DeliverAll(New(ids), s.events, parse).(data := c.data)
  }

  lemma LineInStep(c: Collector, ids: set<string>, s: Standard, line: Bytes, parse: Parser)
    requires LineFeedBlind(parse) && InStep(c, ids, s, parse)
    ensures InStep(OnLine(c, line, parse), ids, StandardLine(s, line), parse)
  {
    DataLines(line);
    if line == [] {
      EventReadsAlike(s.buffer, c.data, parse);
      if s.buffer != [] {
        var event := s.buffer[..|s.buffer| - 1];
        assert (s.events + [event])[..|s.events|] == s.events;
        DeliverFrame(DeliverAll(New(ids), s.events, parse), event, [], parse);
        NothingReadsLikeNothing(parse);
      }
    } else if line == DATA {
      assert s.buffer + [] + [LF] == s.buffer + [LF];
      BareKeepsReading(s.buffer, c.data, parse);
    } else if DATA + [COLON] <= line {
      var value := WithoutSpace(line[5..]);
      if value == [] && c.data == [] {
        assert s.buffer + [] + [LF] == s.buffer + [LF];
        assert OnLine(c, line, parse).data == [];
        BareKeepsReading(s.buffer, c.data, parse);
      } else {
        ValueKeepsReading(s.buffer, c.data, value, parse);
      }
    }
  }

  lemma {:induction false} LinesInStep(ids: set<string>, lines: seq<Line>, parse: Parser)
    requires LineFeedBlind(parse)
    ensures InStep(Lines(New(ids), lines, parse), ids, StandardRun(lines), parse)
  {
    if lines == [] {
      NothingReadsLikeNothing(parse);
    } else {
      var front := lines[..|lines| - 1];
      LinesInStep(ids, front, parse);
      LineInStep(Lines(New(ids), front, parse), ids, StandardRun(front), lines[|lines| - 1].text, parse);
    }
  }

  /**
   The answer to a stream is made from the standard's events and, unlike the standard, from a last
   event of complete lines that no blank line ends; a torn last line counts for nothing.
   */
  lemma AnswerFollowsStandard(ids: set<string>, lines: seq<Line>, torn: Bytes, parse: Parser)
    requires LineFeedBlind(parse) && Plain(lines) && LF !in torn
    ensures Push(New(ids), Text(lines), parse).responses
            == DeliverAll(New(ids), StandardRun(lines).events, parse).responses
    ensures Answer(ids, Text(lines) + torn, parse)
            == Reply(DeliverAll(New(ids), StandardRun(lines + [Line([], false)]).events, parse).responses)
  {
    PushLines(New(ids), lines, parse);
    LinesInStep(ids, lines, parse);
    var c := Lines(New(ids), lines, parse);
    LineInStep(c, ids, StandardRun(lines), [], parse);
    assert (lines + [Line([], false)])[..|lines|] == lines;
    PushSplit(New(ids), Text(lines), torn, parse);
    assert [] + torn == torn;
    OnLineFrame(c, [], torn, parse);
  }

  // ----------------------------------------------------- the text of one event

  datatype Field = Field(value: Bytes, bare: bool)

  /** The `data` fields of the lines of one event. */
  function Fields(lines: seq<Line>): seq<Field> {
    if lines == [] then []
    else
      var line := lines[|lines| - 1].text;
      var front := Fields(lines[..|lines| - 1]);
      if FieldName(line) == DATA then front + [Field(FieldValue(line), line == DATA)] else front
  }

  /** Nothing but at most one field, or a first field that is not empty and no bare one after it. */
  predicate Agreeable(fields: seq<Field>) {
    |fields| <= 1 || (fields[0].value != [] && forall f | f in fields[1..] :: !f.bare)
  }

  /** The collector and the standard give this event the same text. */
  predicate SameText(lines: seq<Line>, parse: Parser) {
    var data, buffer := Lines(New({}), lines, parse).data, StandardRun(lines).buffer;
    if buffer == [] then data == [] else data + [LF] == buffer
  }

  predicate NoBlank(lines: seq<Line>) {
    forall l | l in lines :: l.text != []
  }

  /** The standard's text is never the shorter one. */
  ghost predicate Behind(fields: seq<Field>, data: Bytes, buffer: Bytes) {
    && (fields == [] ==> data == [] && buffer == [])
    && (fields != [] ==>
          && (data == [] <==> forall f | f in fields :: f.value == [])
          && |data| < |buffer|
          && (Agreeable(fields) ==> buffer == data + [LF])
          && (!Agreeable(fields) ==> |data| + 1 < |buffer|))
  }

  /** One more data field. */
  lemma BehindNext(fields: seq<Field>, f: Field, data: Bytes, buffer: Bytes)
    requires Behind(fields, data, buffer) && (f.bare ==> f.value == [])
    requires forall g | g in fields :: g.bare ==> g.value == []
    ensures Behind(fields + [f], Joined(data, f), buffer + f.value + [LF])
  {
    var more := fields + [f];
    if fields != [] {
      assert more[1..] == fields[1..] + [f];
      assert Agreeable(fields) && !f.bare && fields[0].value != [] ==> Joined(data, f) == buffer + f.value;
    }
  }

  /** What the collector makes of a data field: a bare one counts for nothing. */
  function Joined(data: Bytes, f: Field): Bytes {
    if f.bare then data else (if data == [] then [] else data + [LF]) + f.value
  }

  lemma {:induction false} EventText(lines: seq<Line>, parse: Parser)
    requires NoBlank(lines)
    ensures Behind(Fields(lines), Lines(New({}), lines, parse).data, StandardRun(lines).buffer)
    ensures forall f | f in Fields(lines) :: f.bare ==> f.value == []
  {
    if lines != [] {
      var front, line := lines[..|lines| - 1], lines[|lines| - 1].text;
      EventText(front, parse);
      DataLines(line);
      if FieldName(line) == DATA {
        BehindNext(Fields(front), Field(FieldValue(line), line == DATA), Lines(New({}), front, parse).data,
                   StandardRun(front).buffer);
      }
    }
  }

  /** Exactly when the collector keeps an event's text as the standard has it. */
  lemma EventTextAgreesWhen(lines: seq<Line>, parse: Parser)
    requires NoBlank(lines)
    ensures SameText(lines, parse) <==> Agreeable(Fields(lines))
  {
    EventText(lines, parse);
  }

  lemma FirstValue(c: Collector, value: Bytes, parse: Parser)
    requires c.data == []
    ensures OnLine(c, DATA + [COLON] + value, parse).data == WithoutSpace(value)
    ensures StandardLine(Standard(c.data, []), DATA + [COLON] + value).buffer == WithoutSpace(value) + [LF]
  {
    var line := DATA + [COLON] + value;
    assert line[5..] == value;
    DataLines(line);
  }

  /** An empty first value: the standard's text keeps a line feed that the collector drops. */
  lemma EmptyFirstValueIsDropped(value: Bytes, parse: Parser)
    requires value != [] && value[0] != SPACE
    ensures
      var lines := [Line(DATA + [COLON] + [], false), Line(DATA + [COLON] + value, false)];
      && StandardRun(lines).buffer == [LF] + value + [LF]
      && Lines(New({}), lines, parse).data == value
      && !SameText(lines, parse)
  {
    var a, b := Line(DATA + [COLON] + [], false), Line(DATA + [COLON] + value, false);
    assert [a, b][..1] == [a] && [a][..0] == [];
    FirstValue(New({}), [], parse);
    assert Lines(New({}), [], parse) == New({});
    assert Lines(New({}), [a], parse) == OnLine(New({}), a.text, parse);
    FirstValue(Lines(New({}), [a], parse), value, parse);
    assert StandardRun([a]) == Standard([LF], []);
    DataLines(b.text);
    assert b.text[5..] == value;
  }
}
