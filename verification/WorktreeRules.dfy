/** The lines of an include file, and which paths a rule matches, in terms of the path itself. */
module WorktreeRules {
  import opened Basics
  import opened WorktreeInclude

  const HASH: byte := 35
  const BANG: byte := 33
  const BACKSLASH: byte := 92

  // ------------------------------------------------------------------ patterns

  /** The rest of a pattern fits what is left of the text after some whole segments. */
  ghost predicate FitsAfterSegments(rest: Bytes, text: Bytes) {
    exists i :: 0 <= i <= |text| && (i == 0 || text[i - 1] == SLASH || rest == []) && Glob(rest, text[i..])
  }

  /** Two stars stand for any whole segments, none included, with or without a slash after them. */
  lemma DoubleStarLaw(rest: Bytes, text: Bytes)
    ensures Glob([STAR, STAR, SLASH] + rest, text) <==> FitsAfterSegments(rest, text)
    ensures rest == [] || rest[0] != SLASH ==> (Glob([STAR, STAR] + rest, text) <==> FitsAfterSegments(rest, text))
  {
    assert ([STAR, STAR, SLASH] + rest)[3..] == rest && ([STAR, STAR] + rest)[2..] == rest;
  }

  /** One star stands for anything within a segment, a question mark for one byte of it. */
  lemma StarLaws(rest: Bytes, text: Bytes)
    ensures rest == [] || rest[0] != STAR ==>
              (Glob([STAR] + rest, text) <==>
                 exists i :: 0 <= i <= |text| && SLASH !in text[..i] && Glob(rest, text[i..]))
    ensures Glob([QUESTION] + rest, text) <==> text != [] && text[0] != SLASH && Glob(rest, text[1..])
  {
    assert ([STAR] + rest)[1..] == rest && ([QUESTION] + rest)[1..] == rest;
  }

  // ------------------------------------------------------------ segments of a path

  lemma {:induction false} SegmentsJoin(path: Bytes)
    ensures Join(Segments(path)) == path
    ensures forall s | s in Segments(path) :: SLASH !in s
  {
    if path != [] {
      var rest := Segments(path[1..]);
      SegmentsJoin(path[1..]);
      JoinBefore(path[0], rest);
      assert path == [path[0]] + path[1..];
    }
  }

  lemma JoinBefore(c: byte, segments: seq<Bytes>)
    requires |segments| > 0
    ensures Join(Before(c, segments)) == [c] + Join(segments)
  {
    if c == SLASH {
      SlashBefore(segments);
    } else {
      var first, rest := segments[0], segments[1..];
      assert segments == [first] + rest;
      ByteBefore(c, first, rest, segments);
    }
  }

  lemma SlashBefore(segments: seq<Bytes>)
    requires |segments| > 0
    ensures Join([[]] + segments) == [SLASH] + Join(segments)
  {
    JoinFirst([], segments);
    assert [] + [SLASH] == [SLASH];
  }

  lemma ByteBefore(c: byte, first: Bytes, rest: seq<Bytes>, segments: seq<Bytes>)
    requires segments == [first] + rest
    ensures Join([[c] + first] + rest) == [c] + Join(segments)
  {
    if rest == [] {
      assert segments == [first] && [[c] + first] + rest == [[c] + first];
    } else {
      LongerFirst(c, first, rest);
    }
  }

  lemma LongerFirst(c: byte, first: Bytes, rest: seq<Bytes>)
    requires |rest| > 0
    ensures Join([[c] + first] + rest) == [c] + Join([first] + rest)
  {
    JoinFirst([c] + first, rest);
    JoinFirst(first, rest);
    FrontMoves(c, first, Join(rest));
  }

  lemma JoinFirst(first: Bytes, segments: seq<Bytes>)
    requires |segments| > 0
    ensures Join([first] + segments) == first + [SLASH] + Join(segments)
  {
    assert ([first] + segments)[1..] == segments;
  }

  lemma FrontMoves(c: byte, a: Bytes, b: Bytes)
    ensures [c] + a + [SLASH] + b == [c] + (a + [SLASH] + b)
  {
  }

  /** `q` is the path or a folder above it; with `below`, a folder above it. */
  predicate AtOrAbove(q: Bytes, path: Bytes, below: bool) {
    q + [SLASH] <= path || (!below && q == path)
  }

  /** A whole segment of the path; with `below`, not the last one. */
  ghost predicate HasSegment(path: Bytes, segment: Bytes, below: bool) {
    SLASH !in segment && exists front, back :: SegmentIs(path, front, segment, back, below)
  }

  predicate SegmentIs(path: Bytes, front: Bytes, segment: Bytes, back: Bytes, below: bool) {
    && path == front + segment + back
    && (front == [] || front[|front| - 1] == SLASH)
    && if back == [] then !below else back[0] == SLASH
  }

  lemma {:induction false} JoinOfBoth(a: seq<Bytes>, b: seq<Bytes>)
    requires |a| > 0 && |b| > 0
    ensures Join(a + b) == Join(a) + [SLASH] + Join(b)
  {
    if |a| == 1 {
      assert (a + b)[1..] == b;
    } else {
      assert (a + b)[1..] == a[1..] + b;
      JoinOfBoth(a[1..], b);
      assert a[0] + [SLASH] + (Join(a[1..]) + [SLASH] + Join(b)) == (a[0] + [SLASH] + Join(a[1..])) + [SLASH] + Join(b);
    }
  }

  /** The first segments of a path make up the path or a folder above it. */
  lemma FrontIsAbove(path: Bytes, depth: nat)
    requires 1 <= depth <= |Segments(path)|
    ensures AtOrAbove(Join(Segments(path)[..depth]), path, depth < |Segments(path)|)
  {
    var segments := Segments(path);
    SegmentsJoin(path);
    if depth < |segments| {
      assert segments == segments[..depth] + segments[depth..];
      JoinOfBoth(segments[..depth], segments[depth..]);
    } else {
      assert segments[..depth] == segments;
    }
  }

  lemma AboveIsFront(q: Bytes, path: Bytes)
    requires q + [SLASH] <= path
    ensures |Segments(q)| < |Segments(path)| && Join(Segments(path)[..|Segments(q)|]) == q
  {
    var rest := path[|q| + 1..];
    assert path == q + [SLASH] + rest;
    SegmentsOfBoth(q, rest);
    SegmentsJoin(q);
    assert Segments(path)[..|Segments(q)|] == Segments(q);
  }

  /** An anchored rule compares its pattern with the whole path, and with the folders above it. */
  lemma AnchoredRuleMeaning(rule: Rule, path: Bytes)
    requires rule.anchored
    ensures RuleMatches(rule, path) <==> exists q :: AtOrAbove(q, path, rule.folder) && Glob(rule.pattern, q)
  {
    var segments := Segments(path);
    if RuleMatches(rule, path) {
      var depth :| 1 <= depth <= |segments| - (if rule.folder then 1 else 0)
        && Glob(rule.pattern, Candidate(rule, segments, depth));
      FrontIsAbove(path, depth);
      assert AtOrAbove(Join(segments[..depth]), path, rule.folder);
    }
    if q :| AtOrAbove(q, path, rule.folder) && Glob(rule.pattern, q) {
      SegmentsJoin(path);
      if q + [SLASH] <= path {
        AboveIsFront(q, path);
        assert Glob(rule.pattern, Candidate(rule, segments, |Segments(q)|));
      } else {
        assert segments[..|segments|] == segments;
        assert Glob(rule.pattern, Candidate(rule, segments, |segments|));
      }
    }
  }

  lemma SegmentStands(path: Bytes, depth: nat)
    requires 1 <= depth <= |Segments(path)|
    ensures HasSegment(path, Segments(path)[depth - 1], depth < |Segments(path)|)
  {
    var segments := Segments(path);
    SegmentsJoin(path);
    var segment := segments[depth - 1];
    assert segment in segments;
    TailOf(segments, depth);
    HeadOf(segments, depth);
    var front := if depth == 1 then [] else Join(segments[..depth - 1]) + [SLASH];
    var back := if depth == |segments| then [] else [SLASH] + Join(segments[depth..]);
    ThreePieces(front, segment, back);
    assert SegmentIs(path, front, segment, back, depth < |segments|);
  }

  lemma ThreePieces(a: Bytes, b: Bytes, c: Bytes)
    ensures a + (b + c) == a + b + c
  {
  }

  lemma HeadOf(segments: seq<Bytes>, depth: nat)
    requires 1 <= depth <= |segments|
    ensures Join(segments)
            == (if depth == 1 then [] else Join(segments[..depth - 1]) + [SLASH]) + Join(segments[depth - 1..])
  {
    if depth > 1 {
      var a, b := segments[..depth - 1], segments[depth - 1..];
      JoinOfBoth(a, b);
      assert segments == a + b;
    } else {
      assert segments[0..] == segments;
      assert [] + Join(segments) == Join(segments);
    }
  }

  lemma TailOf(segments: seq<Bytes>, depth: nat)
    requires 1 <= depth <= |segments|
    ensures Join(segments[depth - 1..])
            == segments[depth - 1] + if depth == |segments| then [] else [SLASH] + Join(segments[depth..])
  {
    var tail := segments[depth - 1..];
    if depth < |segments| { assert tail[1..] == segments[depth..]; }
  }

  lemma StandingIsSegment(path: Bytes, front: Bytes, segment: Bytes, back: Bytes, below: bool) returns (depth: nat)
    requires SegmentIs(path, front, segment, back, below) && SLASH !in segment
    ensures 1 <= depth <= |Segments(path)| - (if below then 1 else 0) && Segments(path)[depth - 1] == segment
  {
    OneSegment(segment);
    var tail := segment + back;
    if back != [] {
      assert tail == segment + [SLASH] + back[1..];
      SegmentsOfBoth(segment, back[1..]);
    } else {
      assert tail == segment;
    }
    if front == [] {
      assert path == tail;
      depth := 1;
    } else {
      var above := front[..|front| - 1];
      assert path == above + [SLASH] + tail;
      SegmentsOfBoth(above, tail);
      depth := |Segments(above)| + 1;
    }
  }

  /** A free rule compares its pattern with every single segment. */
  lemma FreeRuleMeaning(rule: Rule, path: Bytes)
    requires !rule.anchored
    ensures RuleMatches(rule, path) <==> exists s :: HasSegment(path, s, rule.folder) && Glob(rule.pattern, s)
  {
    var segments := Segments(path);
    if RuleMatches(rule, path) {
      var depth :| 1 <= depth <= |segments| - (if rule.folder then 1 else 0)
        && Glob(rule.pattern, Candidate(rule, segments, depth));
      SegmentStands(path, depth);
      SegmentNotLast(path, segments[depth - 1], depth < |segments|, rule.folder);
    }
    if s :| HasSegment(path, s, rule.folder) && Glob(rule.pattern, s) {
      var front, back :| SegmentIs(path, front, s, back, rule.folder);
      var depth := StandingIsSegment(path, front, s, back, rule.folder);
      assert Glob(rule.pattern, Candidate(rule, segments, depth));
    }
  }

  lemma SegmentNotLast(path: Bytes, segment: Bytes, strict: bool, below: bool)
    requires HasSegment(path, segment, strict) && (below ==> strict)
    ensures HasSegment(path, segment, below)
  {
    var front, back :| SegmentIs(path, front, segment, back, strict);
    assert SegmentIs(path, front, segment, back, below);
  }

  // -------------------------------------------------------------------- lines

  function WithoutSlashes(line: Bytes): Bytes {
    if line != [] && line[0] == SLASH then WithoutSlashes(line[1..]) else line
  }

  /** One line of `parse_rules`, the white space at its end already gone. */
  function ParseLine(line: Bytes): Option<Rule> {
    if line == [] || line[0] == HASH then None
    else
      var negated := line[0] == BANG;
      var rest := if negated || line[0] == BACKSLASH then line[1..] else line;
      var folder := rest != [] && rest[|rest| - 1] == SLASH;
      var text := if folder then rest[..|rest| - 1] else rest;
      var pattern := WithoutSlashes(text);
      if pattern == [] then None else Some(Rule(pattern, negated, SLASH in text, folder))
  }

  function ParseRules(lines: seq<Bytes>): seq<Rule> {
    if lines == [] then []
    else
      var rule := ParseLine(lines[|lines| - 1]);
      ParseRules(lines[..|lines| - 1]) + if rule.Some? then [rule.value] else []
  }

  /** A name that means itself. */
  predicate PlainName(name: Bytes) {
    && name != [] && SLASH !in name && STAR !in name && QUESTION !in name
    && name[0] != HASH && name[0] != BANG && name[0] != BACKSLASH
  }

  predicate LineMatches(line: Bytes, path: Bytes) {
    ParseLine(line).Some? && RuleMatches(ParseLine(line).value, path)
  }

  /** A name picks that name anywhere: a file of that name, and everything in a folder of that name. */
  lemma NameLine(name: Bytes, path: Bytes)
    requires PlainName(name)
    ensures LineMatches(name, path) <==> HasSegment(path, name, false)
  {
    assert ParseLine(name) == Some(Rule(name, false, false, false));
    OnlyItself(name);
    FreeRuleMeaning(ParseLine(name).value, path);
  }

  /** With a slash after it, only what is in a folder of that name. */
  lemma FolderLine(name: Bytes, path: Bytes)
    requires PlainName(name)
    ensures LineMatches(name + [SLASH], path) <==> HasSegment(path, name, true)
  {
    var line := name + [SLASH];
    assert line[..|line| - 1] == name;
    assert ParseLine(line) == Some(Rule(name, false, false, true));
    OnlyItself(name);
    FreeRuleMeaning(ParseLine(line).value, path);
  }

  /** With a slash before it, only at the top. */
  lemma TopLine(name: Bytes, path: Bytes)
    requires PlainName(name)
    ensures LineMatches([SLASH] + name, path) <==> path == name || name + [SLASH] <= path
  {
    var line := [SLASH] + name;
    assert line[1..] == name && WithoutSlashes(line) == name;
    assert ParseLine(line) == Some(Rule(name, false, true, false));
    OnlyItself(name);
    AnchoredRuleMeaning(ParseLine(line).value, path);
    if path == name || name + [SLASH] <= path { assert AtOrAbove(name, path, false); }
  }

  /** An exclamation mark before a line makes the rule one that takes out what it matches. */
  lemma NegatedLine(line: Bytes)
    requires line != [] && line[0] != HASH && line[0] != BANG && line[0] != BACKSLASH
    ensures ParseLine([BANG] + line)
            == if ParseLine(line).Some? then Some(ParseLine(line).value.(negated := true)) else None
  {
    assert ([BANG] + line)[1..] == line;
  }

  /** An empty line and a comment make no rule, nor does a slash alone. */
  lemma NoRule(line: Bytes)
    requires line == [] || line[0] == 35 || line == [SLASH]
    ensures ParseLine(line) == None
  {
  }

  /** A backslash in front takes the meaning of a comment or a negation from the name behind it. */
  lemma EscapedLine(name: Bytes, path: Bytes)
    requires name != [] && SLASH !in name && STAR !in name && QUESTION !in name
    ensures LineMatches([92] + name, path) <==> HasSegment(path, name, false)
    ensures ParseLine([92] + name) == Some(Rule(name, false, false, false))
  {
    assert ([92] + name)[1..] == name;
    forall text ensures Glob(name, text) <==> text == name { LiteralGlob(name, text); }
    FreeRuleMeaning(ParseLine([92] + name).value, path);
  }

  lemma OnlyItself(name: Bytes)
    requires PlainName(name)
    ensures forall text :: Glob(name, text) <==> text == name
  {
    forall text ensures Glob(name, text) <==> text == name { LiteralGlob(name, text); }
  }

  /** A later line without a match changes nothing; one that matches decides alone. */
  lemma LastLineDecides(lines: seq<Bytes>, line: Bytes, path: Bytes)
    ensures Included(ParseRules(lines + [line]), path)
            <==> if LineMatches(line, path) then !ParseLine(line).value.negated else Included(ParseRules(lines), path)
  {
    assert (lines + [line])[..|lines|] == lines;
    var rules := ParseRules(lines);
    if ParseLine(line).Some? {
      assert (rules + [ParseLine(line).value])[..|rules|] == rules;
    } else {
      assert rules + [] == rules;
    }
  }
}
