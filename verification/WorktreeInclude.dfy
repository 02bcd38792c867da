/** The include patterns of a new worktree, and the copying of the files they pick. */
module WorktreeInclude {
  import opened Basics

  const SLASH: byte := 47
  const STAR: byte := 42
  const QUESTION: byte := 63
  const MAX_TOTAL_BYTES: nat := 10 * 1024 * 1024

  // --------------------------------------------------------------------- glob

  predicate Glob(pattern: Bytes, text: Bytes)
    decreases |pattern|
  {
    if pattern == [] then text == []
    else if pattern[0] == STAR && |pattern| > 1 && pattern[1] == STAR then
      var rest := AfterDoubleStar(pattern);
      exists skip :: 0 <= skip <= |text| && (skip == 0 || text[skip - 1] == SLASH || rest == [])
        && Glob(rest, text[skip..])
    else if pattern[0] == STAR then
      exists skip :: 0 <= skip <= |text| && SLASH !in text[..skip] && Glob(pattern[1..], text[skip..])
    else if pattern[0] == QUESTION then text != [] && text[0] != SLASH && Glob(pattern[1..], text[1..])
    else text != [] && text[0] == pattern[0] && Glob(pattern[1..], text[1..])
  }

  /** `**` takes one slash after it along. */
  function AfterDoubleStar(pattern: Bytes): Bytes
    requires |pattern| > 1
  {
    if |pattern| > 2 && pattern[2] == SLASH then pattern[3..] else pattern[2..]
  }

  datatype Token = Literal(c: byte) | One | Star | DoubleStar

  function Tokens(pattern: Bytes): (tokens: seq<Token>)
    ensures tokens == [] <==> pattern == []
    decreases |pattern|
  {
    if pattern == [] then []
    else if pattern[0] == STAR && |pattern| > 1 && pattern[1] == STAR
      then [DoubleStar] + Tokens(AfterDoubleStar(pattern))
    else [TokenOf(pattern[0])] + Tokens(pattern[1..])
  }

  function TokenOf(c: byte): Token {
    if c == STAR then Star else if c == QUESTION then One else Literal(c)
  }

  /** What a token may stand for; `last` says that nothing follows it. */
  predicate Covers(t: Token, piece: Bytes, last: bool) {
    match t
    case Literal(c) => piece == [c]
    case One => |piece| == 1 && piece[0] != SLASH
    case Star => SLASH !in piece
    case DoubleStar => piece == [] || piece[|piece| - 1] == SLASH || last
  }

  function Concat(pieces: seq<Bytes>): Bytes {
    if pieces == [] then [] else pieces[0] + Concat(pieces[1..])
  }

  ghost predicate Decomposes(tokens: seq<Token>, text: Bytes, pieces: seq<Bytes>) {
    && |pieces| == |tokens| && Concat(pieces) == text
    && forall i | 0 <= i < |tokens| :: Covers(tokens[i], pieces[i], i == |tokens| - 1)
  }

  lemma FirstPiece(t: Token, tokens: seq<Token>, text: Bytes, skip: nat, pieces: seq<Bytes>)
    requires skip <= |text| && Decomposes(tokens, text[skip..], pieces) && Covers(t, text[..skip], tokens == [])
    ensures Decomposes([t] + tokens, text, [text[..skip]] + pieces)
  {
  }

  lemma RestDecomposes(t: Token, tokens: seq<Token>, text: Bytes, pieces: seq<Bytes>)
    requires Decomposes([t] + tokens, text, pieces)
    ensures Covers(t, pieces[0], tokens == []) && pieces[0] <= text
    ensures Decomposes(tokens, text[|pieces[0]|..], pieces[1..])
  {
  }

  predicate StartsDoubleStar(pattern: Bytes) {
    |pattern| > 1 && pattern[0] == STAR && pattern[1] == STAR
  }

  lemma DoubleStarTakes(pattern: Bytes, text: Bytes) returns (skip: nat)
    requires Glob(pattern, text) && StartsDoubleStar(pattern)
    ensures skip <= |text| && Covers(DoubleStar, text[..skip], AfterDoubleStar(pattern) == [])
    ensures Glob(AfterDoubleStar(pattern), text[skip..])
  {
    var rest := AfterDoubleStar(pattern);
    skip :| 0 <= skip <= |text| && (skip == 0 || text[skip - 1] == SLASH || rest == []) && Glob(rest, text[skip..]);
  }

  lemma OtherTakes(pattern: Bytes, text: Bytes) returns (skip: nat)
    requires Glob(pattern, text) && pattern != [] && !StartsDoubleStar(pattern)
    ensures skip <= |text| && Covers(TokenOf(pattern[0]), text[..skip], pattern[1..] == [])
    ensures Glob(pattern[1..], text[skip..])
  {
    skip := 1;
    if pattern[0] == STAR {
      skip :| 0 <= skip <= |text| && SLASH !in text[..skip] && Glob(pattern[1..], text[skip..]);
    }
  }

  /** The piece that the first token of a pattern takes, and the pattern left. */
  lemma GlobTakes(pattern: Bytes, text: Bytes) returns (rest: Bytes, skip: nat)
    requires Glob(pattern, text) && pattern != []
    ensures |rest| < |pattern| && Tokens(pattern) == [Tokens(pattern)[0]] + Tokens(rest) && skip <= |text|
    ensures Covers(Tokens(pattern)[0], text[..skip], Tokens(rest) == []) && Glob(rest, text[skip..])
  {
    if StartsDoubleStar(pattern) {
      rest := AfterDoubleStar(pattern);
      skip := DoubleStarTakes(pattern, text);
    } else {
      rest := pattern[1..];
      skip := OtherTakes(pattern, text);
    }
  }

  /** An accepted text falls into pieces that the tokens cover. */
  lemma {:induction false} GlobGivesPieces(pattern: Bytes, text: Bytes) returns (pieces: seq<Bytes>)
    requires Glob(pattern, text)
    ensures Decomposes(Tokens(pattern), text, pieces)
    decreases |pattern|
  {
    if pattern == [] {
      pieces := [];
    } else {
      var rest, skip := GlobTakes(pattern, text);
      pieces := GlobGivesPieces(rest, text[skip..]);
      FirstPiece(Tokens(pattern)[0], Tokens(rest), text, skip, pieces);
      pieces := [text[..skip]] + pieces;
    }
  }

  /** Every text with such pieces is accepted. */
  lemma {:induction false} PiecesGiveGlob(pattern: Bytes, text: Bytes, pieces: seq<Bytes>)
    requires Decomposes(Tokens(pattern), text, pieces)
    ensures Glob(pattern, text)
    decreases |pattern|
  {
    if pattern != [] {
      var rest := if pattern[0] == STAR && |pattern| > 1 && pattern[1] == STAR
        then AfterDoubleStar(pattern) else pattern[1..];
      var n := |pieces[0]|;
      RestDecomposes(Tokens(pattern)[0], Tokens(rest), text, pieces);
      assert text[..n] == pieces[0];
      PiecesGiveGlob(rest, text[n..], pieces[1..]);
    }
  }

  ghost predicate Stands(tokens: seq<Token>, text: Bytes) {
    exists pieces :: Decomposes(tokens, text, pieces)
  }

  /** The meaning of a pattern. */
  lemma GlobMeaning(pattern: Bytes, text: Bytes)
    ensures Glob(pattern, text) <==> Stands(Tokens(pattern), text)
  {
    if Glob(pattern, text) {
      var pieces := GlobGivesPieces(pattern, text);
      assert Stands(Tokens(pattern), text);
    } else if Stands(Tokens(pattern), text) {
      var pieces :| Decomposes(Tokens(pattern), text, pieces);
      PiecesGiveGlob(pattern, text, pieces);
    }
  }

  function Slashes(s: Bytes): nat {
    if s == [] then 0 else (if s[0] == SLASH then 1 else 0) + Slashes(s[1..])
  }

  lemma {:induction false} SlashesAdd(a: Bytes, b: Bytes)
    ensures Slashes(a + b) == Slashes(a) + Slashes(b)
  {
    if a == [] {
      assert a + b == b;
    } else {
      assert (a + b)[1..] == a[1..] + b;
      SlashesAdd(a[1..], b);
    }
  }

  lemma {:induction false} NoSlashes(s: Bytes)
    requires SLASH !in s
    ensures Slashes(s) == 0
  {
    if s != [] { NoSlashes(s[1..]); }
  }

  /** Without `**`, a pattern and the texts it accepts are equally deep. */
  lemma {:induction false} SameDepth(pattern: Bytes, text: Bytes)
    requires Glob(pattern, text) && DoubleStar !in Tokens(pattern)
    ensures Slashes(pattern) == Slashes(text)
    decreases |pattern|
  {
    if pattern != [] {
      assert Tokens(pattern)[0] in Tokens(pattern);
      if pattern[0] == STAR {
        var skip :| 0 <= skip <= |text| && SLASH !in text[..skip] && Glob(pattern[1..], text[skip..]);
        SameDepth(pattern[1..], text[skip..]);
        assert text == text[..skip] + text[skip..];
        SlashesAdd(text[..skip], text[skip..]);
        NoSlashes(text[..skip]);
      } else {
        SameDepth(pattern[1..], text[1..]);
      }
    }
  }

  /** Without a wildcard a pattern accepts itself alone. */
  lemma {:induction false} LiteralGlob(pattern: Bytes, text: Bytes)
    requires STAR !in pattern && QUESTION !in pattern
    ensures Glob(pattern, text) <==> pattern == text
  {
    if pattern != [] && text != [] && pattern[0] == text[0] {
      LiteralGlob(pattern[1..], text[1..]);
      assert pattern == [pattern[0]] + pattern[1..] && text == [text[0]] + text[1..];
    }
  }

  // -------------------------------------------------------------------- rules

  datatype Rule = Rule(pattern: Bytes, negated: bool, anchored: bool, folder: bool)

  function Segments(path: Bytes): (segments: seq<Bytes>)
    ensures |segments| > 0
  {
    if path == [] then [[]] else Before(path[0], Segments(path[1..]))
  }

  /** The segments with one byte more in front. */
  function Before(c: byte, segments: seq<Bytes>): (more: seq<Bytes>)
    requires |segments| > 0
    ensures |more| > 0
  {
    if c == SLASH then [[]] + segments else [[c] + segments[0]] + segments[1..]
  }

  function Join(segments: seq<Bytes>): Bytes {
    if segments == [] then [] else if |segments| == 1 then segments[0] else segments[0] + [SLASH] + Join(segments[1..])
  }

  /** What a rule compares with its pattern at this depth. */
  function Candidate(rule: Rule, segments: seq<Bytes>, depth: nat): Bytes
    requires 1 <= depth <= |segments|
  {
    if rule.anchored then Join(segments[..depth]) else segments[depth - 1]
  }

  predicate SegmentsMatch(rule: Rule, segments: seq<Bytes>) {
    exists depth :: 1 <= depth <= |segments| - (if rule.folder then 1 else 0)
      && Glob(rule.pattern, Candidate(rule, segments, depth))
  }

  predicate RuleMatches(rule: Rule, path: Bytes) {
    SegmentsMatch(rule, Segments(path))
  }

  lemma {:induction false} SegmentsOfBoth(p: Bytes, q: Bytes)
    ensures Segments(p + [SLASH] + q) == Segments(p) + Segments(q)
  {
    if p == [] {
      assert p + [SLASH] + q == [SLASH] + q;
      assert ([SLASH] + q)[1..] == q;
    } else {
      assert (p + [SLASH] + q)[0] == p[0] && (p + [SLASH] + q)[1..] == p[1..] + [SLASH] + q;
      SegmentsOfBoth(p[1..], q);
      BeforeMore(p[0], Segments(p[1..]), Segments(q));
    }
  }

  lemma BeforeMore(c: byte, a: seq<Bytes>, b: seq<Bytes>)
    requires |a| > 0
    ensures Before(c, a + b) == Before(c, a) + b
  {
  }

  lemma {:induction false} OneSegment(f: Bytes)
    requires SLASH !in f
    ensures Segments(f) == [f]
  {
    if f != [] {
      OneSegment(f[1..]);
      assert [f[0]] + f[1..] == f;
    }
  }

  lemma CandidateOfBoth(rule: Rule, a: seq<Bytes>, b: seq<Bytes>, depth: nat)
    requires 1 <= depth <= |a|
    ensures Candidate(rule, a + b, depth) == Candidate(rule, a, depth)
  {
    assert (a + b)[..depth] == a[..depth];
  }

  /** A rule that matches a path matches everything below it. */
  lemma MatchesBelow(rule: Rule, p: Bytes, q: Bytes)
    requires RuleMatches(rule, p)
    ensures RuleMatches(rule, p + [SLASH] + q)
  {
    SegmentsOfBoth(p, q);
    var a, b := Segments(p), Segments(q);
    var depth :| 1 <= depth <= |a| - (if rule.folder then 1 else 0) && Glob(rule.pattern, Candidate(rule, a, depth));
    CandidateOfBoth(rule, a, b, depth);
    assert Glob(rule.pattern, Candidate(rule, a + b, depth));
  }

  /** A folder rule matches a file exactly when, read as a file rule, it matches the file's folder. */
  lemma FolderRuleMeaning(rule: Rule, folder: Bytes, file: Bytes)
    requires rule.folder && SLASH !in file
    ensures RuleMatches(rule, folder + [SLASH] + file) <==> RuleMatches(rule.(folder := false), folder)
    ensures !RuleMatches(rule, file)
  {
    SegmentsOfBoth(folder, file);
    OneSegment(file);
    var a, plain := Segments(folder), rule.(folder := false);
    if RuleMatches(rule, folder + [SLASH] + file) {
      var depth :| 1 <= depth <= |a + [file]| - 1 && Glob(rule.pattern, Candidate(rule, a + [file], depth));
      CandidateOfBoth(rule, a, [file], depth);
      assert Glob(plain.pattern, Candidate(plain, a, depth));
    }
    if RuleMatches(plain, folder) {
      var depth :| 1 <= depth <= |a| && Glob(plain.pattern, Candidate(plain, a, depth));
      CandidateOfBoth(rule, a, [file], depth);
      assert Glob(rule.pattern, Candidate(rule, a + [file], depth));
    }
  }

  /** `is_included`: the last rule that matches decides. */
  predicate Included(rules: seq<Rule>, path: Bytes) {
    rules != [] &&
    if RuleMatches(rules[|rules| - 1], path) then !rules[|rules| - 1].negated else Included(rules[..|rules| - 1], path)
  }

  method IsIncluded(rules: seq<Rule>, path: Bytes) returns (included: bool)
    ensures included == Included(rules, path)
  {
    included := false;
    for k := 0 to |rules|
      invariant included == Included(rules[..k], path)
    {
      assert rules[..k + 1][..k] == rules[..k];
      if RuleMatches(rules[k], path) {
        included := !rules[k].negated;
      }
    }
    assert rules[..|rules|] == rules;
  }

  /** Rule `i` is the last one that matches. */
  predicate LastMatch(rules: seq<Rule>, path: Bytes, i: nat) {
    i < |rules| && RuleMatches(rules[i], path) && forall j | i < j < |rules| :: !RuleMatches(rules[j], path)
  }

  /** The answer is the sign of the last matching rule, and no without one. */
  lemma {:induction false} IncludedMeaning(rules: seq<Rule>, path: Bytes)
    ensures Included(rules, path) <==> exists i: nat :: LastMatch(rules, path, i) && !rules[i].negated
  {
    if rules != [] {
      var n := |rules| - 1;
      if RuleMatches(rules[n], path) {
        assert LastMatch(rules, path, n);
      } else {
        IncludedMeaning(rules[..n], path);
        if Included(rules, path) {
          var i: nat :| LastMatch(rules[..n], path, i) && !rules[..n][i].negated;
          LastMatchOfFront(rules, path, i);
        } else {
          forall i: nat | LastMatch(rules, path, i) ensures rules[i].negated { LastMatchOfFront(rules, path, i); }
        }
      }
    }
  }

  lemma LastMatchOfFront(rules: seq<Rule>, path: Bytes, i: nat)
    requires rules != [] && !RuleMatches(rules[|rules| - 1], path)
    ensures LastMatch(rules, path, i) <==> LastMatch(rules[..|rules| - 1], path, i)
  {
  }

  // ------------------------------------------------------------------ copying

  /** What a copy meets: it works, or fails and may leave anything at its target. */
  datatype Fate = Copied | Failed(error: string, left: Option<Bytes>)

  datatype Reason = Exists | TooLarge | Error(error: string)

  datatype Report = Report(copied: seq<Bytes>, skipped: seq<(Bytes, Reason)>)

  datatype State = State(files: map<Bytes, Bytes>, report: Report, total: nat)

  /** A loose file that a rule picks; anything else is passed over. */
  predicate Wanted(rules: seq<Rule>, source: map<Bytes, Bytes>, path: Bytes) {
    path != [] && path[|path| - 1] != SLASH && Included(rules, path) && path in source
  }

  function CopyOne(s: State, source: map<Bytes, Bytes>, path: Bytes, fate: Fate): State
    requires path in source
  {
    if path in s.files then s.(report := s.report.(skipped := s.report.skipped + [(path, Exists)]))
    else if s.total + |source[path]| > MAX_TOTAL_BYTES
      then s.(report := s.report.(skipped := s.report.skipped + [(path, TooLarge)]))
    else
      match fate
      case Copied =>
        State(s.files[path := source[path]], s.report.(copied := s.report.copied + [path]), s.total + |source[path]|)
      case Failed(error, left) =>
        State(
          if left.Some? then s.files[path := left.value] else s.files,
          s.report.(skipped := s.report.skipped + [(path, Error(error))]), s.total)
  }

  function CopyAll(s: State, rules: seq<Rule>, source: map<Bytes, Bytes>, listing: seq<Bytes>, fates: seq<Fate>): State
    requires |fates| == |listing|
  {
    if listing == [] then s
    else
      var n := |listing| - 1;
      var before := CopyAll(s, rules, source, listing[..n], fates[..n]);
      if Wanted(rules, source, listing[n]) then CopyOne(before, source, listing[n], fates[n]) else before
  }

  function Start(files: map<Bytes, Bytes>): State {
    State(files, Report([], []), 0)
  }

  class Worktree {
    var files: map<Bytes, Bytes>

    constructor (files: map<Bytes, Bytes>)
      ensures this.files == files
    {
      this.files := files;
    }

    /** The loop of `copy_worktree_includes` over git's list of ignored entries. */
    method CopyIncludes(rules: seq<Rule>, source: map<Bytes, Bytes>, listing: seq<Bytes>, fates: seq<Fate>)
      returns (report: Report)
      requires |fates| == |listing|
      modifies this
      ensures
        var end := CopyAll(Start(old(files)), rules, source, listing, fates);
        files == end.files && report == end.report
    {
      report := Report([], []);
      var total: nat := 0;
      for k := 0 to |listing|
        invariant State(files, report, total) == CopyAll(Start(old(files)), rules, source, listing[..k], fates[..k])
      {
        assert listing[..k + 1][..k] == listing[..k] && fates[..k + 1][..k] == fates[..k];
        var path := listing[k];
        if path == [] || path[|path| - 1] == SLASH { continue; }
        var included := IsIncluded(rules, path);
        if !included || path !in source { continue; }
        if path in files {
          report := report.(skipped := report.skipped + [(path, Exists)]);
        } else if total + |source[path]| > MAX_TOTAL_BYTES {
          report := report.(skipped := report.skipped + [(path, TooLarge)]);
        } else {
          match fates[k]
          case Copied =>
            files := files[path := source[path]];
            total := total + |source[path]|;
            report := report.(copied := report.copied + [path]);
          case Failed(error, left) =>
            if left.Some? { files := files[path := left.value]; }
            report := report.(skipped := report.skipped + [(path, Error(error))]);
        }
      }
      assert listing[..|listing|] == listing && fates[..|fates|] == fates;
    }
  }

  function SizeOf(paths: seq<Bytes>, source: map<Bytes, Bytes>): nat {
    if paths == [] then 0
    else
      var last := paths[|paths| - 1];
      SizeOf(paths[..|paths| - 1], source) + if last in source then |source[last]| else 0
  }

  function WantedOf(rules: seq<Rule>, source: map<Bytes, Bytes>, listing: seq<Bytes>): seq<Bytes> {
    if listing == [] then []
    else
      var before := WantedOf(rules, source, listing[..|listing| - 1]);
      if Wanted(rules, source, listing[|listing| - 1]) then before + [listing[|listing| - 1]] else before
  }

  function SkippedPaths(report: Report): seq<Bytes> {
    seq(|report.skipped|, i requires 0 <= i < |report.skipped| => report.skipped[i].0)
  }

  /** Nothing is skipped without the reason given: it is there, or what is left of the budget is too small. */
  predicate Justified(s: State, source: map<Bytes, Bytes>, skip: (Bytes, Reason)) {
    match skip.1
    case Exists => skip.0 in s.files
    case TooLarge => skip.0 in source && s.total + |source[skip.0]| > MAX_TOTAL_BYTES
    case Error(_) => true
  }

  /** What every point of the loop keeps. */
  ghost predicate Careful(s: State, files: map<Bytes, Bytes>, source: map<Bytes, Bytes>, wanted: seq<Bytes>) {
    && (forall k | k in s.report.skipped :: Justified(s, source, k))
    && (forall p | p in files :: p in s.files && s.files[p] == files[p])
    && (forall p | p in s.files && p !in files :: p in wanted)
    && (forall p | p in s.report.copied :: p !in files && p in s.files && p in source && s.files[p] == source[p])
    && s.total == SizeOf(s.report.copied, source) <= MAX_TOTAL_BYTES
    && multiset(s.report.copied) + multiset(SkippedPaths(s.report)) == multiset(wanted)
    && (forall i, j | 0 <= i < j < |s.report.copied| :: s.report.copied[i] != s.report.copied[j])
  }

  lemma SkipIsCareful(s: State, files: map<Bytes, Bytes>, source: map<Bytes, Bytes>,
    wanted: seq<Bytes>, path: Bytes, reason: Reason)
    requires Careful(s, files, source, wanted) && Justified(s, source, (path, reason))
    ensures Careful(s.(report := s.report.(skipped := s.report.skipped + [(path, reason)])), files,
                    source, wanted + [path])
  {
    SkippedMore(s.report, path, reason);
  }

  lemma SkippedMore(report: Report, path: Bytes, reason: Reason)
    ensures
      var more := report.(skipped := report.skipped + [(path, reason)]);
      multiset(SkippedPaths(more)) == multiset(SkippedPaths(report)) + multiset{path}
  {
    var more := report.(skipped := report.skipped + [(path, reason)]);
    assert SkippedPaths(more) == SkippedPaths(report) + [path];
  }

  lemma CopyIsCareful(s: State, files: map<Bytes, Bytes>, source: map<Bytes, Bytes>, wanted: seq<Bytes>, path: Bytes)
    requires Careful(s, files, source, wanted) && path in source
    requires path !in s.files && s.total + |source[path]| <= MAX_TOTAL_BYTES
    ensures Careful(CopyOne(s, source, path, Copied), files, source, wanted + [path])
  {
  }

  lemma CopyOneIsCareful(s: State, files: map<Bytes, Bytes>, source: map<Bytes, Bytes>,
    wanted: seq<Bytes>, path: Bytes, fate: Fate)
    requires Careful(s, files, source, wanted) && path in source
    ensures Careful(CopyOne(s, source, path, fate), files, source, wanted + [path])
  {
    if path in s.files {
      SkipIsCareful(s, files, source, wanted, path, Exists);
    } else if s.total + |source[path]| > MAX_TOTAL_BYTES {
      SkipIsCareful(s, files, source, wanted, path, TooLarge);
    } else {
      match fate
      case Copied =>
        CopyIsCareful(s, files, source, wanted, path);
      case Failed(error, left) =>
        SkipIsCareful(s, files, source, wanted, path, Error(error));
        if left.Some? {
          var skipped := s.(report := s.report.(skipped := s.report.skipped + [(path, Error(error))]));
        }
    }
  }

  /**
   Whatever the copies meet: no file of the worktree changes, every new one was wanted, copies are
   whole, together they fit the budget, and every wanted entry is reported once for each time it
   is listed.
   */
  lemma {:induction false} CopiesAreCareful(
    files: map<Bytes, Bytes>, rules: seq<Rule>, source: map<Bytes, Bytes>, listing: seq<Bytes>, fates: seq<Fate>)
    requires |fates| == |listing|
    ensures Careful(CopyAll(Start(files), rules, source, listing, fates), files,
            source, WantedOf(rules, source, listing))
  {
    if listing == [] {
      assert SkippedPaths(Report([], [])) == [];
    } else {
      var n := |listing| - 1;
      CopiesAreCareful(files, rules, source, listing[..n], fates[..n]);
      if Wanted(rules, source, listing[n]) {
        CopyOneIsCareful(CopyAll(Start(files), rules, source, listing[..n], fates[..n]), files, source,
                         WantedOf(rules, source, listing[..n]), listing[n], fates[n]);
      }
    }
  }

  lemma {:induction false} FairCopiesMeetNoError(
    files: map<Bytes, Bytes>, rules: seq<Rule>, source: map<Bytes, Bytes>, listing: seq<Bytes>, fates: seq<Fate>)
    requires |fates| == |listing| && forall f | f in fates :: f == Copied
    ensures forall k | k in CopyAll(Start(files), rules, source, listing, fates).report.skipped :: !k.1.Error?
  {
    if listing != [] {
      var n := |listing| - 1;
      forall f | f in fates[..n] ensures f == Copied { assert f in fates; }
      FairCopiesMeetNoError(files, rules, source, listing[..n], fates[..n]);
      assert fates[n] in fates;
    }
  }

  /** If every copy works, each wanted file ends up in the worktree or does not fit what is left of the budget. */
  lemma FairCopiesFillTheBudget(
    files: map<Bytes, Bytes>, rules: seq<Rule>, source: map<Bytes, Bytes>,
    listing: seq<Bytes>, fates: seq<Fate>, path: Bytes)
    requires |fates| == |listing| && (forall f | f in fates :: f == Copied)
    requires path in listing && Wanted(rules, source, path)
    ensures
      var end := CopyAll(Start(files), rules, source, listing, fates);
      path in end.files || end.total + |source[path]| > MAX_TOTAL_BYTES
  {
    CopiesAreCareful(files, rules, source, listing, fates);
    FairCopiesMeetNoError(files, rules, source, listing, fates);
    WantedAreListed(rules, source, listing, path);
    var end := CopyAll(Start(files), rules, source, listing, fates);
    assert path in multiset(end.report.copied) + multiset(SkippedPaths(end.report));
    if path !in end.report.copied {
      var i :| 0 <= i < |end.report.skipped| && SkippedPaths(end.report)[i] == path;
      assert end.report.skipped[i] in end.report.skipped;
    }
  }

  lemma {:induction false} WantedAreListed(rules: seq<Rule>, source: map<Bytes, Bytes>,
    listing: seq<Bytes>, path: Bytes)
    requires path in listing && Wanted(rules, source, path)
    ensures path in multiset(WantedOf(rules, source, listing))
  {
    var n := |listing| - 1;
    if listing[n] != path { WantedAreListed(rules, source, listing[..n], path); }
  }

  /** A new file is one that the listing names, that exists in the source, and whose last matching rule picks it. */
  lemma NewFilesAreListed(files: map<Bytes, Bytes>, rules: seq<Rule>, source: map<Bytes, Bytes>,
    listing: seq<Bytes>, fates: seq<Fate>, path: Bytes)
    requires |fates| == |listing|
    requires path in CopyAll(Start(files), rules, source, listing, fates).files && path !in files
    ensures path in listing && path in source && path != [] && path[|path| - 1] != SLASH
    ensures exists i: nat :: LastMatch(rules, path, i) && !rules[i].negated
  {
    CopiesAreCareful(files, rules, source, listing, fates);
    WantedAre(rules, source, listing, path);
    IncludedMeaning(rules, path);
  }

  lemma {:induction false} WantedAre(rules: seq<Rule>, source: map<Bytes, Bytes>, listing: seq<Bytes>, path: Bytes)
    requires path in WantedOf(rules, source, listing)
    ensures path in listing && Wanted(rules, source, path)
  {
    var n := |listing| - 1;
    if path in WantedOf(rules, source, listing[..n]) { WantedAre(rules, source, listing[..n], path); }
  }

  /** When the turn of entry `k` comes it is wanted, not there, and fits what the copies before it left. */
  predicate HasRoom(before: State, rules: seq<Rule>, source: map<Bytes, Bytes>, path: Bytes) {
    && Wanted(rules, source, path) && path !in before.files
    && SizeOf(before.report.copied, source) + |source[path]| <= 10 * 1024 * 1024
  }

  /** First come, first served: such an entry is copied whole if its copy works, and stays. */
  lemma {:induction false} FirstComeFirstServed(files: map<Bytes, Bytes>, rules: seq<Rule>, source: map<Bytes, Bytes>,
    listing: seq<Bytes>, fates: seq<Fate>, k: nat)
    requires |fates| == |listing| && k < |listing| && fates[k] == Copied
    requires HasRoom(CopyAll(Start(files), rules, source, listing[..k], fates[..k]), rules, source, listing[k])
    ensures IsCopied(CopyAll(Start(files), rules, source, listing, fates), source, listing[k])
  {
    var n := |listing| - 1;
    var before := CopyAll(Start(files), rules, source, listing[..n], fates[..n]);
    if k < n {
      assert listing[..n][..k] == listing[..k] && fates[..n][..k] == fates[..k];
      FirstComeFirstServed(files, rules, source, listing[..n], fates[..n], k);
      if Wanted(rules, source, listing[n]) { CopiedStays(before, source, listing[n], fates[n], listing[k]); }
    } else {
      ServedLast(files, rules, source, listing, fates);
    }
  }

  /** One that fails is reported with its error. */
  lemma {:induction false} FailureIsReported(files: map<Bytes, Bytes>, rules: seq<Rule>, source: map<Bytes, Bytes>,
    listing: seq<Bytes>, fates: seq<Fate>, k: nat)
    requires |fates| == |listing| && k < |listing| && fates[k].Failed?
    requires HasRoom(CopyAll(Start(files), rules, source, listing[..k], fates[..k]), rules, source, listing[k])
    ensures (listing[k], Error(fates[k].error)) in CopyAll(Start(files), rules, source, listing, fates).report.skipped
  {
    var n := |listing| - 1;
    if k < n {
      assert listing[..n][..k] == listing[..k] && fates[..n][..k] == fates[..k];
      FailureIsReported(files, rules, source, listing[..n], fates[..n], k);
      var before := CopyAll(Start(files), rules, source, listing[..n], fates[..n]);
      if Wanted(rules, source, listing[n]) { SkippedStays(before, source, listing[n], fates[n]); }
    } else {
      FailedLast(files, rules, source, listing, fates);
    }
  }

  lemma FailedLast(files: map<Bytes, Bytes>, rules: seq<Rule>, source: map<Bytes, Bytes>,
    listing: seq<Bytes>, fates: seq<Fate>)
    requires |fates| == |listing| > 0 && fates[|fates| - 1].Failed?
    requires
      var n := |listing| - 1;
      HasRoom(CopyAll(Start(files), rules, source, listing[..n], fates[..n]), rules, source, listing[n])
    ensures
      var n := |listing| - 1;
      (listing[n], Error(fates[n].error)) in CopyAll(Start(files), rules, source, listing, fates).report.skipped
  {
    var n := |listing| - 1;
    CopiedTotal(files, rules, source, listing[..n], fates[..n]);
    FailedNow(CopyAll(Start(files), rules, source, listing[..n], fates[..n]), source, listing[n], fates[n]);
  }

  lemma SkippedStays(s: State, source: map<Bytes, Bytes>, path: Bytes, fate: Fate)
    requires path in source
    ensures s.report.skipped <= CopyOne(s, source, path, fate).report.skipped
  {
  }

  lemma FailedNow(s: State, source: map<Bytes, Bytes>, path: Bytes, fate: Fate)
    requires path in source && path !in s.files && s.total + |source[path]| <= 10 * 1024 * 1024 && fate.Failed?
    ensures (path, Error(fate.error)) in CopyOne(s, source, path, fate).report.skipped
  {
  }

  lemma ServedLast(files: map<Bytes, Bytes>, rules: seq<Rule>, source: map<Bytes, Bytes>,
    listing: seq<Bytes>, fates: seq<Fate>)
    requires |fates| == |listing| > 0 && fates[|fates| - 1] == Copied
    requires
      var n := |listing| - 1;
      HasRoom(CopyAll(Start(files), rules, source, listing[..n], fates[..n]), rules, source, listing[n])
    ensures IsCopied(CopyAll(Start(files), rules, source, listing, fates), source, listing[|listing| - 1])
  {
    var n := |listing| - 1;
    CopiedTotal(files, rules, source, listing[..n], fates[..n]);
    CopiedNow(CopyAll(Start(files), rules, source, listing[..n], fates[..n]), source, listing[n]);
  }

  lemma CopiedTotal(files: map<Bytes, Bytes>, rules: seq<Rule>, source: map<Bytes, Bytes>,
    listing: seq<Bytes>, fates: seq<Fate>)
    requires |fates| == |listing|
    ensures
      var end := CopyAll(Start(files), rules, source, listing, fates);
      end.total == SizeOf(end.report.copied, source)
  {
    CopiesAreCareful(files, rules, source, listing, fates);
  }

  predicate IsCopied(s: State, source: map<Bytes, Bytes>, path: Bytes) {
    path in source && path in s.report.copied && path in s.files && s.files[path] == source[path]
  }

  lemma CopiedStays(s: State, source: map<Bytes, Bytes>, path: Bytes, fate: Fate, earlier: Bytes)
    requires path in source && IsCopied(s, source, earlier)
    ensures IsCopied(CopyOne(s, source, path, fate), source, earlier)
  {
  }

  lemma CopiedNow(s: State, source: map<Bytes, Bytes>, path: Bytes)
    requires path in source && path !in s.files && s.total + |source[path]| <= 10 * 1024 * 1024
    ensures IsCopied(CopyOne(s, source, path, Copied), source, path)
  {
  }
}
