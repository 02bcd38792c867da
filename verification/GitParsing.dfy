/**
 The parsers of git's `-z` output.  `text` stands for lossy UTF-8 decoding, of which only the laws
 in `Lossy` are used.
 */
module GitParsing {
  import opened Basics
  import HeadTailFit

  const NUL: byte := 0
  const TAB: byte := 9
  const PLUS: byte := 43
  const MINUS: byte := 45

  type Decoder = Bytes -> string

  /** An ASCII byte stands for itself wherever it occurs, and nothing else reads as NUL or as nothing. */
  ghost predicate Lossy(text: Decoder) {
    && text([]) == []
    && (forall a, b, c :: AsciiStands(text, a, b, c))
    && (forall a :: ReadsAsText(text, a))
  }

  predicate AsciiStands(text: Decoder, a: Bytes, b: byte, c: Bytes) {
    b < 128 ==> text(a + [b] + c) == text(a) + [b as char] + text(c)
  }

  predicate ReadsAsText(text: Decoder, a: Bytes) {
    && (a != [] ==> text(a) != [])
    && (NUL !in a ==> '\0' !in text(a))
  }

  // -------------------------------------------------------------- white space

  /** The ranges of Unicode `White_Space`. */
  const SPACES: seq<(char, char)> := [
    ('\U{09}', '\U{0D}'), (' ', ' '), ('\U{85}', '\U{85}'), ('\U{A0}', '\U{A0}'), ('\U{1680}', '\U{1680}'),
    ('\U{2000}', '\U{200A}'), ('\U{2028}', '\U{2029}'), ('\U{202F}', '\U{202F}'), ('\U{205F}', '\U{205F}'),
    ('\U{3000}', '\U{3000}')
  ]

  predicate IsSpace(c: char) {
    Within(c, SPACES)
  }

  predicate Within(c: char, ranges: seq<(char, char)>) {
    ranges != [] && (ranges[0].0 <= c <= ranges[0].1 || Within(c, ranges[1..]))
  }

  /** The 25 characters that Unicode gives the property `White_Space`. */
  predicate WhiteSpace(c: int) {
    || 0x09 <= c <= 0x0D || c == 0x20 || c == 0x85 || c == 0xA0 || c == 0x1680
    || 0x2000 <= c <= 0x200A || c == 0x2028 || c == 0x2029 || c == 0x202F || c == 0x205F || c == 0x3000
  }

  predicate InRange(c: char, range: (char, char)) {
    range.0 <= c <= range.1
  }

  lemma SpaceMeaning(c: char)
    ensures IsSpace(c) <==> WhiteSpace(c as int)
  {
    WithinMeaning(c, SPACES);
    if IsSpace(c) {
      var i :| 0 <= i < 10 && InRange(c, SPACES[i]);
      assert i == 0 || i == 1 || i == 2 || i == 3 || i == 4 || i == 5 || i == 6 || i == 7 || i == 8 || i == 9;
    }
    if WhiteSpace(c as int) {
      var n := c as int;
      var i := if n <= 0x0D then 0 else if n == 0x20 then 1 else if n == 0x85 then 2 else if n == 0xA0 then 3
        else if n == 0x1680 then 4 else if n <= 0x200A then 5 else if n <= 0x2029 then 6 else if n == 0x202F then 7
        else if n == 0x205F then 8 else 9;
      assert InRange(c, SPACES[i]);
    }
  }

  lemma {:induction false} WithinMeaning(c: char, ranges: seq<(char, char)>)
    ensures Within(c, ranges) <==> exists i :: 0 <= i < |ranges| && InRange(c, ranges[i])
  {
    if ranges != [] {
      WithinMeaning(c, ranges[1..]);
      if Within(c, ranges[1..]) {
        var i :| 0 <= i < |ranges[1..]| && InRange(c, ranges[1..][i]);
        assert InRange(c, ranges[i + 1]);
      }
      forall i | 0 < i < |ranges| && InRange(c, ranges[i]) ensures Within(c, ranges[1..]) {
        assert InRange(c, ranges[1..][i - 1]);
      }
    }
  }

  function TrimStart(s: string): string {
    if s != [] && IsSpace(s[0]) then TrimStart(s[1..]) else s
  }

  function TrimEnd(s: string): string {
    if s != [] && IsSpace(s[|s| - 1]) then TrimEnd(s[..|s| - 1]) else s
  }

  function Trim(s: string): string {
    TrimEnd(TrimStart(s))
  }

  predicate Trimmed(s: string) {
    s == [] || (!IsSpace(s[0]) && !IsSpace(s[|s| - 1]))
  }

  lemma {:induction false} TrimStartEnds(s: string)
    ensures TrimStart(s) == [] || !IsSpace(TrimStart(s)[0])
  {
    if s != [] && IsSpace(s[0]) { TrimStartEnds(s[1..]); }
  }

  lemma {:induction false} TrimEndEnds(s: string)
    ensures TrimEnd(s) <= s && (TrimEnd(s) == [] || !IsSpace(TrimEnd(s)[|TrimEnd(s)| - 1]))
  {
    if s != [] && IsSpace(s[|s| - 1]) { TrimEndEnds(s[..|s| - 1]); }
  }

  predicate AllSpace(s: string) {
    forall c | c in s :: IsSpace(c)
  }

  lemma {:induction false} TrimStartTakes(s: string) returns (front: string)
    ensures s == front + TrimStart(s) && AllSpace(front)
  {
    front := [];
    if s != [] && IsSpace(s[0]) {
      var rest := TrimStartTakes(s[1..]);
      front := [s[0]] + rest;
    }
  }

  lemma {:induction false} TrimEndTakes(s: string) returns (back: string)
    ensures s == TrimEnd(s) + back && AllSpace(back)
  {
    back := [];
    if s != [] && IsSpace(s[|s| - 1]) {
      var rest := TrimEndTakes(s[..|s| - 1]);
      back := rest + [s[|s| - 1]];
    }
  }

  /** Trimming takes white space, and nothing else, away from both ends. */
  lemma TrimTakesSpace(s: string) returns (front: string, back: string)
    ensures s == front + Trim(s) + back && AllSpace(front) && AllSpace(back) && Trimmed(Trim(s))
  {
    front := TrimStartTakes(s);
    back := TrimEndTakes(TrimStart(s));
    TrimIsTrimmed(s);
  }

  /** Trimming gives a trimmed text, and changes exactly the others. */
  lemma TrimIsTrimmed(s: string)
    ensures Trimmed(Trim(s)) && (Trim(s) == s <==> Trimmed(s))
  {
    TrimStartEnds(s);
    TrimEndEnds(TrimStart(s));
  }

  // ------------------------------------------------------------------- fields

  /** The index of the first separator at or after `i`, or the length. */
  function IndexFrom<T(==)>(s: seq<T>, i: nat, sep: T): (j: nat)
    requires i <= |s|
    ensures i <= j <= |s|
    decreases |s| - i
  {
    if i == |s| || s[i] == sep then i else IndexFrom(s, i + 1, sep)
  }

  lemma {:induction false} IndexFromIs<T>(s: seq<T>, i: nat, sep: T, j: nat)
    requires i <= j <= |s| && sep !in s[i..j] && (j < |s| ==> s[j] == sep)
    ensures IndexFrom(s, i, sep) == j
    decreases j - i
  {
    if i < j {
      assert s[i] == s[i..j][0] && s[i + 1..j] == s[i..j][1..];
      IndexFromIs(s, i + 1, sep, j);
    }
  }

  lemma {:induction false} IndexFromSplits<T>(s: seq<T>, i: nat, sep: T)
    requires i <= |s|
    ensures var j := IndexFrom(s, i, sep); sep !in s[i..j] && (j < |s| ==> s[j] == sep)
    decreases |s| - i
  {
    var j := IndexFrom(s, i, sep);
    if i < j {
      IndexFromSplits(s, i + 1, sep);
      assert s[i..j] == [s[i]] + s[i + 1..j];
    }
  }

  lemma {:induction false} IndexFromMore<T>(s: seq<T>, i: nat, sep: T, more: seq<T>)
    requires i <= |s| && IndexFrom(s, i, sep) < |s|
    ensures IndexFrom(s + more, i, sep) == IndexFrom(s, i, sep)
    decreases |s| - i
  {
    if s[i] != sep { IndexFromMore(s, i + 1, sep, more); }
  }

  /** A field and its separator stand at `i`. */
  predicate Holds<T(==)>(s: seq<T>, i: nat, f: seq<T>, sep: T) {
    i + |f| < |s| && s[i..i + |f|] == f && s[i + |f|] == sep && sep !in f
  }

  lemma HoldsIndex<T>(s: seq<T>, i: nat, f: seq<T>, sep: T)
    requires Holds(s, i, f, sep)
    ensures IndexFrom(s, i, sep) == i + |f|
  {
    IndexFromIs(s, i, sep, i + |f|);
  }

  /** A field and the byte that ends it. */
  datatype Cell = Cell(field: Bytes, end: byte)

  /** Cells as git prints them, with `rest` after them. */
  function Print(cells: seq<Cell>, rest: Bytes): Bytes {
    if cells == [] then rest else cells[0].field + [cells[0].end] + Print(cells[1..], rest)
  }

  /** The fields that end at these separators, from `i` on, and the index after them. */
  function Take(s: Bytes, i: nat, ends: seq<byte>): (r: Option<(seq<Bytes>, nat)>)
    requires i <= |s|
    ensures r.Some? ==> |r.value.0| == |ends| && i <= r.value.1 <= |s| && (ends != [] ==> i < r.value.1)
    decreases |ends|
  {
    if ends == [] then Some(([], i)) else
    var j := IndexFrom(s, i, ends[0]);
    if j == |s| then None else
    var rest := Take(s, j + 1, ends[1..]);
    if rest == None then None else Some(([s[i..j]] + rest.value.0, rest.value.1))
  }

  function FieldsOf(cells: seq<Cell>): seq<Bytes> {
    if cells == [] then [] else [cells[0].field] + FieldsOf(cells[1..])
  }

  function EndsOf(cells: seq<Cell>): seq<byte> {
    if cells == [] then [] else [cells[0].end] + EndsOf(cells[1..])
  }

  predicate CellsFit(cells: seq<Cell>) {
    cells != [] ==> cells[0].end !in cells[0].field && CellsFit(cells[1..])
  }

  lemma TakeFirst(s: Bytes, i: nat, end: byte, ends: seq<byte>)
    requires i <= |s|
    ensures
      var j := IndexFrom(s, i, end);
      var rest := if j == |s| then None else Take(s, j + 1, ends);
      Take(s, i, [end] + ends) == if rest == None then None else Some(([s[i..j]] + rest.value.0, rest.value.1))
  {
  }

  lemma {:induction false} TakePrinted(s: Bytes, i: nat, cells: seq<Cell>, rest: Bytes)
    requires i <= |s| && s[i..] == Print(cells, rest) && CellsFit(cells)
    ensures |rest| <= |s| && s[|s| - |rest|..] == rest
    ensures Take(s, i, EndsOf(cells)) == Some((FieldsOf(cells), |s| - |rest|))
    decreases |cells|
  {
    if cells != [] {
      FirstCell(s, i, cells[0], Print(cells[1..], rest));
      TakePrinted(s, i + |cells[0].field| + 1, cells[1..], rest);
      TakeFirst(s, i, cells[0].end, EndsOf(cells[1..]));
    }
  }

  lemma FirstCell(s: Bytes, i: nat, c: Cell, rest: Bytes)
    requires i <= |s| && s[i..] == c.field + [c.end] + rest && c.end !in c.field
    ensures IndexFrom(s, i, c.end) == i + |c.field| < |s|
    ensures s[i..i + |c.field|] == c.field && s[i + |c.field| + 1..] == rest
  {
    HoldsIndex(s, i, c.field, c.end);
  }

  /** Fields that can be read do not depend on what follows them. */
  lemma {:induction false} TakeMore(s: Bytes, i: nat, ends: seq<byte>, more: Bytes)
    requires i <= |s| && Take(s, i, ends).Some?
    ensures Take(s + more, i, ends) == Take(s, i, ends)
    decreases |ends|
  {
    if ends != [] {
      IndexFromMore(s, i, ends[0], more);
      var j := IndexFrom(s, i, ends[0]);
      assert (s + more)[i..j] == s[i..j];
      TakeMore(s, j + 1, ends[1..], more);
    }
  }

  lemma TakeOne(s: Bytes, i: nat, a: byte)
    requires i <= |s|
    ensures var j := IndexFrom(s, i, a); Take(s, i, [a]) == if j == |s| then None else Some(([s[i..j]], j + 1))
  {
    assert [a][1..] == [];
    var j := IndexFrom(s, i, a);
    assert [s[i..j]] + [] == [s[i..j]];
  }

  /** The non-empty fields between separators. */
  function Split<T(==)>(s: seq<T>, sep: T): seq<seq<T>> {
    var i := IndexFrom(s, 0, sep);
    (if i == 0 then [] else [s[..i]]) + if i == |s| then [] else Split(s[i + 1..], sep)
  }

  lemma {:induction false} FieldsAreNotEmpty<T>(s: seq<T>, sep: T)
    ensures forall f | f in Split(s, sep) :: f != []
    decreases |s|
  {
    var i := IndexFrom(s, 0, sep);
    if i < |s| { FieldsAreNotEmpty(s[i + 1..], sep); }
  }

  /** A separator in front is skipped, and the last field needs none: with `SplitField`, all of `Split`. */
  lemma SplitEdges<T>(f: seq<T>, sep: T, rest: seq<T>)
    ensures Split([sep] + rest, sep) == Split(rest, sep)
    ensures sep !in f ==> Split(f, sep) == if f == [] then [] else [f]
  {
    assert ([sep] + rest)[1..] == rest;
    assert [] + Split(rest, sep) == Split(rest, sep);
    if sep !in f {
      assert f[0..|f|] == f && f[..|f|] == f;
      IndexFromIs(f, 0, sep, |f|);
      assert [f] + [] == [f];
    }
  }

  lemma SplitField<T>(f: seq<T>, sep: T, rest: seq<T>)
    requires sep !in f && f != []
    ensures Split(f + [sep] + rest, sep) == [f] + Split(rest, sep)
  {
    var s := f + [sep] + rest;
    assert s[0..|f|] == f && s[..|f|] == f && s[|f| + 1..] == rest;
    IndexFromIs(s, 0, sep, |f|);
  }

  // ------------------------------------------------------------------ numbers

  predicate IsDigit(b: byte) { 48 <= b <= 57 }

  /** The number that the bytes from `start` to `end` write; `None` if one is not a digit. */
  function Value(s: Bytes, start: nat, end: nat): Option<nat>
    requires start <= end <= |s|
    decreases end
  {
    if start == end then Some(0)
    else
      var front := Value(s, start, end - 1);
      if front.Some? && IsDigit(s[end - 1]) then Some(front.value * 10 + Digit(s[end - 1])) else None
  }

  function Digit(b: byte): nat
    requires IsDigit(b)
  {
    b as int - 48
  }

  /** `parse::<u32>()`, with zero for an error. */
  function Count(s: Bytes): nat {
    var start := if s != [] && s[0] == PLUS then 1 else 0;
    var n := Value(s, start, |s|);
    if start == |s| || n == None || n.value > U32_MAX then 0 else n.value
  }

  function Decimal(n: nat): Bytes {
    if n < 10 then [(48 + n) as byte] else Decimal(n / 10) + [(48 + n % 10) as byte]
  }

  lemma {:induction false} DecimalReads(n: nat)
    ensures Decimal(n) != [] && Value(Decimal(n), 0, |Decimal(n)|) == Some(n)
    ensures TAB !in Decimal(n) && PLUS !in Decimal(n)
  {
    if n >= 10 {
      DecimalReads(n / 10);
      ValueOfPrefix(Decimal(n / 10), [(48 + n % 10) as byte], |Decimal(n / 10)|);
    }
  }

  lemma {:induction false} ValueOfPrefix(a: Bytes, b: Bytes, end: nat)
    requires end <= |a|
    ensures Value(a + b, 0, end) == Value(a, 0, end)
  {
    if end > 0 { ValueOfPrefix(a, b, end - 1); }
  }

  // ------------------------------------------------------------------ numstat

  type Stats = map<string, (nat, nat)>

  /** A record as it stands in the output. */
  datatype Row = Row(insertions: Bytes, deletions: Bytes, path: Bytes)

  /** The record at `cursor` and the index after it; a rename has an empty path and then two. */
  function NumstatAt(s: Bytes, cursor: nat): (r: Option<(Row, nat)>)
    requires cursor <= |s|
    ensures r.Some? ==> cursor < r.value.1 <= |s|
  {
    var head := Take(s, cursor, [TAB, TAB, NUL]);
    if head == None then None else
    var f := head.value.0;
    if f[2] != [] then Some((Row(f[0], f[1], f[2]), head.value.1)) else
    var paths := Take(s, head.value.1, [NUL, NUL]);
    if paths == None then None else Some((Row(f[0], f[1], paths.value.0[1]), paths.value.1))
  }

  function Rows(s: Bytes, cursor: nat): seq<Row>
    requires cursor <= |s|
    decreases |s| - cursor
  {
    match NumstatAt(s, cursor)
    case None => []
    case Some((row, next)) => [row] + Rows(s, next)
  }

  function Put(row: Row, stats: Stats, text: Decoder): Stats {
    var path := text(row.path);
    if path == [] then stats else stats[path := (Count(row.insertions), Count(row.deletions))]
  }

  function Tally(rows: seq<Row>, stats: Stats, text: Decoder): Stats {
    if rows == [] then stats else Tally(rows[1..], Put(rows[0], stats, text), text)
  }

  /** `parse_numstat_z`. */
  method ParseNumstatZ(stdout: Bytes, text: Decoder) returns (stats: Stats)
    ensures stats == Tally(Rows(stdout, 0), map[], text)
  {
    stats := map[];
    var cursor := 0;
    while cursor < |stdout|
      invariant cursor <= |stdout|
      invariant Tally(Rows(stdout, cursor), stats, text) == Tally(Rows(stdout, 0), map[], text)
    {
      var r, next := ReadNumstat(stdout, cursor);
      if r == None { break; }
      cursor := next;
      assert ([r.value] + Rows(stdout, cursor))[1..] == Rows(stdout, cursor);
      stats := PutRow(r.value, stats, text);
    }
  }

  method PutRow(row: Row, stats: Stats, text: Decoder) returns (more: Stats)
    ensures more == Put(row, stats, text)
  {
    DashCountsNothing();
    var insertions := if row.insertions == [MINUS] then 0 else Count(row.insertions);
    var deletions := if row.deletions == [MINUS] then 0 else Count(row.deletions);
    var path := text(row.path);
    more := if path != [] then stats[path := (insertions, deletions)] else stats;
  }

  /** One turn of the loop: the record at `cursor`. */
  method ReadNumstat(stdout: Bytes, cursor: nat) returns (r: Option<Row>, next: nat)
    requires cursor <= |stdout|
    ensures NumstatAt(stdout, cursor) == if r.Some? then Some((r.value, next)) else None
  {
    r, next := ReadHead(stdout, cursor);
    if r.Some? && r.value.path == [] {
      var path;
      path, next := ReadRename(stdout, next);
      r := if next == 0 then None else Some(r.value.(path := path));
    }
  }

  /** The counts and the first path; `r` is `None` when one of them is cut off. */
  method ReadHead(stdout: Bytes, cursor: nat) returns (r: Option<Row>, next: nat)
    requires cursor <= |stdout|
    ensures r.Some? ==> next <= |stdout|
    ensures Take(stdout, cursor, [TAB, TAB, NUL])
            == if r.Some? then Some(([r.value.insertions, r.value.deletions, r.value.path], next)) else None
  {
    r, next := None, cursor;
    var insEnd := IndexFrom(stdout, cursor, TAB);
    TakeFirst(stdout, cursor, TAB, [TAB, NUL]);
    assert [TAB] + [TAB, NUL] == [TAB, TAB, NUL];
    if insEnd == |stdout| { return; }
    var ok, del, path;
    ok, del, path, next := ReadTail(stdout, insEnd + 1);
    var ins := stdout[cursor..insEnd];
    assert [ins] + [del, path] == [ins, del, path];
    if ok { r := Some(Row(ins, del, path)); }
  }

  /** The second count and the first path. */
  method ReadTail(stdout: Bytes, start: nat) returns (ok: bool, del: Bytes, path: Bytes, next: nat)
    requires start <= |stdout|
    ensures ok ==> next <= |stdout|
    ensures Take(stdout, start, [TAB, NUL]) == if ok then Some(([del, path], next)) else None
  {
    ok, del, path, next := false, [], [], start;
    var delEnd := IndexFrom(stdout, start, TAB);
    TakeFirst(stdout, start, TAB, [NUL]);
    assert [TAB] + [NUL] == [TAB, NUL];
    if delEnd == |stdout| { return; }
    var pathEnd := IndexFrom(stdout, delEnd + 1, NUL);
    TakeOne(stdout, delEnd + 1, NUL);
    if pathEnd == |stdout| { return; }
    ok, del, path, next := true, stdout[start..delEnd], stdout[delEnd + 1..pathEnd], pathEnd + 1;
    assert [del] + [path] == [del, path];
  }

  /** The new path of a rename; `next` is zero when it is cut off. */
  method ReadRename(stdout: Bytes, start: nat) returns (path: Bytes, next: nat)
    requires start <= |stdout|
    ensures var t := Take(stdout, start, [NUL, NUL]); if next == 0
            then t == None else t.Some? && t.value.0[1] == path && t.value.1 == next
  {
    path, next := [], 0;
    var oldEnd := IndexFrom(stdout, start, NUL);
    TakeFirst(stdout, start, NUL, [NUL]);
    assert [NUL] + [NUL] == [NUL, NUL];
    if oldEnd == |stdout| { return; }
    var newEnd := IndexFrom(stdout, oldEnd + 1, NUL);
    TakeOne(stdout, oldEnd + 1, NUL);
    if newEnd == |stdout| { return; }
    path, next := stdout[oldEnd + 1..newEnd], newEnd + 1;
  }

  lemma DashCountsNothing()
    ensures Count([MINUS]) == 0
  {
  }

  /** One change as git prints it: no count for a binary file, an old path for a rename. */
  datatype Numstat = Numstat(insertions: Option<nat>, deletions: Option<nat>, origin: Option<Bytes>, path: Bytes)

  predicate NumstatFits(n: Numstat) {
    n.path != [] && NUL !in n.path && (n.origin.Some? ==> NUL !in n.origin.value)
  }

  function PrintCount(n: Option<nat>): Bytes {
    if n.Some? then Decimal(n.value) else [MINUS]
  }

  /** The record as git prints it, with `rest` after it. */
  function PrintNumstat(n: Numstat, rest: Bytes): Bytes {
    PrintRow(RowOf(n), n.origin, rest)
  }

  function RowOf(n: Numstat): Row {
    Row(PrintCount(n.insertions), PrintCount(n.deletions), n.path)
  }

  function PrintRow(row: Row, origin: Option<Bytes>, rest: Bytes): Bytes {
    match origin
    case None => Print(HeadCells(row, row.path), rest)
    case Some(from) => Print(HeadCells(row, []), Print([Cell(from, NUL), Cell(row.path, NUL)], rest))
  }

  function HeadCells(row: Row, path: Bytes): seq<Cell> {
    [Cell(row.insertions, TAB), Cell(row.deletions, TAB), Cell(path, NUL)]
  }

  function PrintNumstats(ns: seq<Numstat>, rest: Bytes): Bytes {
    if ns == [] then rest else PrintNumstat(ns[0], PrintNumstats(ns[1..], rest))
  }

  /** What a count is worth to the parser. */
  function Kept(n: Option<nat>): nat {
    if n.Some? && n.value <= U32_MAX then n.value else 0
  }

  lemma CountOfPrinted(n: Option<nat>)
    ensures TAB !in PrintCount(n) && Count(PrintCount(n)) == Kept(n)
  {
    DashCountsNothing();
    if n.Some? { DecimalReads(n.value); }
  }

  /** The last record of each path, as the parser decodes it. */
  function Latest(ns: seq<Numstat>, stats: Stats, text: Decoder): Stats {
    if ns == [] then stats
    else Latest(ns[1..], Counted(ns[0], stats, text), text)
  }

  lemma HeadTakes(s: Bytes, i: nat, row: Row, path: Bytes, rest: Bytes)
    requires TAB !in row.insertions && TAB !in row.deletions && NUL !in path
    requires i <= |s| && s[i..] == Print(HeadCells(row, path), rest)
    ensures |rest| <= |s| && s[|s| - |rest|..] == rest
    ensures Take(s, i, [TAB, TAB, NUL]) == Some(([row.insertions, row.deletions, path], |s| - |rest|))
  {
    var a, b, c := Cell(row.insertions, TAB), Cell(row.deletions, TAB), Cell(path, NUL);
    TwoCells(b, c);
    assert CellsFit([a, b, c]) by { assert CellsFit([b, c]); assert [a, b, c][1..] == [b, c]; }
    assert [a, b, c][1..] == [b, c];
    assert EndsOf([a, b, c]) == [a.end] + EndsOf([b, c]) == [TAB, TAB, NUL];
    assert FieldsOf([a, b, c]) == [a.field] + FieldsOf([b, c]) == [row.insertions, row.deletions, path];
    TakePrinted(s, i, [a, b, c], rest);
  }

  lemma TwoCells(a: Cell, b: Cell)
    ensures FieldsOf([a, b]) == [a.field, b.field] && EndsOf([a, b]) == [a.end, b.end]
    ensures CellsFit([a, b]) <==> a.end !in a.field && b.end !in b.field
  {
    assert [a, b][1..] == [b] && [b][1..] == [];
    assert CellsFit([b]) <==> b.end !in b.field;
    assert FieldsOf([b]) == [b.field] && EndsOf([b]) == [b.end];
  }

  lemma RenameTakes(s: Bytes, i: nat, from: Bytes, path: Bytes, rest: Bytes)
    requires NUL !in from && NUL !in path
    requires i <= |s| && s[i..] == Print([Cell(from, NUL), Cell(path, NUL)], rest)
    ensures |rest| <= |s| && s[|s| - |rest|..] == rest
    ensures Take(s, i, [NUL, NUL]) == Some(([from, path], |s| - |rest|))
  {
    TwoCells(Cell(from, NUL), Cell(path, NUL));
    TakePrinted(s, i, [Cell(from, NUL), Cell(path, NUL)], rest);
  }

  function Counted(n: Numstat, stats: Stats, text: Decoder): Stats {
    stats[text(n.path) := (Kept(n.insertions), Kept(n.deletions))]
  }

  /** A printed row is read back, and what follows it is left. */
  lemma RowReads(s: Bytes, cursor: nat, row: Row, origin: Option<Bytes>, rest: Bytes)
    requires TAB !in row.insertions && TAB !in row.deletions && PathFits(row.path)
             && (origin.Some? ==> NUL !in origin.value)
    requires cursor <= |s| && s[cursor..] == PrintRow(row, origin, rest)
    ensures |rest| <= |s| && s[|s| - |rest|..] == rest
    ensures NumstatAt(s, cursor) == Some((row, |s| - |rest|))
  {
    match origin
    case None =>
      HeadTakes(s, cursor, row, row.path, rest);
    case Some(from) =>
      var paths := Print([Cell(from, NUL), Cell(row.path, NUL)], rest);
      HeadTakes(s, cursor, row, [], paths);
      RenameTakes(s, |s| - |paths|, from, row.path, rest);
  }

  lemma PrintedReads(s: Bytes, cursor: nat, n: Numstat, rest: Bytes)
    requires NumstatFits(n) && cursor <= |s| && s[cursor..] == PrintNumstat(n, rest)
    ensures |rest| <= |s| && s[|s| - |rest|..] == rest
    ensures NumstatAt(s, cursor) == Some((RowOf(n), |s| - |rest|))
  {
    CountOfPrinted(n.insertions);
    CountOfPrinted(n.deletions);
    RowReads(s, cursor, RowOf(n), n.origin, rest);
  }

  /** The rows of these records, and `tail` after them. */
  function RowsOf(ns: seq<Numstat>, tail: seq<Row>): seq<Row> {
    if ns == [] then tail else [RowOf(ns[0])] + RowsOf(ns[1..], tail)
  }

  lemma PrintedRows(s: Bytes, cursor: nat, n: Numstat, rest: Bytes)
    requires NumstatFits(n) && cursor <= |s| && s[cursor..] == PrintNumstat(n, rest)
    ensures |rest| <= |s| && s[|s| - |rest|..] == rest && Rows(s, cursor) == [RowOf(n)] + Rows(s, |s| - |rest|)
  {
    PrintedReads(s, cursor, n, rest);
  }

  /** What follows the printed records is read on its own. */
  lemma {:induction false} NumstatsThen(s: Bytes, cursor: nat, ns: seq<Numstat>, rest: Bytes)
    requires forall n | n in ns :: NumstatFits(n)
    requires cursor <= |s| && s[cursor..] == PrintNumstats(ns, rest)
    ensures |rest| <= |s| && s[|s| - |rest|..] == rest
    ensures Rows(s, cursor) == RowsOf(ns, Rows(s, |s| - |rest|))
    decreases |ns|
  {
    if ns != [] {
      var others := PrintNumstats(ns[1..], rest);
      PrintedRows(s, cursor, ns[0], others);
      NumstatsThen(s, |s| - |others|, ns[1..], rest);
    }
  }

  /** The last count of every path stays. */
  lemma {:induction false} RowsTally(ns: seq<Numstat>, stats: Stats, text: Decoder)
    requires Lossy(text) && forall n | n in ns :: NumstatFits(n)
    ensures Tally(RowsOf(ns, []), stats, text) == Latest(ns, stats, text)
  {
    if ns != [] {
      CountOfPrinted(ns[0].insertions);
      CountOfPrinted(ns[0].deletions);
      assert NumstatFits(ns[0]) by { assert ns[0] in ns; }
      assert ReadsAsText(text, ns[0].path);
      assert RowsOf(ns, [])[1..] == RowsOf(ns[1..], []);
      RowsTally(ns[1..], Counted(ns[0], stats, text), text);
    }
  }

  /** A record that can be read does not depend on what follows. */
  lemma RecordMore(s: Bytes, cursor: nat, more: Bytes)
    requires cursor <= |s| && NumstatAt(s, cursor).Some?
    ensures NumstatAt(s + more, cursor) == NumstatAt(s, cursor)
  {
    TakeMore(s, cursor, [TAB, TAB, NUL], more);
    var head := Take(s, cursor, [TAB, TAB, NUL]).value;
    if head.0[2] == [] { TakeMore(s, head.1, [NUL, NUL], more); }
  }

  /** A record cut short anywhere is not read. */
  lemma CutRecord(s: Bytes, cursor: nat, n: Numstat, cut: nat)
    requires NumstatFits(n) && cut < |PrintNumstat(n, [])|
    requires cursor <= |s| && s[cursor..] == PrintNumstat(n, [])[..cut]
    ensures NumstatAt(s, cursor) == None
  {
    var whole := s + PrintNumstat(n, [])[cut..];
    assert whole[cursor..] == s[cursor..] + PrintNumstat(n, [])[cut..] == PrintNumstat(n, []);
    PrintedReads(whole, cursor, n, []);
    if NumstatAt(s, cursor).Some? { RecordMore(s, cursor, PrintNumstat(n, [])[cut..]); }
  }

  /** Reading what git printed gives the records; output cut off inside a record loses that record only. */
  lemma NumstatRowsRoundTrip(ns: seq<Numstat>, last: Numstat, cut: nat)
    requires NumstatFits(last) && cut < |PrintNumstat(last, [])| && forall n | n in ns :: NumstatFits(n)
    ensures Rows(PrintNumstats(ns, PrintNumstat(last, [])[..cut]), 0) == RowsOf(ns, [])
  {
    var torn := PrintNumstats(ns, PrintNumstat(last, [])[..cut]);
    assert torn[0..] == torn;
    NumstatsThen(torn, 0, ns, PrintNumstat(last, [])[..cut]);
    CutRecord(torn, |torn| - cut, last, cut);
  }

  lemma WholeRows(ns: seq<Numstat>)
    requires forall n | n in ns :: NumstatFits(n)
    ensures Rows(PrintNumstats(ns, []), 0) == RowsOf(ns, [])
  {
    var whole := PrintNumstats(ns, []);
    assert whole[0..] == whole;
    NumstatsThen(whole, 0, ns, []);
    assert NumstatAt(whole, |whole|) == None;
  }

  /** Printing and parsing gives every path its last record, renames under their new path. */
  lemma NumstatRoundTrip(ns: seq<Numstat>, text: Decoder)
    requires Lossy(text) && forall n | n in ns :: NumstatFits(n)
    ensures Tally(Rows(PrintNumstats(ns, []), 0), map[], text) == Latest(ns, map[], text)
    ensures forall p :: p in Latest(ns, map[], text) <==> exists n :: n in ns && text(n.path) == p
  {
    LatestKeys(ns, map[], text);
    WholeRows(ns);
    RowsTally(ns, map[], text);
  }

  /** `Latest` in plain words: the record after which no other has its path. */
  lemma {:induction false} LatestIsLast(ns: seq<Numstat>, stats: Stats, text: Decoder, k: nat)
    requires k < |ns| && forall j | k < j < |ns| :: text(ns[j].path) != text(ns[k].path)
    ensures text(ns[k].path) in Latest(ns, stats, text)
    ensures Latest(ns, stats, text)[text(ns[k].path)] == (Kept(ns[k].insertions), Kept(ns[k].deletions))
  {
    var next := Counted(ns[0], stats, text);
    if k == 0 {
      LatestKeeps(ns[1..], next, text, text(ns[0].path));
    } else {
      LatestIsLast(ns[1..], next, text, k - 1);
    }
  }

  /** And nothing else is in it: its keys are those before and the paths of the records. */
  lemma {:induction false} LatestKeys(ns: seq<Numstat>, stats: Stats, text: Decoder)
    ensures forall p :: p in Latest(ns, stats, text) <==> p in stats || exists n :: n in ns && text(n.path) == p
  {
    if ns != [] {
      LatestKeys(ns[1..], Counted(ns[0], stats, text), text);
      assert ns == [ns[0]] + ns[1..];
    }
  }

  lemma {:induction false} LatestKeeps(ns: seq<Numstat>, stats: Stats, text: Decoder, path: string)
    requires path in stats && forall n | n in ns :: text(n.path) != path
    ensures path in Latest(ns, stats, text) && Latest(ns, stats, text)[path] == stats[path]
  {
    if ns != [] {
      LatestKeeps(ns[1..], Counted(ns[0], stats, text), text, path);
    }
  }

  /** On any input: no path of the tally is empty, and every one is that of a row, with that row's counts. */
  lemma {:induction false} TallyIsOfRows(rows: seq<Row>, stats: Stats, text: Decoder)
    requires "" !in stats
    ensures "" !in Tally(rows, stats, text)
    ensures forall p :: p in Tally(rows, stats, text) ==>
              || (p in stats && Tally(rows, stats, text)[p] == stats[p])
              || exists r :: r in rows && text(r.path) == p
                             && Tally(rows, stats, text)[p] == (Count(r.insertions), Count(r.deletions))
  {
    if rows != [] {
      var next := Put(rows[0], stats, text);
      TallyIsOfRows(rows[1..], next, text);
      assert rows == [rows[0]] + rows[1..];
    }
  }

  predicate AllDigits(s: Bytes) {
    forall b | b in s :: 48 <= b <= 57
  }

  lemma {:induction false} ValueWhen(s: Bytes, start: nat, end: nat)
    requires start <= end <= |s|
    ensures Value(s, start, end).Some? <==> AllDigits(s[start..end])
    decreases end
  {
    if start < end {
      ValueWhen(s, start, end - 1);
      assert s[start..end] == s[start..end - 1] + [s[end - 1]];
      OneMoreDigit(s[start..end - 1], s[end - 1]);
    }
  }

  lemma OneMoreDigit(s: Bytes, b: byte)
    ensures AllDigits(s + [b]) <==> AllDigits(s) && IsDigit(b)
  {
    assert b in s + [b] && forall c | c in s :: c in s + [b];
  }

  /** A count that is not a sign, if any, and digits, counts nothing; nor does one beyond 32 bits. */
  lemma CountMeaning(s: Bytes)
    ensures
      var digits := if s != [] && s[0] == 43 then s[1..] else s;
      if digits == [] || !AllDigits(digits) then Count(s) == 0
      else Value(digits, 0, |digits|).Some? && Count(s) == Kept(Value(digits, 0, |digits|))
  {
    var start := if s != [] && s[0] == PLUS then 1 else 0;
    var digits := s[start..];
    ValueWhen(s, start, |s|);
    ValueWhen(digits, 0, |digits|);
    assert digits[0..|digits|] == digits == s[start..|s|];
    ValueShifts(s, start, |s|);
  }

  lemma {:induction false} ValueShifts(s: Bytes, start: nat, end: nat)
    requires start <= end <= |s|
    ensures Value(s, start, end) == Value(s[start..], 0, end - start)
    decreases end
  {
    if start < end { ValueShifts(s, start, end - 1); }
  }

  // -------------------------------------------------------------- name-status

  datatype NameStatus = NameStatus(status: string, path: string, origin: Option<string>)

  predicate StartsRename(status: string) {
    status != [] && (status[0] == 'R' || status[0] == 'C')
  }

  /** The entry at `index` and the index after it. */
  function NameStatusAt(fields: seq<string>, index: nat): (r: Option<(NameStatus, nat)>)
    requires index <= |fields|
    ensures r.Some? ==> index < r.value.1 <= |fields|
  {
    var raw := if index < |fields| then Trim(fields[index]) else [];
    if raw == [] || index + 1 == |fields| then None
    else if StartsRename(raw) && index + 2 < |fields| then
      Some((NameStatus(raw[..1], fields[index + 2], Some(fields[index + 1])), index + 3))
    else Some((NameStatus(raw[..1], fields[index + 1], None), index + 2))
  }

  function NameStatusFrom(fields: seq<string>, index: nat): seq<NameStatus>
    requires index <= |fields|
    decreases |fields| - index
  {
    match NameStatusAt(fields, index)
    case None => []
    case Some((entry, next)) => [entry] + NameStatusFrom(fields, next)
  }

  /** `parse_name_status_z`. */
  method ParseNameStatusZ(stdout: Bytes, text: Decoder) returns (entries: seq<NameStatus>)
    ensures entries == NameStatusFrom(Split(text(stdout), '\0'), 0)
  {
    var fields := Split(text(stdout), '\0');
    FieldsAreNotEmpty(text(stdout), '\0');
    entries := [];
    var index := 0;
    while index < |fields|
      invariant index <= |fields|
      invariant entries + NameStatusFrom(fields, index) == NameStatusFrom(fields, 0)
    {
      NameStatusUnfolds(fields, index, entries);
      var raw := Trim(fields[index]);
      index := index + 1;
      if raw == [] || index >= |fields| { break; }
      var path := fields[index];
      var origin := None;
      index := index + 1;
      if StartsRename(raw) && index < |fields| {
        origin := Some(path);
        path := fields[index];
        index := index + 1;
      }
      assert path in fields;
      if path == [] { continue; }
      entries := entries + [NameStatus(raw[..1], path, origin)];
    }
  }

  lemma NameStatusUnfolds(fields: seq<string>, index: nat, done: seq<NameStatus>)
    requires index <= |fields|
    ensures done + NameStatusFrom(fields, index)
            == match NameStatusAt(fields, index)
               case None => done
               case Some((entry, next)) => (done + [entry]) + NameStatusFrom(fields, next)
  {
  }

  /** One change as git prints it; a rename or a copy has an old path, and a score after its letter. */
  datatype Change = Change(status: Bytes, origin: Option<Bytes>, path: Bytes)

  predicate PathFits(path: Bytes) { path != [] && NUL !in path }

  predicate ChangeFits(c: Change, text: Decoder) {
    && c.status != [] && NUL !in c.status && Trimmed(text(c.status))
    && PathFits(c.path) && (c.origin.Some? ==> PathFits(c.origin.value))
    && (c.origin.Some? <==> "R" <= text(c.status) || "C" <= text(c.status))
  }

  function ChangeFields(c: Change): seq<Bytes> {
    match c.origin
    case None => [c.status, c.path]
    case Some(origin) => [c.status, origin, c.path]
  }

  function AllFields(cs: seq<Change>): seq<Bytes> {
    if cs == [] then [] else ChangeFields(cs[0]) + AllFields(cs[1..])
  }

  /** Fields with a NUL after each. */
  function Terminated(fields: seq<Bytes>): Bytes {
    if fields == [] then [] else fields[0] + [NUL] + Terminated(fields[1..])
  }

  function Texts(fields: seq<Bytes>, text: Decoder): seq<string> {
    if fields == [] then [] else [text(fields[0])] + Texts(fields[1..], text)
  }

  lemma {:induction false} TerminatedSplit(fields: seq<Bytes>)
    requires forall f | f in fields :: PathFits(f)
    ensures Split(Terminated(fields), NUL) == fields
  {
    if fields != [] {
      assert PathFits(fields[0]) by { assert fields[0] in fields; }
      SplitField(fields[0], NUL, Terminated(fields[1..]));
      TerminatedSplit(fields[1..]);
    }
  }

  lemma {:induction false} TerminatedReads(fields: seq<Bytes>, text: Decoder)
    requires Lossy(text) && forall f | f in fields :: PathFits(f)
    ensures Split(text(Terminated(fields)), '\0') == Texts(fields, text)
  {
    if fields != [] {
      TextField(fields[0], Terminated(fields[1..]), text);
      TerminatedReads(fields[1..], text);
    }
  }

  lemma {:induction false} TextsOf(fields: seq<Bytes>, more: seq<Bytes>, text: Decoder)
    ensures Texts(fields + more, text) == Texts(fields, text) + Texts(more, text) && |Texts(fields, text)| == |fields|
  {
    if fields == [] {
      assert fields + more == more;
    } else {
      assert (fields + more)[1..] == fields[1..] + more;
      TextsOf(fields[1..], more, text);
    }
  }

  lemma {:induction false} ChangeFieldsFit(cs: seq<Change>, text: Decoder)
    requires forall c | c in cs :: ChangeFits(c, text)
    ensures forall f | f in AllFields(cs) :: PathFits(f)
  {
    if cs != [] {
      ChangeFieldsFit(cs[1..], text);
      assert ChangeFits(cs[0], text) by { assert cs[0] in cs; }
      assert forall f | f in ChangeFields(cs[0]) :: PathFits(f);
    }
  }

  function ChangeEntry(c: Change, text: Decoder): NameStatus {
    NameStatus(FirstChar(text(c.status)), text(c.path), if c.origin.Some? then Some(text(c.origin.value)) else None)
  }

  function FirstChar(s: string): string {
    if s == [] then [] else [s[0]]
  }

  function ChangeEntries(cs: seq<Change>, text: Decoder): seq<NameStatus> {
    if cs == [] then [] else [ChangeEntry(cs[0], text)] + ChangeEntries(cs[1..], text)
  }

  lemma TextField(f: Bytes, rest: Bytes, text: Decoder)
    requires Lossy(text) && PathFits(f)
    ensures Split(text(f + [NUL] + rest), '\0') == [text(f)] + Split(text(rest), '\0')
  {
    assert AsciiStands(text, f, NUL, rest) && ReadsAsText(text, f);
    SplitField(text(f), '\0', text(rest));
  }

  lemma ChangeReads(fields: seq<string>, index: nat, c: Change, text: Decoder)
    requires Lossy(text) && ChangeFits(c, text) && index + |ChangeFields(c)| <= |fields|
    requires fields[index..index + |ChangeFields(c)|] == Texts(ChangeFields(c), text)
    ensures NameStatusAt(fields, index) == Some((ChangeEntry(c, text), index + |ChangeFields(c)|))
  {
    assert ReadsAsText(text, c.status);
    TrimIsTrimmed(text(c.status));
    ThreeTexts(c, text);
    var mine := fields[index..index + |ChangeFields(c)|];
    assert fields[index] == mine[0] && fields[index + 1] == mine[1];
    if c.origin.Some? { assert fields[index + 2] == mine[2]; }
    assert text(c.status)[..1] == FirstChar(text(c.status));
  }

  lemma ThreeTexts(c: Change, text: Decoder)
    ensures Texts(ChangeFields(c), text)
            == [text(c.status)] + if c.origin.Some? then [text(c.origin.value), text(c.path)] else [text(c.path)]
  {
    TwoTexts(c.status, c.path, text);
    if c.origin.Some? {
      TwoTexts(c.origin.value, c.path, text);
      assert [c.status, c.origin.value, c.path][1..] == [c.origin.value, c.path];
    }
  }

  lemma TwoTexts(a: Bytes, b: Bytes, text: Decoder)
    ensures Texts([a, b], text) == [text(a), text(b)]
  {
    assert [a, b][1..] == [b] && [b][1..] == [];
    assert Texts([b], text) == [text(b)];
  }

  predicate AllFit(cs: seq<Change>, text: Decoder) {
    cs == [] || (ChangeFits(cs[0], text) && AllFit(cs[1..], text))
  }

  lemma {:induction false} EachFits(cs: seq<Change>, text: Decoder)
    requires forall c | c in cs :: ChangeFits(c, text)
    ensures AllFit(cs, text)
  {
    if cs != [] {
      assert cs[0] in cs;
      EachFits(cs[1..], text);
    }
  }

  lemma {:induction false} ChangesRead(fields: seq<string>, index: nat, cs: seq<Change>, text: Decoder)
    requires Lossy(text) && AllFit(cs, text)
    requires index <= |fields| && fields[index..] == Texts(AllFields(cs), text)
    ensures NameStatusFrom(fields, index) == ChangeEntries(cs, text)
    decreases |cs|
  {
    if cs != [] {
      ChangeStep(fields, index, cs[0], AllFields(cs[1..]), text);
      ChangesRead(fields, index + |ChangeFields(cs[0])|, cs[1..], text);
      assert ChangeEntries(cs, text) == [ChangeEntry(cs[0], text)] + ChangeEntries(cs[1..], text);
    }
  }

  lemma ChangeStep(fields: seq<string>, index: nat, c: Change, rest: seq<Bytes>, text: Decoder)
    requires Lossy(text) && ChangeFits(c, text) && index <= |fields|
             && fields[index..] == Texts(ChangeFields(c) + rest, text)
    ensures
      var next := index + |ChangeFields(c)|;
      && next <= |fields| && fields[next..] == Texts(rest, text)
      && NameStatusFrom(fields, index) == [ChangeEntry(c, text)] + NameStatusFrom(fields, next)
  {
    TextsOf(ChangeFields(c), rest, text);
    assert fields[index..][|ChangeFields(c)|..] == Texts(rest, text);
    assert fields[index..][..|ChangeFields(c)|] == Texts(ChangeFields(c), text);
    ChangeReads(fields, index, c, text);
  }

  /** Printing and parsing gives every change back: its letter, its path and a rename's old path. */
  lemma NameStatusRoundTrip(cs: seq<Change>, text: Decoder)
    requires Lossy(text) && forall c | c in cs :: ChangeFits(c, text)
    ensures NameStatusFrom(Split(text(Terminated(AllFields(cs))), '\0'), 0) == ChangeEntries(cs, text)
  {
    ChangeFieldsFit(cs, text);
    TerminatedReads(AllFields(cs), text);
    var fields := Texts(AllFields(cs), text);
    assert fields[0..] == fields;
    EachFits(cs, text);
    ChangesRead(fields, 0, cs, text);
  }

  /** On any input: what stands in a status's place ends the list when it is white space or the last field. */
  lemma ListEndsAt(fields: seq<string>, index: nat)
    requires index <= |fields|
    ensures NameStatusFrom(fields, index) == []
            <==> index + 1 >= |fields| || AllSpace(fields[index])
  {
    if index < |fields| {
      var front, back := TrimTakesSpace(fields[index]);
    }
  }

  /** Output cut off after the old path of a rename reads as a change of the old path. */
  lemma CutRenameReadsAsChange(status: Bytes, origin: Bytes, text: Decoder)
    requires Lossy(text) && PathFits(status) && PathFits(origin) && StartsRename(Trim(text(status)))
    ensures NameStatusFrom(Split(text(Terminated([status, origin])), '\0'), 0)
            == [NameStatus(FirstChar(Trim(text(status))), text(origin), None)]
  {
    TerminatedReads([status, origin], text);
    TwoTexts(status, origin, text);
    assert Trim(text(status))[..1] == FirstChar(Trim(text(status)));
    assert NameStatusFrom([text(status), text(origin)], 2) == [];
  }

  // ---------------------------------------------------------------- porcelain

  datatype Porcelain = Porcelain(index: char, worktree: char, path: string)

  /** UTF-8 length of a character. */
  function Width(c: char): nat {
    if c < '\U{80}' then 1 else if c < '\U{800}' then 2 else if c < '\U{10000}' then 3 else 4
  }

  /** `get(n..)`: the text from byte `n`, if that is a character boundary. */
  function FromByte(s: string, n: nat): Option<string>
    decreases |s|
  {
    if n == 0 then Some(s)
    else if s == [] || Width(s[0]) > n then None
    else FromByte(s[1..], n - Width(s[0]))
  }

  /** How many bytes a text takes. */
  function Size(s: string): nat {
    if s == [] then 0 else |HeadTailFit.Encode(s[0] as int)| + Size(s[1..])
  }

  /** `t` stands behind the first `k` characters, and these take `n` bytes. */
  predicate BehindAt(s: string, n: int, t: string, k: nat) {
    k <= |s| && Size(s[..k]) == n && t == s[k..]
  }

  lemma BehindNext(s: string, n: int, t: string, k: nat)
    requires s != [] && k > 0
    ensures BehindAt(s, n, t, k) <==> BehindAt(s[1..], n - Width(s[0]), t, k - 1)
  {
    if k <= |s| {
      assert s[..k][1..] == s[1..][..k - 1] && s[..k][0] == s[0];
      assert s[1..][k - 1..] == s[k..];
    }
  }

  /** What stands behind the first `n` bytes, unless they end inside a character or beyond the text. */
  lemma {:induction false} FromByteMeaning(s: string, n: nat, t: string)
    ensures FromByte(s, n) == Some(t) <==> exists k: nat :: BehindAt(s, n, t, k)
    decreases |s|
  {
    assert s[..0] == [] && s[0..] == s;
    assert BehindAt(s, n, t, 0) <==> n == 0 && t == s;
    if n > 0 && s != [] {
      forall k: nat | k > 0 ensures BehindAt(s, n, t, k) <==> BehindAt(s[1..], n - Width(s[0]), t, k - 1) {
        BehindNext(s, n, t, k);
      }
      var rest, left := s[1..], n - Width(s[0]);
      if left >= 0 {
        FromByteMeaning(rest, left, t);
        if k: nat :| BehindAt(rest, left, t, k) { assert BehindAt(s, n, t, k + 1); }
      }
    }
  }

  predicate Moves(c: char) { c == 'R' || c == 'C' }

  /** One field: nothing, or an entry. */
  function PorcelainField(field: Bytes, text: Decoder): Option<Porcelain> {
    if |field| < 3 then None else
    var header := text(field);
    var tail := FromByte(header, 3);
    var path := if tail.Some? then Trim(tail.value) else [];
    if path == [] then None
    else Some(Porcelain(if header != [] then header[0] else ' ', if |header| > 1 then header[1] else ' ', path))
  }

  /** How many fields an entry takes: a rename or a copy has its origin in the next field, if any. */
  function Taken(e: Option<Porcelain>, left: nat): nat {
    if e.Some? && (Moves(e.value.index) || Moves(e.value.worktree)) && left > 1 then 2 else 1
  }

  type Reader = Bytes -> Option<Porcelain>

  function Read(text: Decoder): Reader {
    field => PorcelainField(field, text)
  }

  function PorcelainFrom(fields: seq<Bytes>, next: nat, read: Reader): seq<Porcelain>
    requires next <= |fields|
    decreases |fields| - next
  {
    if next == |fields| then []
    else
      var e := read(fields[next]);
      (if e.Some? then [e.value] else []) + PorcelainFrom(fields, next + Taken(e, |fields| - next), read)
  }

  /** `parse_git_status_porcelain_z`. */
  method ParseGitStatusPorcelainZ(stdout: Bytes, text: Decoder) returns (entries: seq<Porcelain>)
    ensures entries == PorcelainFrom(Split(stdout, NUL), 0, Read(text))
  {
    entries := ReadFields(Split(stdout, NUL), Read(text));
  }

  method ReadFields(fields: seq<Bytes>, read: Reader) returns (entries: seq<Porcelain>)
    ensures entries == PorcelainFrom(fields, 0, read)
  {
    entries := [];
    var next := 0;
    while next < |fields|
      invariant next <= |fields|
      invariant entries + PorcelainFrom(fields, next, read) == PorcelainFrom(fields, 0, read)
    {
      PorcelainUnfolds(fields, next, read, entries);
      var e := read(fields[next]);
      next := next + 1;
      if e == None { continue; }
      entries := entries + [e.value];
      if (Moves(e.value.index) || Moves(e.value.worktree)) && next < |fields| { next := next + 1; }
    }
  }

  lemma PorcelainUnfolds(fields: seq<Bytes>, next: nat, read: Reader, done: seq<Porcelain>)
    requires next < |fields|
    ensures
      var e := read(fields[next]);
      done + PorcelainFrom(fields, next, read)
      == (if e.Some? then done + [e.value] else done)
         + PorcelainFrom(fields, next + Taken(e, |fields| - next), read)
  {
  }

  /** One line of `git status --porcelain -z`. */
  datatype Status = Status(index: byte, worktree: byte, path: Bytes, origin: Option<Bytes>)

  predicate StatusFits(s: Status) {
    && 0 < s.index < 128 && 0 < s.worktree < 128
    && PathFits(s.path) && (s.origin.Some? ==> PathFits(s.origin.value))
    && (s.origin.Some? <==> s.index == 82 || s.index == 67 || s.worktree == 82 || s.worktree == 67)
  }

  function Head(s: Status): Bytes {
    [s.index, s.worktree, 32] + s.path
  }

  function StatusEntry(s: Status, text: Decoder): Porcelain {
    Porcelain(s.index as char, s.worktree as char, text(s.path))
  }

  function StatusEntries(ss: seq<Status>, text: Decoder): seq<Porcelain> {
    if ss == [] then []
    else [StatusEntry(ss[0], text)] + StatusEntries(ss[1..], text)
  }

  lemma HeaderReads(s: Status, text: Decoder)
    requires Lossy(text) && StatusFits(s)
    ensures text(Head(s)) == [s.index as char, s.worktree as char, ' '] + text(s.path)
    ensures FromByte(text(Head(s)), 3) == Some(text(s.path))
  {
    var two, three := [s.worktree] + ([32] + s.path), [32] + s.path;
    assert Head(s) == [] + [s.index] + two;
    assert two == [] + [s.worktree] + three && three == [] + [32] + s.path;
    assert AsciiStands(text, [], s.index, two) && AsciiStands(text, [], s.worktree, three)
      && AsciiStands(text, [], 32, s.path);
    var header := text(Head(s));
    assert header == [s.index as char, s.worktree as char, ' '] + text(s.path);
    ThreeBytes(header, s.index as char, s.worktree as char, text(s.path));
  }

  lemma ThreeBytes(header: string, a: char, b: char, t: string)
    requires header == [a, b, ' '] + t && a < '\U{80}' && b < '\U{80}'
    ensures FromByte(header, 3) == Some(t)
  {
    var two, one := [b, ' '] + t, [' '] + t;
    assert header == [a] + two && two == [b] + one;
    FromByteNext(header, a, two, 3);
    FromByteNext(two, b, one, 2);
    FromByteNext(one, ' ', t, 1);
  }

  lemma FromByteNext(s: string, c: char, rest: string, n: nat)
    requires s == [c] + rest && c < '\U{80}' && n > 0
    ensures s[1..] == rest && FromByte(s, n) == FromByte(rest, n - 1)
  {
  }

  lemma StatusField(s: Status, text: Decoder)
    requires Lossy(text) && StatusFits(s) && Trimmed(text(s.path))
    ensures PorcelainField(Head(s), text) == Some(StatusEntry(s, text))
  {
    HeaderReads(s, text);
    TrimIsTrimmed(text(s.path));
    assert ReadsAsText(text, s.path);
  }

  function StatusFields(s: Status): seq<Bytes> {
    [Head(s)] + if s.origin.Some? then [s.origin.value] else []
  }

  function AllStatusFields(ss: seq<Status>): seq<Bytes> {
    if ss == [] then [] else StatusFields(ss[0]) + AllStatusFields(ss[1..])
  }

  lemma {:induction false} StatusFieldsFit(ss: seq<Status>)
    requires forall s | s in ss :: StatusFits(s)
    ensures forall f | f in AllStatusFields(ss) :: PathFits(f)
  {
    if ss != [] {
      StatusFieldsFit(ss[1..]);
      assert StatusFits(ss[0]) by { assert ss[0] in ss; }
      assert forall f | f in StatusFields(ss[0]) :: PathFits(f);
    }
  }

  predicate IsRead(s: Status, text: Decoder, read: Reader) {
    StatusFits(s) && read(Head(s)) == Some(StatusEntry(s, text))
  }

  predicate AllRead(ss: seq<Status>, text: Decoder, read: Reader) {
    ss == [] || (IsRead(ss[0], text, read) && AllRead(ss[1..], text, read))
  }

  lemma {:induction false} EachIsRead(ss: seq<Status>, text: Decoder)
    requires Lossy(text) && forall s | s in ss :: StatusFits(s) && Trimmed(text(s.path))
    ensures AllRead(ss, text, Read(text))
  {
    if ss != [] {
      assert ss[0] in ss;
      StatusField(ss[0], text);
      EachIsRead(ss[1..], text);
    }
  }

  lemma {:induction false} StatusesRead(fields: seq<Bytes>, next: nat, ss: seq<Status>, text: Decoder, read: Reader)
    requires AllRead(ss, text, read)
    requires next <= |fields| && fields[next..] == AllStatusFields(ss)
    ensures PorcelainFrom(fields, next, read) == StatusEntries(ss, text)
    decreases |ss|
  {
    if ss != [] {
      StatusReads(fields, next, ss[0], AllStatusFields(ss[1..]), text, read);
      StatusesRead(fields, next + |StatusFields(ss[0])|, ss[1..], text, read);
    }
  }

  lemma StatusReads(fields: seq<Bytes>, next: nat, s: Status, rest: seq<Bytes>, text: Decoder, read: Reader)
    requires IsRead(s, text, read) && next <= |fields| && fields[next..] == StatusFields(s) + rest
    ensures
      var after := next + |StatusFields(s)|;
      && next < after <= |fields| && fields[after..] == rest
      && PorcelainFrom(fields, next, read) == [StatusEntry(s, text)] + PorcelainFrom(fields, after, read)
  {
    assert fields[next] == fields[next..][0];
    assert fields[next + |StatusFields(s)|..] == fields[next..][|StatusFields(s)|..] == rest;
  }

  lemma {:induction false} StatusEntryAt(ss: seq<Status>, text: Decoder, s: Status)
    requires s in ss
    ensures exists e :: e in StatusEntries(ss, text) && e.path == text(s.path)
  {
    if s == ss[0] {
      assert StatusEntries(ss, text)[0].path == text(s.path);
    } else {
      StatusEntryAt(ss[1..], text, s);
      var e :| e in StatusEntries(ss[1..], text) && e.path == text(s.path);
      assert e in StatusEntries(ss, text);
    }
  }

  /** Whatever the input, every entry has a path, without white space around it. */
  lemma {:induction false} EntriesAreTrimmed(fields: seq<Bytes>, next: nat, text: Decoder)
    requires next <= |fields|
    ensures forall e | e in PorcelainFrom(fields, next, Read(text)) :: e.path != [] && Trimmed(e.path)
    decreases |fields| - next
  {
    if next < |fields| {
      EntriesAreTrimmed(fields, next + Taken(PorcelainField(fields[next], text), |fields| - next), text);
      FieldIsTrimmed(fields[next], text);
    }
  }

  lemma FieldIsTrimmed(field: Bytes, text: Decoder)
    ensures var e := PorcelainField(field, text); e.Some? ==> e.value.path != [] && Trimmed(e.value.path)
  {
    var tail := FromByte(text(field), 3);
    TrimIsTrimmed(if tail.Some? then tail.value else []);
  }

  /**
   Printing and parsing gives the status back exactly when no path begins or ends with white
   space.
   */
  lemma PorcelainRoundTripWhen(ss: seq<Status>, text: Decoder)
    requires Lossy(text) && forall s | s in ss :: StatusFits(s)
    ensures PorcelainFrom(Split(Terminated(AllStatusFields(ss)), NUL), 0, Read(text)) == StatusEntries(ss, text)
            <==> forall s | s in ss :: Trimmed(text(s.path))
  {
    if forall s | s in ss :: Trimmed(text(s.path)) {
      StatusFieldsFit(ss);
      TerminatedSplit(AllStatusFields(ss));
      assert AllStatusFields(ss)[0..] == AllStatusFields(ss);
      EachIsRead(ss, text);
      StatusesRead(AllStatusFields(ss), 0, ss, text, Read(text));
    } else {
      var s :| s in ss && !Trimmed(text(s.path));
      StatusEntryAt(ss, text, s);
      EntriesAreTrimmed(Split(Terminated(AllStatusFields(ss)), NUL), 0, text);
    }
  }

  /** A rename to a path of white space is lost, and its origin is then read as an entry of its own. */
  lemma BlankRenameShowsOrigin(s: Status, o: Status, text: Decoder)
    requires Lossy(text) && StatusFits(s) && StatusFits(o) && Trim(text(s.path)) == []
    requires s.origin == Some(Head(o)) && o.origin == None && Trimmed(text(o.path))
    ensures PorcelainFrom(Split(Terminated(StatusFields(s)), NUL), 0, Read(text))
            == [StatusEntry(o, text)]
  {
    TerminatedSplit(StatusFields(s));
    BlankField(s, text);
    StatusField(o, text);
    var fields := [Head(s), Head(o)];
    assert Split(Terminated(StatusFields(s)), NUL) == fields;
    assert PorcelainFrom(fields, 2, Read(text)) == [];
    assert PorcelainFrom(fields, 1, Read(text)) == [StatusEntry(o, text)];
  }

  lemma BlankField(s: Status, text: Decoder)
    requires Lossy(text) && StatusFits(s) && Trim(text(s.path)) == []
    ensures PorcelainField(Head(s), text) == None
  {
    HeaderReads(s, text);
  }
}
