/** Fitting a UTF-8 text into a byte budget by dropping its middle. */
module HeadTailFit {
  import opened Basics

  /** A line feed, U+2026 and a line feed. */
  const MARKER: Bytes := [0x0A, 0xE2, 0x80, 0xA6, 0x0A]

  // ------------------------------------------------- section 4 of RFC 3629

  predicate Tail(b: byte) { 0x80 <= b <= 0xBF }

  /** The bytes that may follow the first one of a character. */
  predicate Second(lead: byte, b: byte) {
    if lead == 0xE0 then 0xA0 <= b <= 0xBF
    else if lead == 0xED then 0x80 <= b <= 0x9F
    else if lead == 0xF0 then 0x90 <= b <= 0xBF
    else if lead == 0xF4 then 0x80 <= b <= 0x8F
    else Tail(b)
  }

  /** How many bytes a character with this first byte has; zero for no first byte. */
  function Width(lead: byte): nat {
    if lead <= 0x7F then 1 else if 0xC2 <= lead <= 0xDF then 2
    else if 0xE0 <= lead <= 0xEF then 3 else if 0xF0 <= lead <= 0xF4 then 4 else 0
  }

  /** A whole character stands at the start. */
  predicate StartsWhole(s: Bytes) {
    && s != [] && 0 < Width(s[0]) <= |s|
    && (Width(s[0]) > 1 ==> Second(s[0], s[1]))
    && (Width(s[0]) > 2 ==> Tail(s[2]))
    && (Width(s[0]) > 3 ==> Tail(s[3]))
  }

  predicate Valid(s: Bytes) {
    s != [] ==> StartsWhole(s) && Valid(s[Width(s[0])..])
  }

  lemma FirstStaysWhole(a: Bytes, b: Bytes)
    requires StartsWhole(a)
    ensures StartsWhole(a + b) && (a + b)[0] == a[0] && (a + b)[Width(a[0])..] == a[Width(a[0])..] + b
  {
  }

  lemma {:induction false} ValidConcat(a: Bytes, b: Bytes)
    requires Valid(a) && Valid(b)
    ensures Valid(a + b)
  {
    if a == [] {
      assert a + b == b;
    } else {
      var n := Width(a[0]);
      ValidConcat(a[n..], b);
      FirstStaysWhole(a, b);
    }
  }

  lemma MarkerIsValid()
    ensures Valid(MARKER)
  {
    assert MARKER[1..] == [0xE2, 0x80, 0xA6, 0x0A] && MARKER[1..][3..] == [0x0A] && MARKER[1..][3..][1..] == [];
    assert Valid([0x0A]) && Valid(MARKER[1..]);
  }

  /** A Unicode scalar value. */
  type Scalar = c: nat | c <= 0x10FFFF && !(0xD800 <= c <= 0xDFFF)

  /** The encoding of a scalar value, by the table in section 3 of RFC 3629. */
  function Encode(c: Scalar): Bytes {
    if c < 0x80 then [c as byte]
    else if c < 0x800 then [(0xC0 + c / 64) as byte, (0x80 + c % 64) as byte]
    else if c < 0x10000 then
      [(0xE0 + c / 4096) as byte, (0x80 + c / 64 % 64) as byte, (0x80 + c % 64) as byte]
    else
      [(0xF0 + c / 262144) as byte, (0x80 + c / 4096 % 64) as byte,
       (0x80 + c / 64 % 64) as byte, (0x80 + c % 64) as byte]
  }

  function EncodeAll(cs: seq<Scalar>): Bytes {
    if cs == [] then [] else Encode(cs[0]) + EncodeAll(cs[1..])
  }

  lemma EncodedIsWhole(c: Scalar)
    ensures StartsWhole(Encode(c)) && Width(Encode(c)[0]) == |Encode(c)|
  {
  }

  /** The six low bits. */
  function Low(b: byte): nat {
    b as int % 64
  }

  lemma TwoDigits(a: nat, b: nat)
    requires b < 64
    ensures (a * 64 + b) / 64 == a && (a * 64 + b) % 64 == b
  {
  }

  lemma Whole2(s: Bytes) returns (c: Scalar)
    requires StartsWhole(s) && Width(s[0]) == 2
    ensures s[..2] == Encode(c)
  {
    var a := s[0] as int - 0xC0;
    c := a * 64 + Low(s[1]);
    TwoDigits(a, Low(s[1]));
  }

  lemma Whole3(s: Bytes) returns (c: Scalar)
    requires StartsWhole(s) && Width(s[0]) == 3
    ensures s[..3] == Encode(c)
  {
    var a := s[0] as int - 0xE0;
    var high := a * 64 + Low(s[1]);
    c := high * 64 + Low(s[2]);
    TwoDigits(a, Low(s[1]));
    TwoDigits(high, Low(s[2]));
    assert c / 4096 == c / 64 / 64;
  }

  lemma Whole4(s: Bytes) returns (c: Scalar)
    requires StartsWhole(s) && Width(s[0]) == 4
    ensures s[..4] == Encode(c)
  {
    var a := s[0] as int - 0xF0;
    var top := a * 64 + Low(s[1]);
    var high := top * 64 + Low(s[2]);
    c := high * 64 + Low(s[3]);
    TwoDigits(a, Low(s[1]));
    TwoDigits(top, Low(s[2]));
    TwoDigits(high, Low(s[3]));
    assert c / 4096 == c / 64 / 64 && c / 262144 == c / 64 / 64 / 64;
  }

  lemma WholeIsEncoded(s: Bytes) returns (c: Scalar)
    requires StartsWhole(s)
    ensures s[..Width(s[0])] == Encode(c)
  {
    if Width(s[0]) == 1 {
      c := s[0] as int;
    } else if Width(s[0]) == 2 {
      c := Whole2(s);
    } else if Width(s[0]) == 3 {
      c := Whole3(s);
    } else {
      c := Whole4(s);
    }
  }

  /** A text is valid exactly when it is the encoding of some scalar values. */
  lemma ValidMeaning(s: Bytes)
    ensures Valid(s) <==> exists cs :: EncodeAll(cs) == s
  {
    if Valid(s) {
      var cs := ValidIsEncoded(s);
    }
    if cs :| EncodeAll(cs) == s { EncodedIsValid(cs); }
  }

  lemma {:induction false} ValidIsEncoded(s: Bytes) returns (cs: seq<Scalar>)
    requires Valid(s)
    ensures EncodeAll(cs) == s
  {
    cs := [];
    if s != [] {
      var n := Width(s[0]);
      var rest := ValidIsEncoded(s[n..]);
      var c := WholeIsEncoded(s);
      cs := [c] + rest;
      assert cs[1..] == rest && s == s[..n] + s[n..];
    }
  }

  lemma {:induction false} EncodedIsValid(cs: seq<Scalar>)
    ensures Valid(EncodeAll(cs))
  {
    if cs != [] {
      EncodedIsValid(cs[1..]);
      EncodedIsWhole(cs[0]);
      OneIsValid(Encode(cs[0]));
      ValidConcat(Encode(cs[0]), EncodeAll(cs[1..]));
    }
  }

  lemma OneIsValid(s: Bytes)
    requires StartsWhole(s) && Width(s[0]) == |s|
    ensures Valid(s)
  {
    assert s[|s|..] == [];
  }

  // --------------------------------------------------------------- boundaries

  /** `is_char_boundary`. */
  predicate Boundary(s: Bytes, i: nat) {
    i == 0 || i == |s| || (i < |s| && !Tail(s[i]))
  }

  lemma StartsAtBoundary(s: Bytes)
    requires Valid(s) && s != []
    ensures !Tail(s[0]) && Boundary(s, Width(s[0])) && forall i | 0 < i < Width(s[0]) :: !Boundary(s, i)
  {
  }

  /** A boundary of the rest is one of the whole. */
  lemma BoundaryOfRest(s: Bytes, i: nat)
    requires Valid(s) && s != [] && Width(s[0]) <= i
    ensures Boundary(s, i) <==> Boundary(s[Width(s[0])..], i - Width(s[0]))
  {
  }

  lemma SliceOfSlice(s: Bytes, n: nat, i: nat)
    requires n <= i <= |s|
    ensures s[n..][..i - n] == s[..i][n..] && s[n..][i - n..] == s[i..]
  {
  }

  /** The boundaries of a valid text are exactly the places where it falls into two valid texts. */
  lemma {:induction false} BoundaryMeaning(s: Bytes, i: nat)
    requires Valid(s) && i <= |s|
    ensures Boundary(s, i) <==> Valid(s[..i]) && Valid(s[i..])
    decreases |s|
  {
    if i == 0 {
      assert s[..0] == [] && s[0..] == s;
    } else if i == |s| {
      assert s[..i] == s && s[i..] == [];
    } else {
      var n := Width(s[0]);
      StartsAtBoundary(s);
      if i < n {
        assert s[..i][0] == s[0];
        assert !StartsWhole(s[..i]);
      } else {
        BoundaryOfRest(s, i);
        BoundaryMeaning(s[n..], i - n);
        SliceOfSlice(s, n, i);
        assert s[..i][0] == s[0] && StartsWhole(s[..i]);
      }
    }
  }

  /** The last boundary up to `i`. */
  function LastBoundary(s: Bytes, i: nat): (r: nat)
    ensures r <= i && Boundary(s, r) && forall k | r < k <= i :: !Boundary(s, k)
  {
    if Boundary(s, i) then i else LastBoundary(s, i - 1)
  }

  /** The first boundary from `i` on. */
  function FirstBoundary(s: Bytes, i: nat): (r: nat)
    requires i <= |s|
    ensures i <= r <= |s| && Boundary(s, r) && forall k | i <= k < r :: !Boundary(s, k)
    decreases |s| - i
  {
    if Boundary(s, i) then i else FirstBoundary(s, i + 1)
  }

  /** In a valid text a boundary is never more than three bytes away, either way. */
  lemma {:induction false} BoundaryIsNear(s: Bytes, i: nat)
    requires Valid(s) && i <= |s|
    ensures i - 3 <= LastBoundary(s, i) && FirstBoundary(s, i) <= i + 3
    decreases |s|
  {
    if s != [] {
      var n := Width(s[0]);
      StartsAtBoundary(s);
      if i >= n {
        BoundaryIsNear(s[n..], i - n);
        var l, f := LastBoundary(s[n..], i - n), FirstBoundary(s[n..], i - n);
        BoundaryOfRest(s, l + n);
        BoundaryOfRest(s, f + n);
      }
    }
  }

  // ---------------------------------------------------------------------- fit

  function Min(a: nat, b: nat): nat { if a < b then a else b }

  /** What the marker leaves of the budget. */
  function Budget(maxBytes: nat): nat {
    if maxBytes > |MARKER| then maxBytes - |MARKER| else 0
  }

  function HeadEnd(value: Bytes, maxBytes: nat, headBytes: nat): nat {
    LastBoundary(value, Min(headBytes, Budget(maxBytes)))
  }

  function TailStart(value: Bytes, maxBytes: nat, headBytes: nat): nat
    requires maxBytes < |value|
  {
    FirstBoundary(value, |value| - (Budget(maxBytes) - HeadEnd(value, maxBytes, headBytes)))
  }

  function Fit(value: Bytes, maxBytes: nat, headBytes: nat): Bytes {
    if |value| <= maxBytes then value
    else value[..HeadEnd(value, maxBytes, headBytes)] + MARKER + value[TailStart(value, maxBytes, headBytes)..]
  }

  method BackToBoundary(value: Bytes, limit: nat) returns (headEnd: nat)
    ensures headEnd == LastBoundary(value, limit)
  {
    headEnd := limit;
    while !Boundary(value, headEnd)
      invariant headEnd <= limit && LastBoundary(value, headEnd) == LastBoundary(value, limit)
      decreases headEnd
    {
      headEnd := headEnd - 1;
    }
  }

  method OnToBoundary(value: Bytes, from: nat) returns (tailStart: nat)
    requires from <= |value|
    ensures tailStart == FirstBoundary(value, from)
  {
    tailStart := from;
    while !Boundary(value, tailStart)
      invariant from <= tailStart <= |value| && FirstBoundary(value, tailStart) == FirstBoundary(value, from)
      decreases |value| - tailStart
    {
      tailStart := tailStart + 1;
    }
  }

  /** `fit_head_and_tail`. */
  method FitHeadAndTail(value: Bytes, maxBytes: nat, headBytes: nat) returns (r: Bytes)
    ensures r == Fit(value, maxBytes, headBytes)
  {
    if |value| <= maxBytes { return value; }
    var budget := if maxBytes > |MARKER| then maxBytes - |MARKER| else 0;
    var limit := if headBytes < budget then headBytes else budget;
    var headEnd := BackToBoundary(value, limit);
    var tailStart := OnToBoundary(value, |value| - (budget - headEnd));
    r := value[..headEnd] + MARKER + value[tailStart..];
  }

  /** The last boundary up to `limit`. */
  ghost predicate LastUpTo(s: Bytes, h: nat, limit: nat) {
    h <= limit && Boundary(s, h) && forall k | h < k <= limit :: !Boundary(s, k)
  }

  /** The first boundary from `from` on. */
  ghost predicate FirstFrom(s: Bytes, t: nat, from: int) {
    from <= t <= |s| && Boundary(s, t) && forall k: nat | from <= k < t :: !Boundary(s, k)
  }

  /**
   A text that fits comes back as it is.  Any other is cut to a head, the five bytes of the marker and
   a tail: the head as long as its share and what the marker leaves allow, the tail as long as what
   the head leaves.
   */
  lemma FitShape(value: Bytes, maxBytes: nat, headBytes: nat) returns (h: nat, t: nat)
    ensures |value| <= maxBytes ==> Fit(value, maxBytes, headBytes) == value
    ensures |value| > maxBytes ==>
              var budget := if maxBytes > 5 then maxBytes - 5 else 0;
              && LastUpTo(value, h, if headBytes < budget then headBytes else budget)
              && FirstFrom(value, t, |value| - (budget - h))
              && Fit(value, maxBytes, headBytes) == value[..h] + [0x0A, 0xE2, 0x80, 0xA6, 0x0A] + value[t..]
  {
    h, t := 0, 0;
    if |value| > maxBytes { h, t := HeadEnd(value, maxBytes, headBytes), TailStart(value, maxBytes, headBytes); }
  }

  /** A valid text stays valid: a prefix, the marker and a suffix that does not touch the prefix. */
  lemma FitIsValid(value: Bytes, maxBytes: nat, headBytes: nat)
    requires Valid(value)
    ensures Valid(Fit(value, maxBytes, headBytes))
    ensures |value| > maxBytes ==> HeadEnd(value, maxBytes, headBytes) < TailStart(value, maxBytes, headBytes)
  {
    if |value| > maxBytes {
      var h, t := HeadEnd(value, maxBytes, headBytes), TailStart(value, maxBytes, headBytes);
      BoundaryMeaning(value, h);
      BoundaryMeaning(value, t);
      MarkerIsValid();
      ValidConcat(value[..h], MARKER);
      ValidConcat(value[..h] + MARKER, value[t..]);
    }
  }

  /**
   A text too long fills the budget up to three bytes, whatever the head lost: its slack goes to
   the tail.  A budget below the marker's own length gives the marker alone.
   */
  lemma FitFillsTheBudget(value: Bytes, maxBytes: nat, headBytes: nat)
    requires Valid(value) && |value| > maxBytes
    ensures maxBytes >= |MARKER| ==> maxBytes - 3 <= |Fit(value, maxBytes, headBytes)| <= maxBytes
    ensures maxBytes <= |MARKER| ==> Fit(value, maxBytes, headBytes) == MARKER
    ensures |Fit(value, maxBytes, headBytes)| <= maxBytes <==> maxBytes >= |MARKER|
    ensures Min(headBytes, Budget(maxBytes)) - 3 <= HeadEnd(value, maxBytes, headBytes) <= headBytes
  {
    var h := HeadEnd(value, maxBytes, headBytes);
    BoundaryIsNear(value, Min(headBytes, Budget(maxBytes)));
    BoundaryIsNear(value, |value| - (Budget(maxBytes) - h));
  }

}
