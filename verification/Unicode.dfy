/** Text as JavaScript holds it, UTF-16 code units, and its UTF-8 encoding (section 3 of RFC 3629). */
module Unicode {
  type CodeUnit = u: int | 0 <= u < 0x1_0000

  type Text = seq<CodeUnit>

  type Byte = b: int | 0 <= b < 0x100

  type Point = p: int | 0 <= p < 0x11_0000

  predicate IsHigh(u: CodeUnit) { 0xD800 <= u <= 0xDBFF }

  predicate IsLow(u: CodeUnit) { 0xDC00 <= u <= 0xDFFF }

  /** Whether the text starts with a surrogate pair. */
  predicate StartsWithPair(s: Text) { |s| >= 2 && IsHigh(s[0]) && IsLow(s[1]) }

  /** The number of code units of the first code point; a lone surrogate counts as one point. */
  function Width(s: Text): (n: nat)
    requires s != []
    ensures 1 <= n <= |s|
  {
    if StartsWithPair(s) then 2 else 1
  }

  function First(s: Text): Point
    requires s != []
  {
    var high, low: int := s[0], if |s| > 1 then s[1] else 0;
    if StartsWithPair(s) then 0x1_0000 + (high - 0xD800) * 0x400 + (low - 0xDC00) else high
  }

  /** No lone surrogate anywhere. */
  predicate WellFormed(s: Text) {
    s == [] || ((StartsWithPair(s) || !(IsHigh(s[0]) || IsLow(s[0]))) && WellFormed(s[Width(s)..]))
  }

  /** The encoding of one code point. */
  function EncodePoint(p: Point): (bytes: seq<Byte>)
    ensures 1 <= |bytes| <= 4
  {
    if p < 0x80 then [p]
    else if p < 0x800 then [0xC0 + p / 0x40, 0x80 + p % 0x40]
    else if p < 0x1_0000 then [0xE0 + p / 0x1000, 0x80 + p / 0x40 % 0x40, 0x80 + p % 0x40]
    else [0xF0 + p / 0x4_0000, 0x80 + p / 0x1000 % 0x40, 0x80 + p / 0x40 % 0x40, 0x80 + p % 0x40]
  }

  /** The encoding of a text; a lone surrogate is encoded like any other three-byte code point. */
  function Utf8(s: Text): seq<Byte> {
    if s == [] then [] else EncodePoint(First(s)) + Utf8(s[Width(s)..])
  }

  /** The first byte tells the length, and the bytes tell the point: no encoding is a prefix of another. */
  lemma PointsArePrefixFree(p: Point, q: Point, x: seq<Byte>, y: seq<Byte>)
    requires EncodePoint(p) + x == EncodePoint(q) + y
    ensures p == q && x == y
  {
    var a, b := EncodePoint(p) + x, EncodePoint(q) + y;
    assert a[0] == EncodePoint(p)[0] && b[0] == EncodePoint(q)[0];
    SameLength(p, q);
    var n := |EncodePoint(p)|;
    assert a[..n] == EncodePoint(p) && b[..n] == EncodePoint(q);
    assert a[n..] == x && b[n..] == y;
    SamePoint(p, q);
  }

  lemma SameLength(p: Point, q: Point)
    requires EncodePoint(p)[0] == EncodePoint(q)[0]
    ensures |EncodePoint(p)| == |EncodePoint(q)|
  {}

  lemma SamePoint(p: Point, q: Point)
    requires EncodePoint(p) == EncodePoint(q)
    ensures p == q
  {
    var a, b := EncodePoint(p), EncodePoint(q);
    assert |a| == |b| && a[0] == b[0] && a[|a| - 1] == b[|b| - 1];
    if |a| >= 3 {
      assert a[1] == b[1];
    }
    if |a| == 4 {
      assert a[2] == b[2];
    }
    BytesTellPoint(p);
    BytesTellPoint(q);
  }

  lemma BytesTellPoint(p: Point)
    ensures p == p / 0x40 * 0x40 + p % 0x40
    ensures p / 0x40 == p / 0x1000 * 0x40 + p / 0x40 % 0x40
    ensures p / 0x1000 == p / 0x4_0000 * 0x40 + p / 0x1000 % 0x40
  {}

  /** Different texts have different encodings. */
  lemma {:induction false} Utf8IsInjective(s: Text, t: Text)
    requires Utf8(s) == Utf8(t)
    ensures s == t
  {
    if s == [] || t == [] {
    } else {
      PointsArePrefixFree(First(s), First(t), Utf8(s[Width(s)..]), Utf8(t[Width(t)..]));
      Utf8IsInjective(s[Width(s)..], t[Width(t)..]);
      SameStart(s, t);
      assert s == s[..Width(s)] + s[Width(s)..];
      assert t == t[..Width(t)] + t[Width(t)..];
    }
  }

  lemma SameStart(s: Text, t: Text)
    requires s != [] && t != [] && First(s) == First(t)
    ensures s[..Width(s)] == t[..Width(t)]
  {}

  /** Appending to a well-formed text does not change its first code point. */
  lemma StartKeeps(s: Text, t: Text)
    requires s != [] && WellFormed(s)
    ensures Width(s + t) == Width(s) && First(s + t) == First(s)
    ensures (s + t)[Width(s)..] == s[Width(s)..] + t
    ensures WellFormed(s[Width(s)..]) && WellFormed(s + t) == WellFormed(s[Width(s)..] + t)
  {
    assert StartsWithPair(s + t) == StartsWithPair(s);
    assert (s + t)[Width(s)..] == s[Width(s)..] + t;
  }

  lemma FirstThenRest(s: Text)
    requires s != []
    ensures Utf8(s) == EncodePoint(First(s)) + Utf8(s[Width(s)..])
  {}

  /** Encoding distributes over concatenation when the first part is well formed. */
  lemma {:induction false} Utf8Concat(s: Text, t: Text)
    requires WellFormed(s)
    ensures Utf8(s + t) == Utf8(s) + Utf8(t)
  {
    if s == [] {
      assert s + t == t;
    } else {
      hide *;
      StartKeeps(s, t);
      FirstThenRest(s);
      FirstThenRest(s + t);
      var rest := s[Width(s)..];
      Utf8Concat(rest, t);
      assert EncodePoint(First(s)) + (Utf8(rest) + Utf8(t)) == EncodePoint(First(s)) + Utf8(rest) + Utf8(t);
    }
  }

  lemma {:induction false} WellFormedConcat(s: Text, t: Text)
    requires WellFormed(s) && WellFormed(t)
    ensures WellFormed(s + t)
  {
    if s == [] {
      assert s + t == t;
    } else {
      hide *;
      StartKeeps(s, t);
      WellFormedConcat(s[Width(s)..], t);
    }
  }

  /** ASCII text, written as a Dafny string; anything else becomes a question mark. */
  function Ascii(s: string): (text: Text)
    ensures |text| == |s| && forall i :: 0 <= i < |s| ==>
            text[i] < 0x80 && (s[i] as int < 0x80 ==> text[i] == s[i] as int)
  {
    if s == [] then [] else [AsciiUnit(s[0])] + Ascii(s[1..])
  }

  function AsciiUnit(c: char): CodeUnit { if c as int < 0x80 then c as int else 0x3F }

  lemma AsciiStep(c: char, s: string)
    ensures Ascii([c] + s) == [AsciiUnit(c)] + Ascii(s)
  {
    assert ([c] + s)[1..] == s;
  }

  lemma {:induction false} AsciiConcat(a: string, b: string)
    ensures Ascii(a + b) == Ascii(a) + Ascii(b)
  {
    hide *;
    if a == [] {
      assert a + b == b;
      NoAscii();
    } else {
      var c, rest := a[0], a[1..];
      AsciiConcat(rest, b);
      AsciiStep(c, rest);
      AsciiStep(c, rest + b);
      assert a == [c] + rest && a + b == [c] + (rest + b);
      assert [AsciiUnit(c)] + (Ascii(rest) + Ascii(b)) == [AsciiUnit(c)] + Ascii(rest) + Ascii(b);
    }
  }

  lemma NoAscii()
    ensures Ascii([]) == []
  {}

  /** ASCII text is well formed and is its own encoding. */
  lemma {:induction false} AsciiIsItself(s: Text)
    requires forall i :: 0 <= i < |s| ==> s[i] < 0x80
    ensures WellFormed(s) && Utf8(s) == s
  {
    if s == [] {
    } else {
      AsciiIsItself(s[1..]);
      assert s == [s[0]] + s[1..];
    }
  }
}
