/** The colour arithmetic of the scheme generator, with exact numbers in place of floating point. */
module Schemes {
  import opened Wrappers

  /** White space as Python's `strip` sees it. */
  predicate IsSpace(c: char) {
    var n := c as int;
    || 0x09 <= n <= 0x0D || 0x1C <= n <= 0x20 || n == 0x85 || n == 0xA0 || n == 0x1680 || 0x2000 <= n <= 0x200A
    || n == 0x2028 || n == 0x2029 || n == 0x202F || n == 0x205F || n == 0x3000
  }

  const SPACES :=
    "\U{09}\U{0A}\U{0B}\U{0C}\U{0D}\U{1C}\U{1D}\U{1E}\U{1F} \U{85}\U{A0}\U{1680}"
    + "\U{2000}\U{2001}\U{2002}\U{2003}\U{2004}\U{2005}\U{2006}\U{2007}\U{2008}\U{2009}\U{200A}"
    + "\U{2028}\U{2029}\U{202F}\U{205F}\U{3000}"

  lemma SpacesAre(c: char)
    ensures IsSpace(c) <==> c in SPACES
  {}

  function LeftStrip(s: string): string { if s != [] && IsSpace(s[0]) then LeftStrip(s[1..]) else s }

  function RightStrip(s: string): string { if s != [] && IsSpace(s[|s| - 1]) then RightStrip(s[..|s| - 1]) else s }

  function Strip(s: string): string { RightStrip(LeftStrip(s)) }

  function WithoutHashes(s: string): string { if s != [] && s[0] == '#' then WithoutHashes(s[1..]) else s }

  /** The hexadecimal digits Python accepts, ASCII ones only. */
  function HexDigitValue(c: char): Option<nat> {
    if '0' <= c <= '9' then Some(c as int - '0' as int)
    else if 'A' <= c <= 'F' then Some(c as int - 'A' as int + 10)
    else if 'a' <= c <= 'f' then Some(c as int - 'a' as int + 10)
    else None
  }

  function HexNumber(digits: string): Option<nat> {
    if digits == [] then Some(0)
    else
      var front, last := HexNumber(digits[..|digits| - 1]), HexDigitValue(digits[|digits| - 1]);
      if front.None? || last.None? then None else Some(front.value * 16 + last.value)
  }

  /** `int(s, 16)` on the one or two characters of a colour channel, which are too few for a `0x` or an underscore. */
  function ParseHex(s: string): Option<int> {
    var t := Strip(s);
    var signed := t != [] && (t[0] == '+' || t[0] == '-');
    var digits := if signed then t[1..] else t;
    if digits == [] || HexNumber(digits).None? then None
    else
      var n: int := HexNumber(digits).value;
      Some(if signed && t[0] == '-' then -n else n)
  }

  datatype Colour = Colour(red: int, green: int, blue: int)

  /** `h[i:i+2]`, which may run past the end. */
  function Pair(h: string, i: nat): string {
    if i >= |h| then [] else if i + 2 <= |h| then h[i..i + 2] else h[i..]
  }

  function Rgb(h: string): Option<Colour> {
    var t := WithoutHashes(Strip(h));
    var r, g, b := ParseHex(Pair(t, 0)), ParseHex(Pair(t, 2)), ParseHex(Pair(t, 4));
    if r.None? || g.None? || b.None? then None else Some(Colour(r.value, g.value, b.value))
  }

  /** Python's `round`: to the nearest integer, ties to the even one. */
  function Round(x: real): int {
    var f := x.Floor;
    var rest := x - f as real;
    if rest < 0.5 then f else if rest > 0.5 then f + 1 else if f % 2 == 0 then f else f + 1
  }

  function Clamp(n: int): (c: int)
    ensures 0 <= c <= 255
  {
    if n < 0 then 0 else if n > 255 then 255 else n
  }

  function HexDigit(n: nat): char
    requires n < 16
  {
    "0123456789ABCDEF"[n]
  }

  /** `f'{n:02X}'` of a byte. */
  function HexByte(n: int): string
    requires 0 <= n <= 255
  {
    [HexDigit(n / 16), HexDigit(n % 16)]
  }

  function Hx(red: real, green: real, blue: real): string {
    HexByte(Clamp(Round(red))) + HexByte(Clamp(Round(green))) + HexByte(Clamp(Round(blue)))
  }

  function Blend(a: int, b: int, t: real): real { a as real * (1.0 - t) + b as real * t }

  function Mix(a: string, b: string, t: real): Option<string> {
    var aa, bb := Rgb(a), Rgb(b);
    if aa.None? || bb.None? then None
    else Some(Hx(Blend(aa.value.red, bb.value.red, t), Blend(aa.value.green, bb.value.green, t),
      Blend(aa.value.blue, bb.value.blue, t)))
  }

  // ---- Laws ----

  lemma DigitReadsBack(n: nat)
    requires n < 16
    ensures HexDigitValue(HexDigit(n)) == Some(n)
    ensures !IsSpace(HexDigit(n)) && HexDigit(n) != '#' && HexDigit(n) != '+' && HexDigit(n) != '-'
  {}

  lemma StripsNothing(s: string)
    requires s != [] ==> !IsSpace(s[0]) && !IsSpace(s[|s| - 1])
    ensures Strip(s) == s
  {}

  lemma ByteReadsBack(n: int)
    requires 0 <= n <= 255
    ensures ParseHex(HexByte(n)) == Some(n)
  {
    hide HexDigit, HexDigitValue, IsSpace;
    var s := HexByte(n);
    DigitReadsBack(n / 16);
    DigitReadsBack(n % 16);
    StripsNothing(s);
    assert s[..1] == [s[0]] && s[..1][..0] == [];
    assert HexNumber(s[..1]) == Some(n / 16);
    assert HexNumber(s) == Some(n / 16 * 16 + n % 16);
  }

  /** Reading a written colour gives the rounded and clamped channels. */
  lemma RgbReadsHx(red: real, green: real, blue: real)
    ensures Rgb(Hx(red, green, blue)) == Some(Colour(Clamp(Round(red)), Clamp(Round(green)), Clamp(Round(blue))))
  {
    hide ParseHex, HexDigit, IsSpace, Round, Clamp;
    var r, g, b := Clamp(Round(red)), Clamp(Round(green)), Clamp(Round(blue));
    var s := Hx(red, green, blue);
    DigitReadsBack(r / 16);
    DigitReadsBack(b % 16);
    StripsNothing(s);
    assert WithoutHashes(s) == s;
    assert Pair(s, 0) == HexByte(r) && Pair(s, 2) == HexByte(g) && Pair(s, 4) == HexByte(b);
    ByteReadsBack(r);
    ByteReadsBack(g);
    ByteReadsBack(b);
  }

  lemma RoundFixesIntegers(n: int)
    ensures Round(n as real) == n
  {}

  /** Reading undoes writing on byte triples. */
  lemma RgbUndoesHx(c: Colour)
    requires 0 <= c.red <= 255 && 0 <= c.green <= 255 && 0 <= c.blue <= 255
    ensures Rgb(Hx(c.red as real, c.green as real, c.blue as real)) == Some(c)
  {
    RgbReadsHx(c.red as real, c.green as real, c.blue as real);
    RoundFixesIntegers(c.red);
    RoundFixesIntegers(c.green);
    RoundFixesIntegers(c.blue);
  }

  lemma RoundStaysBetween(x: real, low: int, high: int)
    requires low as real <= x <= high as real
    ensures low <= Round(x) <= high
  {}

  lemma BlendStaysBetween(a: int, b: int, t: real)
    requires 0.0 <= t <= 1.0
    ensures a <= b ==> a as real <= Blend(a, b, t) <= b as real
    ensures b <= a ==> b as real <= Blend(a, b, t) <= a as real
    ensures Blend(a, b, 0.0) == a as real && Blend(a, b, 1.0) == b as real
  {
    var d := (b - a) as real;
    assert Blend(a, b, t) == a as real + d * t;
    if a <= b {
      assert 0.0 <= d * t <= d;
    }
    if b <= a {
      assert d <= d * t <= 0.0;
    }
  }

  predicate Between(c: int, a: int, b: int) { Clamp(if a <= b then a else b) <= c <= Clamp(if a <= b then b else a) }

  lemma ChannelStaysBetween(a: int, b: int, t: real)
    requires 0.0 <= t <= 1.0
    ensures Between(Clamp(Round(Blend(a, b, t))), a, b)
  {
    BlendStaysBetween(a, b, t);
    RoundStaysBetween(Blend(a, b, t), if a <= b then a else b, if a <= b then b else a);
  }

  /** A mix with 0 <= t <= 1 stays between its colours in every channel and reaches them at the ends. */
  lemma MixStaysBetween(a: string, b: string, t: real)
    requires 0.0 <= t <= 1.0 && Rgb(a).Some? && Rgb(b).Some?
    ensures Mix(a, b, t).Some? && Rgb(Mix(a, b, t).value).Some?
    ensures var x, y, m := Rgb(a).value, Rgb(b).value, Rgb(Mix(a, b, t).value).value;
            Between(m.red, x.red, y.red) && Between(m.green, x.green, y.green) && Between(m.blue, x.blue, y.blue)
  {
    hide Rgb, Hx, Blend, Round, Clamp, Between;
    var x, y := Rgb(a).value, Rgb(b).value;
    RgbReadsHx(Blend(x.red, y.red, t), Blend(x.green, y.green, t), Blend(x.blue, y.blue, t));
    ChannelStaysBetween(x.red, y.red, t);
    ChannelStaysBetween(x.green, y.green, t);
    ChannelStaysBetween(x.blue, y.blue, t);
  }

  lemma BlendKeeps(a: int, b: int, t: real)
    requires a == b || t == 0.0
    ensures Blend(a, b, t) == a as real
  {
    assert Blend(a, b, t) == a as real + (b - a) as real * t;
  }

  /** Mixing a colour with itself, or not at all, gives that colour clamped to bytes. */
  lemma MixFixesEqualColours(a: string, b: string, t: real)
    requires Rgb(a).Some? && Rgb(b).Some? && (Rgb(a) == Rgb(b) || t == 0.0)
    ensures var x := Rgb(a).value;
            Mix(a, b, t).Some? && Rgb(Mix(a, b, t).value) == Some(Colour(Clamp(x.red), Clamp(x.green), Clamp(x.blue)))
  {
    hide Rgb, Hx, Clamp, Blend, Round;
    var x, y := Rgb(a).value, Rgb(b).value;
    RgbReadsHx(Blend(x.red, y.red, t), Blend(x.green, y.green, t), Blend(x.blue, y.blue, t));
    BlendKeeps(x.red, y.red, t);
    BlendKeeps(x.green, y.green, t);
    BlendKeeps(x.blue, y.blue, t);
    RoundFixesIntegers(x.red);
    RoundFixesIntegers(x.green);
    RoundFixesIntegers(x.blue);
  }

  // ---- Rounding, and what is read ----

  /** No integer is nearer, and a number halfway goes to the even one. */
  lemma RoundIsNearest(x: real, n: int)
    ensures var r := Round(x) as real; -0.5 <= x - r <= 0.5
    ensures n as real == x ==> Round(x) == n
    ensures x == n as real + 0.5 ==> Round(x) == if n % 2 == 0 then n else n + 1
  {}

  /** Clamping a number to a byte leaves no byte nearer to it. */
  lemma ClampIsNearest(n: int, byte: int)
    requires 0 <= byte <= 255
    ensures n <= byte ==> n <= Clamp(n) <= byte || 0 == Clamp(n) <= byte
    ensures byte <= n ==> byte <= Clamp(n) <= n
  {}

  /** A digit is the value it has in the table of digits, in either case. */
  lemma HexDigitIsIndex(c: char, n: nat)
    ensures HexDigitValue(c) == Some(n) <==>
            n < 16 && (c == "0123456789abcdef"[n] || c == "0123456789ABCDEF"[n])
  {}

  /** Six digits of either case, after any hashes and between any white space, are three channels. */
  lemma RgbReadsSixDigits(before: string, hashes: string, digits: string, after: string)
    requires forall i :: 0 <= i < |before| ==> IsSpace(before[i])
    requires forall i :: 0 <= i < |after| ==> IsSpace(after[i])
    requires (forall i :: 0 <= i < |hashes| ==> hashes[i] == '#') && |digits| == 6
    requires forall i :: 0 <= i < 6 ==> HexDigitValue(digits[i]).Some?
    ensures var v := seq(6, i requires 0 <= i < 6 => HexDigitValue(digits[i]).value);
            Rgb(before + hashes + digits + after) ==
            Some(Colour(v[0] * 16 + v[1], v[2] * 16 + v[3], v[4] * 16 + v[5]))
  {
    hide IsSpace, HexDigitValue, ParseHex;
    var s := hashes + digits;
    forall i | 0 <= i < 6 ensures !IsSpace(digits[i]) && digits[i] != '#' { DigitIsVisible(digits[i]); }
    HashIsVisible();
    assert before + hashes + digits + after == before + s + after;
    StripsAround(before, s, after);
    HashesGo(hashes, digits);
    PairIsByte(digits, 0);
    PairIsByte(digits, 2);
    PairIsByte(digits, 4);
  }

  /** A channel of a sign and a digit is read with its sign. */
  lemma SignsAreRead(c: char)
    requires HexDigitValue(c).Some?
    ensures var n: int := HexDigitValue(c).value; ParseHex(['-', c]) == Some(-n) && ParseHex(['+', c]) == Some(n)
  {
    hide HexDigitValue, IsSpace;
    DigitIsVisible(c);
    SignsAreVisible();
    StripsNothing(['-', c]);
    StripsNothing(['+', c]);
    assert ['-', c][1..] == [c] && ['+', c][1..] == [c] && [c][..0] == [];
    assert HexNumber([c]) == Some(HexDigitValue(c).value);
  }

  lemma SignsAreVisible()
    ensures !IsSpace('-') && !IsSpace('+')
  {}

  lemma DigitIsVisible(c: char)
    requires HexDigitValue(c).Some?
    ensures !IsSpace(c) && c != '#' && c != '+' && c != '-'
  {}

  lemma HashIsVisible()
    ensures !IsSpace('#')
  {}

  lemma {:induction false} StripsBefore(before: string, s: string)
    requires (forall i :: 0 <= i < |before| ==> IsSpace(before[i])) && (s != [] ==> !IsSpace(s[0]))
    ensures LeftStrip(before + s) == s
  {
    hide IsSpace;
    if before == [] {
      assert before + s == s;
    } else {
      assert (before + s)[1..] == before[1..] + s;
      StripsBefore(before[1..], s);
    }
  }

  lemma {:induction false} StripsAfter(s: string, after: string)
    requires (forall i :: 0 <= i < |after| ==> IsSpace(after[i])) && (s != [] ==> !IsSpace(s[|s| - 1]))
    ensures RightStrip(s + after) == s
  {
    hide IsSpace;
    if after == [] {
      assert s + after == s;
    } else {
      var n := |after| - 1;
      assert (s + after)[..|s| + n] == s + after[..n];
      StripsAfter(s, after[..n]);
    }
  }

  lemma StripsAround(before: string, s: string, after: string)
    requires forall i :: 0 <= i < |before| ==> IsSpace(before[i])
    requires forall i :: 0 <= i < |after| ==> IsSpace(after[i])
    requires s != [] && !IsSpace(s[0]) && !IsSpace(s[|s| - 1])
    ensures Strip(before + s + after) == s
  {
    hide IsSpace, LeftStrip, RightStrip;
    assert before + s + after == before + (s + after);
    StripsBefore(before, s + after);
    StripsAfter(s, after);
  }

  lemma {:induction false} HashesGo(hashes: string, digits: string)
    requires (forall i :: 0 <= i < |hashes| ==> hashes[i] == '#') && (digits != [] ==> digits[0] != '#')
    ensures WithoutHashes(hashes + digits) == digits
  {
    if hashes == [] {
      assert hashes + digits == digits;
    } else {
      assert (hashes + digits)[1..] == hashes[1..] + digits;
      HashesGo(hashes[1..], digits);
    }
  }

  lemma PairIsByte(digits: string, i: nat)
    requires |digits| == 6 && i <= 4 && HexDigitValue(digits[i]).Some? && HexDigitValue(digits[i + 1]).Some?
    ensures ParseHex(Pair(digits, i)) ==
            Some(HexDigitValue(digits[i]).value * 16 + HexDigitValue(digits[i + 1]).value)
  {
    hide HexDigitValue, IsSpace;
    var s := Pair(digits, i);
    DigitIsVisible(digits[i]);
    DigitIsVisible(digits[i + 1]);
    StripsNothing(s);
    assert s == [digits[i], digits[i + 1]];
    assert s[..1] == [s[0]] && s[..1][..0] == [];
    assert HexNumber(s[..1]) == Some(HexDigitValue(digits[i]).value);
  }
}
