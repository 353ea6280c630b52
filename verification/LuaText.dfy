/**
 * Lua string literals: the encoder of the Hyprland actions, and a reader by section 3.1 of the Lua 5.4
 * Reference Manual.
 */
module LuaText {
  import opened Wrappers
  import opened Unicode
  import opened Decimals

  const QUOTE: CodeUnit := 0x22
  const BACKSLASH: CodeUnit := 0x5C

  predicate IsControl(code: CodeUnit) { code < 0x20 || code == 0x7F }

  /** `"\\" + ("00" + code).slice(-3)`: a backslash and three decimal digits. */
  function DecimalEscape(code: CodeUnit): Text
    requires IsControl(code)
  {
    [BACKSLASH, 0x30 + code / 100, 0x30 + code / 10 % 10, 0x30 + code % 10]
  }

  /** What one code point contributes between the quotes. */
  function EscapedPoint(s: Text): Text
    requires s != []
  {
    if s[0] == BACKSLASH then [BACKSLASH, BACKSLASH]
    else if s[0] == QUOTE then [BACKSLASH, QUOTE]
    else if IsControl(s[0]) then DecimalEscape(s[0])
    else s[..Width(s)]
  }

  function Escaped(s: Text): Text
    requires WellFormed(s)
  {
    if s == [] then [] else EscapedPoint(s) + Escaped(s[Width(s)..])
  }

  /** The Lua literal of a text, or nothing for a text with a lone surrogate. */
  function LuaLiteral(s: Text): Option<Text> {
    if WellFormed(s) then Some([QUOTE] + Escaped(s) + [QUOTE]) else None
  }

  method LuaString(value: Text) returns (literal: Option<Text>)
    ensures literal == LuaLiteral(value)
  {
    var result: Text := [QUOTE];
    var index := 0;
    while index < |value|
      invariant 0 <= index <= |value|
      invariant WellFormed(value[index..]) == WellFormed(value)
      invariant WellFormed(value) ==> result + Escaped(value[index..]) == [QUOTE] + Escaped(value)
    {
      hide EscapedPoint, DecimalEscape;
      var code := value[index];
      ghost var rest := value[index..];
      PointByPoint(rest);
      SuffixUnits(value, index);
      var piece: Text;
      if code == 0x5C {
        piece := [0x5C, 0x5C];
      } else if code == 0x22 {
        piece := [0x5C, 0x22];
      } else if code < 0x20 || code == 0x7F {
        piece := DecimalEscape(code);
      } else if code >= 0xD800 && code <= 0xDBFF {
        var next := if index + 1 < |value| then value[index + 1] else 0;
        if next < 0xDC00 || next > 0xDFFF {
          return None;
        }
        piece := [code, next];
        index := index + 1;
      } else if code >= 0xDC00 && code <= 0xDFFF {
        return None;
      } else {
        piece := [code];
      }
      index := index + 1;
      assert value[index..] == rest[Width(rest)..] && piece == EscapedPoint(rest);
      if WellFormed(value) {
        Regroup(result, piece, Escaped(value[index..]));
      }
      result := result + piece;
    }
    assert value[index..] == [] && WellFormed(value);
    assert result + [] == result;
    return Some(result + [QUOTE]);
  }

  lemma SuffixUnits(value: Text, index: nat)
    requires index < |value|
    ensures var rest := value[index..];
            && rest[0] == value[index] && rest[1..] == value[index + 1..] && rest[..1] == [value[index]]
            && (|rest| > 1 <==> index + 1 < |value|)
            && (|rest| > 1 ==>
                  && rest[1] == value[index + 1] && rest[2..] == value[index + 2..]
                  && rest[..2] == [value[index], value[index + 1]])
  {}

  lemma PointByPoint(s: Text)
    requires s != []
    ensures s[0] == BACKSLASH ==> EscapedPoint(s) == [BACKSLASH, BACKSLASH]
    ensures s[0] == QUOTE ==> EscapedPoint(s) == [BACKSLASH, QUOTE]
    ensures IsControl(s[0]) ==> EscapedPoint(s) == DecimalEscape(s[0])
    ensures s[0] != BACKSLASH && s[0] != QUOTE && !IsControl(s[0]) ==> EscapedPoint(s) == s[..Width(s)]
  {}

  lemma Regroup<T>(a: seq<T>, b: seq<T>, c: seq<T>)
    ensures (a + b) + c == a + (b + c)
  {}

  // ---- Reading ----

  function HexValue(b: Byte): Option<Byte> {
    if IsDigit(b) then Some(b - 0x30)
    else if 0x41 <= b <= 0x46 then Some(b - 0x41 + 10)
    else if 0x61 <= b <= 0x66 then Some(b - 0x61 + 10)
    else None
  }

  predicate IsSpace(b: Byte) { b == 0x20 || 0x09 <= b <= 0x0D }

  /** How many bytes a run of whitespace takes. */
  function SpaceRun(s: seq<Byte>): (n: nat)
    ensures n <= |s|
  {
    if s == [] || !IsSpace(s[0]) then 0 else 1 + SpaceRun(s[1..])
  }

  /** At most three decimal digits. */
  function DigitRun(s: seq<Byte>): (n: nat)
    ensures n <= 3 && n <= |s| && forall i :: 0 <= i < n ==> IsDigit(s[i])
  {
    if |s| > 0 && IsDigit(s[0]) then
      if |s| > 1 && IsDigit(s[1]) then
        if |s| > 2 && IsDigit(s[2]) then 3 else 2
      else 1
    else 0
  }

  /** The bytes an escape sequence stands for, and how many bytes follow its backslash. */
  datatype Escape = Escape(value: seq<Byte>, length: nat)

  /** The escape sequence after a backslash. `\u{...}` is not read. */
  function ReadEscape(s: seq<Byte>): (e: Option<Escape>)
    ensures e.Some? ==> 1 <= e.value.length <= |s|
  {
    if s == [] then None
    else
      match s[0]
      case 0x61 => Some(Escape([0x07], 1))
      case 0x62 => Some(Escape([0x08], 1))
      case 0x66 => Some(Escape([0x0C], 1))
      case 0x6E => Some(Escape([0x0A], 1))
      case 0x72 => Some(Escape([0x0D], 1))
      case 0x74 => Some(Escape([0x09], 1))
      case 0x76 => Some(Escape([0x0B], 1))
      case 0x5C => Some(Escape([0x5C], 1))
      case 0x22 => Some(Escape([0x22], 1))
      case 0x27 => Some(Escape([0x27], 1))
      case 0x0A => Some(Escape([0x0A], if |s| > 1 && s[1] == 0x0D then 2 else 1))
      case 0x0D => Some(Escape([0x0A], if |s| > 1 && s[1] == 0x0A then 2 else 1))
      case 0x7A => Some(Escape([], 1 + SpaceRun(s[1..])))
      case 0x78 =>
        if |s| > 2 && HexValue(s[1]).Some? && HexValue(s[2]).Some? && HexValue(s[1]).value < 0x10
          && HexValue(s[2]).value < 0x10
        then Some(Escape([HexValue(s[1]).value * 0x10 + HexValue(s[2]).value], 3))
        else None
      case _ =>
        var n := DigitRun(s);
        if n > 0 && Decimal(s, n) < 0x100 then Some(Escape([Decimal(s, n)], n)) else None
  }

  /** A string read from the front of a source text, and the source after it. */
  datatype Token = Token(value: seq<Byte>, rest: seq<Byte>)

  /** The rest of a short string delimited by double quotes. */
  function ReadBody(s: seq<Byte>): Option<Token>
    decreases |s|
  {
    if s == [] || s[0] == 0x0A || s[0] == 0x0D then None
    else if s[0] == 0x22 then Some(Token([], s[1..]))
    else if s[0] == 0x5C then
      var e := ReadEscape(s[1..]);
      if e.None? then None else Prefixed(e.value.value, ReadBody(s[1 + e.value.length..]))
    else Prefixed([s[0]], ReadBody(s[1..]))
  }

  function Prefixed(value: seq<Byte>, token: Option<Token>): Option<Token> {
    if token.None? then None else Some(Token(value + token.value.value, token.value.rest))
  }

  function ReadString(s: seq<Byte>): Option<Token> {
    if s != [] && s[0] == 0x22 then ReadBody(s[1..]) else None
  }

  lemma PrefixedTwice(a: seq<Byte>, b: seq<Byte>, token: Option<Token>)
    ensures Prefixed(a, Prefixed(b, token)) == Prefixed(a + b, token)
  {
    if token.Some? {
      Regroup(a, b, token.value.value);
    }
  }

  predicate IsPlain(b: Byte) { b != 0x22 && b != 0x5C && b != 0x0A && b != 0x0D }

  /** Bytes that are neither quotes, backslashes nor line breaks are read as themselves. */
  lemma {:induction false} ReadsPlain(bytes: seq<Byte>, rest: seq<Byte>)
    requires forall i :: 0 <= i < |bytes| ==> IsPlain(bytes[i])
    ensures ReadBody(bytes + rest) == Prefixed(bytes, ReadBody(rest))
  {
    if bytes == [] {
      assert bytes + rest == rest;
      if ReadBody(rest).Some? {
        assert [] + ReadBody(rest).value.value == ReadBody(rest).value.value;
      }
    } else {
      assert (bytes + rest)[1..] == bytes[1..] + rest;
      ReadsPlain(bytes[1..], rest);
      PrefixedTwice([bytes[0]], bytes[1..], ReadBody(rest));
      assert [bytes[0]] + bytes[1..] == bytes;
    }
  }

  lemma ReadsDecimal(code: CodeUnit, rest: seq<Byte>)
    requires IsControl(code)
    ensures forall i :: 0 <= i < 4 ==> DecimalEscape(code)[i] < 0x80
    ensures ReadBody(DecimalEscape(code) + rest) == Prefixed([code], ReadBody(rest))
  {
    hide Decimal, DigitRun;
    var d := DecimalEscape(code)[1..] + rest;
    var s := DecimalEscape(code) + rest;
    assert s[1..] == d && d[3..] == rest && s[4..] == rest;
    assert d[..3] == DecimalEscape(code)[1..];
    ThreeDigits(code, d);
    assert IsDigit(d[0]);
  }

  lemma ThreeDigits(code: CodeUnit, d: seq<Byte>)
    requires IsControl(code) && |d| >= 3 && d[..3] == DecimalEscape(code)[1..]
    ensures DigitRun(d) == 3 && Decimal(d, 3) == code
  {
    hide Decimal, DigitRun;
    var t := d[..3];
    assert d[0] == t[0] && d[1] == t[1] && d[2] == t[2];
    RunOfThree(d, code / 100, code / 10 % 10, code % 10);
    ThreePlaces(code);
  }

  lemma ThreePlaces(n: nat)
    ensures n / 100 * 100 + n / 10 % 10 * 10 + n % 10 == n
  {
    var tens := n / 10;
    assert tens / 10 == n / 100;
    assert n == tens * 10 + n % 10 && tens == tens / 10 * 10 + tens % 10;
  }

  lemma RunOfThree(d: seq<Byte>, x: nat, y: nat, z: nat)
    requires |d| >= 3 && x < 10 && y < 10 && z < 10 && d[0] == 0x30 + x && d[1] == 0x30 + y && d[2] == 0x30 + z
    ensures DigitRun(d) == 3 && Decimal(d, 3) == x * 100 + y * 10 + z
  {
    assert Decimal(d, 3) == Decimal(d, 2) * 10 + z;
    assert Decimal(d, 2) == Decimal(d, 1) * 10 + y;
    assert Decimal(d, 1) == Decimal(d, 0) * 10 + x;
  }

  lemma EncodedIsPlain(p: Point)
    requires p < 0x80 ==> IsPlain(p)
    ensures forall i :: 0 <= i < |EncodePoint(p)| ==> IsPlain(EncodePoint(p)[i])
  {}

  /** One code point of a literal is read back as the bytes of that code point. */
  lemma ReadsPoint(s: Text, rest: seq<Byte>)
    requires s != [] && WellFormed(s)
    ensures WellFormed(EscapedPoint(s))
    ensures ReadBody(Utf8(EscapedPoint(s)) + rest) == Prefixed(EncodePoint(First(s)), ReadBody(rest))
  {
    var piece := EscapedPoint(s);
    if s[0] == BACKSLASH || s[0] == QUOTE {
      AsciiIsItself(piece);
      ReadsSymbol(s[0], rest);
    } else if IsControl(s[0]) {
      hide ReadBody;
      ReadsDecimal(s[0], rest);
      AsciiIsItself(piece);
    } else {
      hide ReadBody;
      PlainPoint(s);
      EncodedIsPlain(First(s));
      ReadsPlain(EncodePoint(First(s)), rest);
    }
  }

  lemma ReadsSymbol(symbol: CodeUnit, rest: seq<Byte>)
    requires symbol == BACKSLASH || symbol == QUOTE
    ensures ReadBody([BACKSLASH, symbol] + rest) == Prefixed([symbol], ReadBody(rest))
  {
    var b := [BACKSLASH, symbol] + rest;
    assert b[1..] == [symbol] + rest && b[2..] == rest;
  }

  /** The code units of one point, taken out of the text, are that point's encoding. */
  lemma PlainPoint(s: Text)
    requires s != [] && WellFormed(s)
    ensures WellFormed(s[..Width(s)]) && Utf8(s[..Width(s)]) == EncodePoint(First(s))
  {
    var piece := s[..Width(s)];
    assert StartsWithPair(piece) == StartsWithPair(s) && piece[Width(piece)..] == [];
    assert First(piece) == First(s);
  }

  lemma {:induction false} ReadsEscaped(s: Text, rest: seq<Byte>)
    requires WellFormed(s)
    ensures WellFormed(Escaped(s))
    ensures ReadBody(Utf8(Escaped(s)) + [0x22] + rest) == Some(Token(Utf8(s), rest))
  {
    var tail := [0x22] + rest;
    if s == [] {
      assert Utf8(Escaped(s)) + [0x22] + rest == tail;
    } else {
      var more := s[Width(s)..];
      ReadsEscaped(more, rest);
      ReadsPoint(s, Utf8(Escaped(more)) + [0x22] + rest);
      WellFormedConcat(EscapedPoint(s), Escaped(more));
      Utf8Concat(EscapedPoint(s), Escaped(more));
      Regroup(Utf8(EscapedPoint(s)), Utf8(Escaped(more)), [0x22]);
      Regroup(Utf8(EscapedPoint(s)), Utf8(Escaped(more)) + [0x22], rest);
    }
  }

  /**
   * Reading the encoded literal of a well-formed text, whatever source follows it, consumes exactly
   * the literal and yields the text's own encoding.
   */
  lemma LiteralReadsBack(s: Text, rest: seq<Byte>)
    requires LuaLiteral(s).Some?
    ensures WellFormed(LuaLiteral(s).value)
    ensures ReadString(Utf8(LuaLiteral(s).value) + rest) == Some(Token(Utf8(s), rest))
  {
    hide ReadBody, ReadString, EscapedPoint;
    var body := Escaped(s);
    hide Escaped;
    ReadsEscaped(s, rest);
    AsciiIsItself([QUOTE]);
    WellFormedConcat([QUOTE], body);
    WellFormedConcat([QUOTE] + body, [QUOTE]);
    Utf8Concat([QUOTE], body);
    Utf8Concat([QUOTE] + body, [QUOTE]);
    Framed(Utf8(body), rest);
  }

  lemma Framed(body: seq<Byte>, rest: seq<Byte>)
    ensures ReadString([0x22] + body + [0x22] + rest) == ReadBody(body + [0x22] + rest)
  {
    hide ReadBody;
    assert ([0x22] + body + [0x22] + rest)[1..] == body + [0x22] + rest;
  }

  /** A literal exists exactly for texts without lone surrogates, and determines its text. */
  lemma LiteralIsInjective(s: Text, t: Text)
    requires LuaLiteral(s).Some? && LuaLiteral(s) == LuaLiteral(t)
    ensures s == t
  {
    LiteralReadsBack(s, []);
    LiteralReadsBack(t, []);
    Utf8IsInjective(s, t);
  }
}
