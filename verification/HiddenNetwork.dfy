/** The check on the name and password of a hidden network. */
module HiddenNetwork {
  import opened Wrappers
  import opened Unicode

  /** The units `encodeURIComponent` leaves alone: letters, digits and - _ . ! ~ * ' ( ) */
  predicate IsUnreserved(u: CodeUnit) {
    || 0x41 <= u <= 0x5A || 0x61 <= u <= 0x7A || 0x30 <= u <= 0x39
    || u == 0x2D || u == 0x5F || u == 0x2E || u == 0x21 || u == 0x7E || u == 0x2A || u == 0x27 || u == 0x28 || u == 0x29
  }

  function HexDigit(n: nat): CodeUnit
    requires n < 16
  {
    if n < 10 then 0x30 + n else 0x41 + (n - 10)
  }

  function Percent(b: Byte): Text { [0x25, HexDigit(b / 16), HexDigit(b % 16)] }

  function PercentAll(bytes: seq<Byte>): Text {
    if bytes == [] then [] else Percent(bytes[0]) + PercentAll(bytes[1..])
  }

  /** Percent-encoding by section 2.1 of RFC 3986. */
  function Encoded(s: Text): Text {
    if s == [] then []
    else (if IsUnreserved(s[0]) then [s[0]] else PercentAll(EncodePoint(First(s)))) + Encoded(s[Width(s)..])
  }

  /** `encodeURIComponent`, which throws on a lone surrogate. */
  function EncodeUriComponent(s: Text): Option<Text> { if WellFormed(s) then Some(Encoded(s)) else None }

  predicate IsUpperHex(u: CodeUnit) { 0x30 <= u <= 0x39 || 0x41 <= u <= 0x46 }

  predicate IsLineEnd(u: CodeUnit) { u == 0x0A || u == 0x0D || u == 0x2028 || u == 0x2029 }

  /** How many matches `/%[A-F0-9]{2}|./g` finds. */
  function TokenCount(s: Text): nat
    decreases |s|
  {
    if s == [] then 0
    else if |s| >= 3 && s[0] == 0x25 && IsUpperHex(s[1]) && IsUpperHex(s[2]) then 1 + TokenCount(s[3..])
    else (if IsLineEnd(s[0]) then 0 else 1) + TokenCount(s[1..])
  }

  lemma {:induction false} PercentTokens(bytes: seq<Byte>, rest: Text)
    ensures TokenCount(PercentAll(bytes) + rest) == |bytes| + TokenCount(rest)
  {
    if bytes == [] {
      assert PercentAll(bytes) + rest == rest;
    } else {
      var more := PercentAll(bytes[1..]) + rest;
      PercentTokens(bytes[1..], rest);
      assert PercentAll(bytes) + rest == Percent(bytes[0]) + more;
      assert (Percent(bytes[0]) + more)[3..] == more;
    }
  }

  /** The tokens of the percent-encoding are the bytes of the UTF-8 encoding. */
  lemma {:induction false} TokensAreBytes(s: Text)
    ensures TokenCount(Encoded(s)) == |Utf8(s)|
  {
    if s == [] {
    } else {
      var more := Encoded(s[Width(s)..]);
      TokensAreBytes(s[Width(s)..]);
      if IsUnreserved(s[0]) {
        assert ([s[0]] + more)[1..] == more;
      } else {
        PercentTokens(EncodePoint(First(s)), more);
      }
    }
  }

  datatype Security = Open | WpaPsk | Sae | OtherSecurity

  const MAX_SSID_BYTES := 32

  /** What is asked of the security and its password. */
  predicate PasswordFits(security: Security, password: Text) {
    match security
    case OtherSecurity => false
    case Open => password == []
    case WpaPsk | Sae => password != [] && 0x0D !in password && 0x0A !in password && 0 !in password
  }

  /** `ssid` is nothing when it is not a string. */
  predicate HiddenInput(ssid: Option<Text>, security: Security, password: Text) {
    if ssid.None? || ssid.value == [] || 0 in ssid.value then false
    else
      var encoded := EncodeUriComponent(ssid.value);
      if encoded.None? || TokenCount(encoded.value) > MAX_SSID_BYTES then false else PasswordFits(security, password)
  }

  /** Accepted names are exactly the well-formed ones of 1 to 32 bytes without a NUL, given a fitting password. */
  lemma AcceptsOneTo32Bytes(ssid: Text, security: Security, password: Text)
    ensures HiddenInput(Some(ssid), security, password) <==>
            WellFormed(ssid) && 1 <= |Utf8(ssid)| <= MAX_SSID_BYTES && 0 !in ssid && PasswordFits(security, password)
  {
    TokensAreBytes(ssid);
  }

  /** The whole check in the protocol's terms, passwords included. */
  lemma AcceptsExactly(ssid: Option<Text>, security: Security, password: Text)
    ensures HiddenInput(ssid, security, password) <==>
            && ssid.Some? && WellFormed(ssid.value) && 1 <= |Utf8(ssid.value)| <= 32
            && (forall i :: 0 <= i < |ssid.value| ==> ssid.value[i] != 0)
            && match security
               case Open => password == []
               case WpaPsk | Sae =>
                 password != [] && forall i :: 0 <= i < |password| ==> password[i] != 0x0A && password[i] != 0x0D
                                                                       && password[i] != 0
               case OtherSecurity => false
  {
    if ssid.Some? {
      AcceptsOneTo32Bytes(ssid.value, security, password);
    }
  }

  // ---- The percent-encoding ----

  function HexIn(u: CodeUnit): Option<nat> {
    if 0x30 <= u <= 0x39 then Some(u - 0x30) else if 0x41 <= u <= 0x46 then Some(u - 0x41 + 10) else None
  }

  /** The bytes a percent-encoded text stands for. */
  function Decoded(s: Text): Option<seq<Byte>>
    decreases |s|
  {
    if s == [] then Some([])
    else if s[0] != 0x25 then
      var rest := Decoded(s[1..]);
      if rest.None? || s[0] >= 0x80 then None else Some([s[0]] + rest.value)
    else if |s| < 3 || HexIn(s[1]).None? || HexIn(s[2]).None? then None
    else
      var rest := Decoded(s[3..]);
      if rest.None? then None else Some([HexIn(s[1]).value * 16 + HexIn(s[2]).value] + rest.value)
  }

  lemma PercentDecodes(b: Byte, rest: Text)
    requires Decoded(rest).Some?
    ensures Decoded(Percent(b) + rest) == Some([b] + Decoded(rest).value)
  {
    hide HexIn, HexDigit;
    HexReadsBack(b / 16);
    HexReadsBack(b % 16);
    assert (Percent(b) + rest)[3..] == rest;
  }

  lemma HexReadsBack(n: nat)
    requires n < 16
    ensures HexIn(HexDigit(n)) == Some(n)
  {}

  lemma {:induction false} PercentsDecode(bytes: seq<Byte>, rest: Text)
    requires Decoded(rest).Some?
    ensures Decoded(PercentAll(bytes) + rest) == Some(bytes + Decoded(rest).value)
  {
    hide Decoded, Percent;
    if bytes == [] {
      assert PercentAll(bytes) + rest == rest && bytes + Decoded(rest).value == Decoded(rest).value;
    } else {
      var more := PercentAll(bytes[1..]) + rest;
      PercentsDecode(bytes[1..], rest);
      PercentDecodes(bytes[0], more);
      assert PercentAll(bytes) + rest == Percent(bytes[0]) + more;
      assert [bytes[0]] + (bytes[1..] + Decoded(rest).value) == bytes + Decoded(rest).value;
    }
  }

  /** Decoding an encoded text gives its UTF-8. */
  lemma {:induction false} EncodedDecodes(s: Text)
    ensures Decoded(Encoded(s)) == Some(Utf8(s))
  {
    hide EncodePoint, Percent, Decoded;
    if s == [] {
      NothingDecodes();
    } else {
      var more := Encoded(s[Width(s)..]);
      EncodedDecodes(s[Width(s)..]);
      if IsUnreserved(s[0]) {
        PlainDecodes(s[0], more);
        UnreservedIsItself(s);
      } else {
        PercentsDecode(EncodePoint(First(s)), more);
      }
    }
  }

  lemma NothingDecodes()
    ensures Decoded([]) == Some([])
  {}

  lemma PlainDecodes(u: CodeUnit, rest: Text)
    requires IsUnreserved(u) && Decoded(rest).Some?
    ensures u < 0x80 && Decoded([u] + rest) == Some([u] + Decoded(rest).value)
  {
    assert ([u] + rest)[1..] == rest;
  }

  lemma UnreservedIsItself(s: Text)
    requires s != [] && IsUnreserved(s[0])
    ensures EncodePoint(First(s)) == [s[0]]
  {}

  /** Besides letters and digits nine marks are left alone. */
  lemma UnreservedAre(u: CodeUnit)
    ensures IsUnreserved(u) <==>
            'A' as int <= u <= 'Z' as int || 'a' as int <= u <= 'z' as int || '0' as int <= u <= '9' as int
            || u in Ascii("-_.!~*'()")
  {
    hide Ascii;
    var s := "-_.!~*'()";
    var t := Ascii(s);
    assert t[0] == 0x2D && t[1] == 0x5F && t[2] == 0x2E && t[3] == 0x21 && t[4] == 0x7E && t[5] == 0x2A;
    assert t[6] == 0x27 && t[7] == 0x28 && t[8] == 0x29;
  }
}
