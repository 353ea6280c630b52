/** The decoder of UTF-8 (section 3 of RFC 3629), which gives every encoded text back. */
module Utf8Reader {
  import opened Wrappers
  import opened Unicode

  datatype Reading = Reading(point: int, rest: seq<Byte>)

  /** The six bits of a byte that continues a code point. */
  function Bits(b: Byte): Option<int> { if 0x80 <= b < 0xC0 then Some(b - 0x80) else None }

  /** The lead byte says how many bytes follow it. */
  function ReadPoint(bytes: seq<Byte>): Option<Reading> {
    if bytes == [] then None
    else
      var lead: int, n := bytes[0], |bytes|;
      var b := if n >= 2 then Bits(bytes[1]) else None;
      var c := if n >= 3 then Bits(bytes[2]) else None;
      var d := if n >= 4 then Bits(bytes[3]) else None;
      if lead < 0x80 then Some(Reading(lead, bytes[1..]))
      else if 0xC0 <= lead < 0xE0 && b.Some? then Some(Reading((lead - 0xC0) * 0x40 + b.value, bytes[2..]))
      else if 0xE0 <= lead < 0xF0 && b.Some? && c.Some? then
        Some(Reading((lead - 0xE0) * 0x1000 + b.value * 0x40 + c.value, bytes[3..]))
      else if 0xF0 <= lead < 0xF8 && b.Some? && c.Some? && d.Some? then
        Some(Reading((lead - 0xF0) * 0x4_0000 + b.value * 0x1000 + c.value * 0x40 + d.value, bytes[4..]))
      else None
  }

  /** The UTF-16 form of a code point: itself, or a surrogate pair. */
  function Units(p: Point): Text {
    if p < 0x1_0000 then [p] else [0xD800 + (p - 0x1_0000) / 0x400, 0xDC00 + (p - 0x1_0000) % 0x400]
  }

  function ReadUtf8(bytes: seq<Byte>): Option<Text>
    decreases |bytes|
  {
    if bytes == [] then Some([])
    else
      var first := ReadPoint(bytes);
      if first.None? || !(0 <= first.value.point < 0x11_0000) || |first.value.rest| >= |bytes| then None
      else
        var rest := ReadUtf8(first.value.rest);
        if rest.None? then None else Some(Units(first.value.point) + rest.value)
  }

  lemma PointReadsBack(p: Point, rest: seq<Byte>)
    ensures ReadPoint(EncodePoint(p) + rest) == Some(Reading(p, rest))
  {
    var bytes, s := EncodePoint(p), EncodePoint(p) + rest;
    BytesTellPoint(p);
    assert s[|bytes|..] == rest && forall i :: 0 <= i < |bytes| ==> s[i] == bytes[i];
  }

  lemma UnitsOfFirst(s: Text)
    requires s != []
    ensures Units(First(s)) == s[..Width(s)]
  {}

  lemma PointThenRest(p: Point, bytes: seq<Byte>)
    requires ReadUtf8(bytes).Some?
    ensures ReadUtf8(EncodePoint(p) + bytes) == Some(Units(p) + ReadUtf8(bytes).value)
  {
    hide EncodePoint, ReadPoint, Units;
    PointReadsBack(p, bytes);
  }

  /** Decoding gives back every encoded text, lone surrogates included. */
  lemma {:induction false} Utf8ReadsBack(s: Text)
    ensures ReadUtf8(Utf8(s)) == Some(s)
  {
    hide *;
    if s == [] {
      NothingReads();
    } else {
      var rest := s[Width(s)..];
      Utf8ReadsBack(rest);
      FirstThenRest(s);
      PointThenRest(First(s), Utf8(rest));
      UnitsOfFirst(s);
      assert s == s[..Width(s)] + rest;
    }
  }

  lemma NothingReads()
    ensures Utf8([]) == [] && ReadUtf8([]) == Some([])
  {}
}
