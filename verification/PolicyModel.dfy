/** The byte length the policy service checks its texts with. */
module PolicyModel {
  import opened Unicode

  /** The loop counts the bytes of the UTF-8 encoding, three for a lone surrogate. */
  method Utf8Length(text: Text) returns (bytes: nat)
    ensures bytes == |Utf8(text)|
  {
    hide Utf8, EncodePoint, First, Width;
    bytes := 0;
    var i := 0;
    assert text[0..] == text;
    NoBytes();
    while i < |text|
      invariant 0 <= i <= |text|
      invariant bytes + |Utf8(text[i..])| == |Utf8(text)|
    {
      var code := text[i];
      PointAt(text, i);
      if code < 128 {
        bytes := bytes + 1;
      } else if code < 2048 {
        bytes := bytes + 2;
      } else if 0xD800 <= code <= 0xDBFF && i + 1 < |text| && 0xDC00 <= text[i + 1] <= 0xDFFF {
        bytes := bytes + 4;
        i := i + 1;
      } else {
        bytes := bytes + 3;
      }
      i := i + 1;
    }
    assert text[i..] == [];
  }

  lemma NoBytes()
    ensures Utf8([]) == []
  {}

  /** How many bytes the code point at `i` takes, and where the next one starts. */
  lemma PointAt(text: Text, i: nat)
    requires i < |text|
    ensures var rest, code := text[i..], text[i];
            var pair := IsHigh(code) && i + 1 < |text| && IsLow(text[i + 1]);
            |Utf8(rest)| == |Utf8(text[if pair then i + 2 else i + 1..])|
                            + if code < 0x80 then 1 else if code < 0x800 then 2 else if pair then 4 else 3
  {
    hide Utf8;
    var rest := text[i..];
    assert rest[1..] == text[i + 1..];
    assert |rest| >= 2 ==> rest[2..] == text[i + 2..];
    FirstThenRest(rest);
  }
}
