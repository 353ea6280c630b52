/** NetworkManager's terse output: colon-separated fields with backslash escapes, one record a line. */
module TerseFields {
  import opened Unicode
  import opened Splitting

  const COLON: CodeUnit := 0x3A
  const BACKSLASH: CodeUnit := 0x5C
  const NEWLINE: CodeUnit := 0x0A
  const BRACKET: CodeUnit := 0x5B

  /** The fields still to come, given the field read so far and whether a backslash is pending. */
  function Fields(value: Text, escaped: bool, line: Text): (fields: seq<Text>)
    ensures fields != []
    decreases |line|
  {
    if line == [] then [if escaped then value + [BACKSLASH] else value]
    else if escaped then Fields(value + [line[0]], false, line[1..])
    else if line[0] == BACKSLASH then Fields(value, true, line[1..])
    else if line[0] == COLON then [value] + Fields([], false, line[1..])
    else Fields(value + [line[0]], false, line[1..])
  }

  method SplitFields(line: Text) returns (fields: seq<Text>)
    ensures fields == Fields([], false, line)
  {
    fields := [];
    var value: Text, escaped := [], false;
    for i := 0 to |line|
      invariant fields + Fields(value, escaped, line[i..]) == Fields([], false, line)
    {
      var c := line[i];
      assert line[i..][0] == c && line[i..][1..] == line[i + 1..];
      ghost var before := fields + Fields(value, escaped, line[i..]);
      if escaped {
        value := value + [c];
        escaped := false;
      } else if c == 0x5C {
        escaped := true;
      } else if c == 0x3A {
        assert fields + ([value] + Fields([], false, line[i + 1..])) ==
               fields + [value] + Fields([], false, line[i + 1..]);
        fields := fields + [value];
        value := [];
      } else {
        value := value + [c];
      }
    }
    if escaped {
      value := value + [BACKSLASH];
    }
    fields := fields + [value];
  }

  // ---- The encoder it undoes ----

  function EscapeField(field: Text): Text {
    if field == [] then []
    else
      (if field[0] == COLON || field[0] == BACKSLASH then [BACKSLASH, field[0]] else [field[0]])
      + EscapeField(field[1..])
  }

  function EncodeRecord(fields: seq<Text>): Text
    requires fields != []
  {
    if |fields| == 1 then EscapeField(fields[0]) else EscapeField(fields[0]) + [COLON] + EncodeRecord(fields[1..])
  }

  /** An escaped field is read back as itself, up to whatever follows it. */
  lemma {:induction false} EscapedFieldReads(value: Text, field: Text, rest: Text)
    ensures Fields(value, false, EscapeField(field) + rest) == Fields(value + field, false, rest)
    decreases |field|
  {
    hide *;
    if field == [] {
      NothingEscaped();
      assert [] + rest == rest && value + field == value;
    } else {
      EscapeOneUnit(field, rest);
      EscapedFieldReads(value + [field[0]], field[1..], rest);
      assert value + [field[0]] + field[1..] == value + field;
      OneUnitReads(value, field[0], EscapeField(field[1..]) + rest);
    }
  }

  lemma NothingEscaped()
    ensures EscapeField([]) == []
  {}

  lemma EscapeOneUnit(field: Text, rest: Text)
    requires field != []
    ensures EscapeField(field) + rest ==
            (if field[0] == COLON || field[0] == BACKSLASH then [BACKSLASH, field[0]] else [field[0]])
              + (EscapeField(field[1..]) + rest)
  {}

  lemma OneUnitReads(value: Text, u: CodeUnit, tail: Text)
    ensures u == COLON || u == BACKSLASH ==>
            Fields(value, false, [BACKSLASH, u] + tail) == Fields(value + [u], false, tail)
    ensures u != COLON && u != BACKSLASH ==> Fields(value, false, [u] + tail) == Fields(value + [u], false, tail)
  {
    assert ([BACKSLASH, u] + tail)[1..] == [u] + tail && ([u] + tail)[1..] == tail;
  }

  /** Splitting undoes the terse encoding of every record. */
  lemma {:induction false} FieldsReadBack(fields: seq<Text>)
    requires fields != []
    ensures Fields([], false, EncodeRecord(fields)) == fields
  {
    var first := fields[0];
    assert [] + first == first;
    if |fields| == 1 {
      EscapedFieldReads([], first, []);
      assert EscapeField(first) + [] == EscapeField(first);
    } else {
      var more := [COLON] + EncodeRecord(fields[1..]);
      EscapedFieldReads([], first, more);
      assert EscapeField(first) + [COLON] + EncodeRecord(fields[1..]) == EscapeField(first) + more;
      FieldsReadBack(fields[1..]);
      assert more[1..] == EncodeRecord(fields[1..]);
    }
  }

  /** `text.split("\\n").filter(line => line.length > 0).map(splitFields)` over lines already split. */
  function RowsOf(lines: seq<Text>): seq<seq<Text>> {
    if lines == [] then []
    else (if lines[0] == [] then [] else [Fields([], false, lines[0])]) + RowsOf(lines[1..])
  }

  function Rows(text: Text): seq<seq<Text>> { RowsOf(SplitOn(text, NEWLINE)) }

  predicate NewlineFree(record: seq<Text>) { forall i :: 0 <= i < |record| ==> NEWLINE !in record[i] }

  function EncodeAll(records: seq<seq<Text>>): (lines: seq<Text>)
    requires forall i :: 0 <= i < |records| ==> records[i] != []
    ensures |lines| == |records| && forall i :: 0 <= i < |lines| ==> lines[i] == EncodeRecord(records[i])
  {
    seq(|records|, i requires 0 <= i < |records| => EncodeRecord(records[i]))
  }

  lemma {:induction false} EscapingAddsNoNewline(field: Text)
    requires NEWLINE !in field
    ensures NEWLINE !in EscapeField(field)
    ensures EscapeField(field) == [] <==> field == []
  {
    if field == [] {
    } else {
      EscapingAddsNoNewline(field[1..]);
    }
  }

  lemma {:induction false} EncodingAddsNoNewline(record: seq<Text>)
    requires record != [] && NewlineFree(record)
    ensures NEWLINE !in EncodeRecord(record)
    ensures EncodeRecord(record) == [] <==> record == [[]]
  {
    EscapingAddsNoNewline(record[0]);
    if |record| == 1 {
    } else {
      EncodingAddsNoNewline(record[1..]);
    }
  }

  /** The records that leave a trace: a lone empty field is an empty line, which is skipped. */
  function Visible(records: seq<seq<Text>>): seq<seq<Text>> {
    if records == [] then [] else (if records[0] == [[]] then [] else [records[0]]) + Visible(records[1..])
  }

  lemma {:induction false} RowsOfLines(records: seq<seq<Text>>)
    requires forall i :: 0 <= i < |records| ==> records[i] != [] && NewlineFree(records[i])
    ensures RowsOf(EncodeAll(records)) == Visible(records)
  {
    if records == [] {
    } else {
      EncodingAddsNoNewline(records[0]);
      FieldsReadBack(records[0]);
      RowsOfLines(records[1..]);
      assert EncodeAll(records)[1..] == EncodeAll(records[1..]);
    }
  }

  /** Reading many newline-free records back gives every record in order, except lone empty fields. */
  lemma RowsReadBack(records: seq<seq<Text>>)
    requires records != [] && forall i :: 0 <= i < |records| ==> records[i] != [] && NewlineFree(records[i])
    ensures Rows(Join(EncodeAll(records), NEWLINE)) == Visible(records)
    ensures (forall i :: 0 <= i < |records| ==> records[i] != [[]]) ==>
            Rows(Join(EncodeAll(records), NEWLINE)) == records
  {
    forall i | 0 <= i < |records| ensures NEWLINE !in EncodeAll(records)[i] { EncodingAddsNoNewline(records[i]); }
    SplitUndoesJoin(EncodeAll(records), NEWLINE);
    RowsOfLines(records);
    if forall i :: 0 <= i < |records| ==> records[i] != [[]] {
      AllVisible(records);
    }
  }

  lemma {:induction false} AllVisible(records: seq<seq<Text>>)
    requires forall i :: 0 <= i < |records| ==> records[i] != [[]]
    ensures Visible(records) == records
  {
    if records == [] {
    } else {
      AllVisible(records[1..]);
    }
  }
}
