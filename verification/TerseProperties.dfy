/** NetworkManager property listings: values collected under the base of their key. */
module TerseProperties {
  import opened Wrappers
  import opened Unicode
  import opened Splitting
  import opened TerseFields

  /** The names a plain JavaScript object already answers to: `Object.prototype`'s own properties. */
  const INHERITED: seq<string> := [
    "constructor", "__defineGetter__", "__defineSetter__", "hasOwnProperty", "__lookupGetter__", "__lookupSetter__",
    "isPrototypeOf", "propertyIsEnumerable", "toString", "valueOf", "__proto__", "toLocaleString"]

  predicate IsInherited(name: Text) { exists i :: 0 <= i < |INHERITED| && Ascii(INHERITED[i]) == name }

  /** The key up to its first bracket. */
  function Base(row: seq<Text>): Text
    requires row != []
  {
    SplitOn(row[0], BRACKET)[0]
  }

  function Value(row: seq<Text>): Text
    requires row != []
  {
    if |row| == 1 then [] else Join(row[1..], COLON)
  }

  /** The values of the rows with one base, in the order of the rows. */
  function ValuesOf(rows: seq<seq<Text>>, base: Text): seq<Text>
    requires forall i :: 0 <= i < |rows| ==> rows[i] != []
  {
    if rows == [] then []
    else
      var last := rows[|rows| - 1];
      ValuesOf(rows[..|rows| - 1], base) + if Base(last) == base then [Value(last)] else []
  }

  ghost predicate Usable(rows: seq<seq<Text>>)
    requires forall i :: 0 <= i < |rows| ==> rows[i] != []
  {
    forall i :: 0 <= i < |rows| ==> !IsInherited(Base(rows[i]))
  }

  lemma {:induction false} RowsAreNotEmpty(lines: seq<Text>)
    ensures forall i :: 0 <= i < |RowsOf(lines)| ==> RowsOf(lines)[i] != []
  {
    if lines == [] {
    } else {
      RowsAreNotEmpty(lines[1..]);
    }
  }

  function PropertyRows(text: Text): (rows: seq<seq<Text>>)
    ensures forall i :: 0 <= i < |rows| ==> rows[i] != []
  {
    RowsAreNotEmpty(SplitOn(text, NEWLINE));
    Rows(text)
  }

  /**
   * Collects the rows into an object. A base that the empty object already answers to is never given a
   * list of its own, so pushing onto it fails: then there is no result at all.
   */
  method Properties(text: Text) returns (result: Option<map<Text, seq<Text>>>)
    ensures result.Some? <==> Usable(PropertyRows(text))
    ensures result.Some? ==> forall b :: b in result.value <==>
            exists i :: 0 <= i < |PropertyRows(text)| && Base(PropertyRows(text)[i]) == b
    ensures result.Some? ==> forall b :: b in result.value ==> result.value[b] == ValuesOf(PropertyRows(text), b)
  {
    hide IsInherited, Base, Value, PropertyRows, ValuesOf;
    var rows := PropertyRows(text);
    var collected: map<Text, seq<Text>> := map[];
    for n := 0 to |rows|
      invariant Usable(rows[..n])
      invariant forall b :: b in collected <==> exists i :: 0 <= i < n && Base(rows[i]) == b
      invariant forall b :: b in collected ==> collected[b] == ValuesOf(rows[..n], b)
    {
      var base := Base(rows[n]);
      ValuesGrow(rows, n);
      if base !in collected {
        if IsInherited(base) {
          return None;
        }
        NoneUnder(rows[..n], base);
        collected := collected[base := []];
      }
      collected := collected[base := collected[base] + [Value(rows[n])]];
    }
    assert rows[..|rows|] == rows;
    return Some(collected);
  }

  lemma ValuesGrow(rows: seq<seq<Text>>, n: nat)
    requires n < |rows| && forall i :: 0 <= i < |rows| ==> rows[i] != []
    ensures forall b :: ValuesOf(rows[..n + 1], b) ==
                        ValuesOf(rows[..n], b) + if Base(rows[n]) == b then [Value(rows[n])] else []
  {
    hide Base, Value;
    assert rows[..n + 1][..n] == rows[..n];
  }

  lemma {:induction false} NoneUnder(rows: seq<seq<Text>>, base: Text)
    requires forall i :: 0 <= i < |rows| ==> rows[i] != [] && Base(rows[i]) != base
    ensures ValuesOf(rows, base) == []
  {
    if rows == [] {
    } else {
      NoneUnder(rows[..|rows| - 1], base);
    }
  }

  /** Every row's value stands once under its base, after the values of the earlier rows with that base. */
  lemma {:induction false} RowKeepsItsPlace(rows: seq<seq<Text>>, i: nat)
    requires i < |rows| && forall k :: 0 <= k < |rows| ==> rows[k] != []
    ensures var values, rank := ValuesOf(rows, Base(rows[i])), |ValuesOf(rows[..i], Base(rows[i]))|;
            rank < |values| && values[rank] == Value(rows[i]) && values[..rank] == ValuesOf(rows[..i], Base(rows[i]))
  {
    var n := |rows| - 1;
    if i == n {
    } else {
      assert rows[..n][..i] == rows[..i];
      RowKeepsItsPlace(rows[..n], i);
    }
  }

  /** How many rows have one base. */
  function RowsUnder(rows: seq<seq<Text>>, base: Text): set<nat>
    requires forall i :: 0 <= i < |rows| ==> rows[i] != []
  {
    set i: nat | i < |rows| && Base(rows[i]) == base
  }

  lemma OneMoreUnder(rows: seq<seq<Text>>, base: Text)
    requires rows != [] && forall i :: 0 <= i < |rows| ==> rows[i] != []
    ensures |RowsUnder(rows, base)| ==
            |RowsUnder(rows[..|rows| - 1], base)| + if Base(rows[|rows| - 1]) == base then 1 else 0
  {
    hide Base;
    var n := |rows| - 1;
    assert RowsUnder(rows, base) == RowsUnder(rows[..n], base) + if Base(rows[n]) == base then {n} else {};
  }

  /** Nothing else is collected: there are as many values under a base as rows with it. */
  lemma {:induction false} NothingIsAdded(rows: seq<seq<Text>>, base: Text)
    requires forall i :: 0 <= i < |rows| ==> rows[i] != []
    ensures |ValuesOf(rows, base)| == |RowsUnder(rows, base)|
  {
    if rows == [] {
      assert RowsUnder(rows, base) == {};
    } else {
      hide RowsUnder, Base, Value;
      NothingIsAdded(rows[..|rows| - 1], base);
      OneMoreUnder(rows, base);
    }
  }

  /** A row whose base is an inherited name makes the whole listing fail, whatever its values. */
  lemma InheritedKeyFails(record: seq<Text>)
    requires record != [] && NewlineFree(record) && IsInherited(Base(record))
    ensures !Usable(PropertyRows(EncodeRecord(record)))
  {
    hide IsInherited, EncodeRecord;
    if record == [[]] {
      InheritedIsNotEmpty();
    }
    var records := [record];
    RowsReadBack(records);
    assert EncodeAll(records) == [EncodeRecord(record)];
    assert PropertyRows(EncodeRecord(record))[0] == record;
  }

  lemma InheritedIsNotEmpty()
    ensures !IsInherited([])
  {
    forall i | 0 <= i < |INHERITED| ensures Ascii(INHERITED[i]) != [] {
      assert |INHERITED[i]| > 0;
    }
  }

  /** One such text is `constructor:x`. */
  lemma ConstructorFails()
    ensures !Usable(PropertyRows(Ascii("constructor:x")))
  {
    hide Ascii, Usable, PropertyRows;
    var name := "constructor";
    var key := Ascii(name);
    assert INHERITED[0] == name && forall i :: 0 <= i < |name| ==> 'a' <= name[i] <= 'z';
    var record := [key, [0x78]];
    SplitPrefix(key, [], BRACKET);
    assert key + [] == key && Base(record) == key;
    InheritedKeyFails(record);
    ConstructorText(key);
  }

  lemma ConstructorText(key: Text)
    requires key == Ascii("constructor")
    ensures EncodeRecord([key, [0x78]]) == Ascii("constructor:x")
  {
    hide Ascii, EscapeField;
    ConstructorUnits(key);
    PlainEscape(key);
    PlainEscape([0x78]);
    assert [key, [0x78]][1..] == [[0x78]];
  }

  lemma ConstructorUnits(key: Text)
    requires key == Ascii("constructor")
    ensures forall i :: 0 <= i < |key| ==> key[i] != COLON && key[i] != BACKSLASH
    ensures key + [COLON] + [0x78] == Ascii("constructor:x")
  {
    hide Ascii;
    var name, whole := "constructor", "constructor:x";
    assert forall i :: 0 <= i < |name| ==> 'a' <= name[i] <= 'z' && whole[i] == name[i];
    assert whole[11] == ':' && whole[12] == 'x';
  }

  lemma {:induction false} PlainEscape(s: Text)
    requires forall i :: 0 <= i < |s| ==> s[i] != COLON && s[i] != BACKSLASH
    ensures EscapeField(s) == s
  {
    if s == [] {
    } else {
      PlainEscape(s[1..]);
    }
  }

  // ---- What a plain line says ----

  /** Without backslashes, the fields of a line are its pieces between colons. */
  lemma {:induction false} PlainFields(value: Text, s: Text)
    requires BACKSLASH !in s
    ensures var pieces := SplitOn(s, COLON); Fields(value, false, s) == [value + pieces[0]] + pieces[1..]
    decreases |s|
  {
    var pieces := SplitOn(s, COLON);
    if s == [] {
      assert value + pieces[0] == value && [value + pieces[0]] + pieces[1..] == [value];
    } else {
      var rest := SplitOn(s[1..], COLON);
      if s[0] == COLON {
        PlainFields([], s[1..]);
        assert [] + rest[0] == rest[0] && [rest[0]] + rest[1..] == rest && pieces[1..] == rest;
        assert value + pieces[0] == value;
      } else {
        PlainFields(value + [s[0]], s[1..]);
        assert value + [s[0]] + rest[0] == value + ([s[0]] + rest[0]) && pieces[1..] == rest[1..];
      }
    }
  }

  /** A name, an index in brackets or none, a colon and a value: the value, colons and all, stands under the name. */
  lemma PlainLineSays(name: Text, index: Text, value: Text)
    requires forall u :: u in name + index ==> u != 0x3A && u != 0x5C && u != 0x0A
    requires 0x5B !in name && (index != [] ==> index[0] == 0x5B) && 0x5C !in value && 0x0A !in value
    ensures var rows := PropertyRows(name + index + [0x3A] + value);
            |rows| == 1 && Base(rows[0]) == name && Value(rows[0]) == value
  {
    hide Fields;
    var key, line := name + index, name + index + [0x3A] + value;
    var row := Fields([], false, line);
    OneRow(line);
    PlainFields([], line);
    assert line == key + ([COLON] + value) && ([COLON] + value)[1..] == value;
    SplitPrefix(key, [COLON] + value, COLON);
    var pieces := SplitOn(line, COLON);
    assert pieces[0] == key + [] == key && pieces[1..] == SplitOn(value, COLON) && [] + key == key;
    assert row == [key] + SplitOn(value, COLON) && row[1..] == SplitOn(value, COLON);
    JoinUndoesSplit(value, COLON);
    SplitPrefix(name, index, BRACKET);
    assert SplitOn(index, BRACKET)[0] == [] && name + [] == name;
  }

  lemma OneRow(line: Text)
    requires line != [] && 0x0A !in line
    ensures PropertyRows(line) == [Fields([], false, line)]
  {
    hide Fields;
    SplitPrefix(line, [], NEWLINE);
    assert line + [] == line && [line][1..] == [];
    assert RowsOf([]) == [];
  }
}
