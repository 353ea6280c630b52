/** The Hyprland dispatch commands: their Lua form, and what a reader gets back from it. */
module HyprActions {
  import opened Wrappers
  import opened Unicode
  import opened Decimals
  import opened LuaText
  import opened Splitting

  /** A workspace argument; `Fraction` is any number that is not an integer. */
  datatype Workspace = Integer(n: int) | Fraction | Name(text: Text) | OtherValue

  datatype Action = Action(lua: Text, legacy: Text)

  predicate IsHexUnit(u: CodeUnit) { 0x30 <= u <= 0x39 || 0x41 <= u <= 0x46 || 0x61 <= u <= 0x66 }

  predicate AllHex(s: Text) { forall i :: 0 <= i < |s| ==> IsHexUnit(s[i]) }

  function WorkspaceLua(workspace: Workspace): Option<Text> {
    match workspace
    case Integer(n) => if 0 < n <= MAX_SAFE_INTEGER then Some(Digits(n)) else None
    case Name(text) => if text == [] then None else LuaLiteral(text)
    case Fraction | OtherValue => None
  }

  /** No control character and none of , ; " ' \ */
  predicate LegacySafe(name: Text) {
    name != [] && forall i :: 0 <= i < |name| ==>
      !IsControl(name[i]) && name[i] != 0x2C && name[i] != 0x3B && name[i] != 0x22 && name[i] != 0x27 && name[i] != 0x5C
  }

  function WorkspaceLegacy(workspace: Workspace): Option<Text> {
    match workspace
    case Integer(n) => if 0 < n <= MAX_SAFE_INTEGER then Some(Digits(n)) else None
    case Name(text) => if LegacySafe(text) then Some(text) else None
    case Fraction | OtherValue => None
  }

  /** An optional 0x or 0X, then hexadecimal digits; `None` stands for a value that is not a string. */
  function NormalizeAddress(address: Option<Text>): (normalized: Option<Text>)
    ensures normalized.Some? ==> forall i :: 0 <= i < |normalized.value| ==>
            normalized.value[i] < 0x80 && normalized.value[i] != 0x2C
  {
    if address.None? then None
    else
      var a := address.value;
      var hex := if |a| >= 2 && a[0] == 0x30 && (a[1] == 0x78 || a[1] == 0x58) then a[2..] else a;
      if hex != [] && AllHex(hex) then Some([0x30, 0x78] + hex) else None
  }

  const HEX_DIGITS := Ascii("0123456789abcdefABCDEF")

  lemma HexUnitsAre(u: CodeUnit)
    ensures IsHexUnit(u) <==> u in HEX_DIGITS
  {
    hide Ascii;
    var s := "0123456789abcdefABCDEF";
    var t := Ascii(s);
    assert |s| == 22 && forall i :: 0 <= i < 22 ==> IsHexUnit(s[i] as int);
    if 0x30 <= u <= 0x39 {
      assert s[u - 0x30] as int == u && t[u - 0x30] == u;
    } else if 0x61 <= u <= 0x66 {
      assert s[u - 0x61 + 10] as int == u && t[u - 0x61 + 10] == u;
    } else if 0x41 <= u <= 0x46 {
      assert s[u - 0x41 + 16] as int == u && t[u - 0x41 + 16] == u;
    }
  }

  /** The three ways to write the hexadecimal digits of an address. */
  predicate Spells(address: Text, hex: Text) {
    && hex != [] && (forall i :: 0 <= i < |hex| ==> hex[i] in HEX_DIGITS)
    && (address == hex || address == [0x30, 0x78] + hex || address == [0x30, 0x58] + hex)
  }

  lemma AllHexMeans(s: Text)
    ensures AllHex(s) <==> forall i :: 0 <= i < |s| ==> s[i] in HEX_DIGITS
  {
    hide IsHexUnit, HEX_DIGITS;
    forall i | 0 <= i < |s| ensures IsHexUnit(s[i]) <==> s[i] in HEX_DIGITS { HexUnitsAre(s[i]); }
  }

  /** Exactly the spellings of hexadecimal digits are accepted, and all spellings of the same digits become one. */
  lemma AddressIsNormalised(address: Text)
    ensures NormalizeAddress(Some(address)).Some? <==> exists hex :: Spells(address, hex)
    ensures forall hex :: Spells(address, hex) ==> NormalizeAddress(Some(address)) == Some([0x30, 0x78] + hex)
  {
    hide HEX_DIGITS, AllHex, IsHexUnit;
    if NormalizeAddress(Some(address)).Some? {
      var prefixed := |address| >= 2 && address[0] == 0x30 && (address[1] == 0x78 || address[1] == 0x58);
      var hex := if prefixed then address[2..] else address;
      assert prefixed ==> address == [0x30, address[1]] + hex;
      AllHexMeans(hex);
      assert Spells(address, hex);
    }
    forall hex | Spells(address, hex) ensures NormalizeAddress(Some(address)) == Some([0x30, 0x78] + hex) {
      SpeltAddress(address, hex);
    }
  }

  lemma SpeltAddress(address: Text, hex: Text)
    requires Spells(address, hex)
    ensures NormalizeAddress(Some(address)) == Some([0x30, 0x78] + hex)
  {
    hide HEX_DIGITS, IsHexUnit;
    AllHexMeans(hex);
    if address == hex {
      NoX(hex);
    } else {
      assert address[2..] == hex;
    }
  }

  lemma NoX(hex: Text)
    requires AllHex(hex)
    ensures |hex| >= 2 ==> hex[1] != 0x78 && hex[1] != 0x58
  {
    assert |hex| >= 2 ==> IsHexUnit(hex[1]);
  }

  const ADDRESS := Ascii("address:")

  function WindowSelector(address: Option<Text>): Option<Text> {
    var normalized := NormalizeAddress(address);
    if normalized.None? then None else Some(ADDRESS + normalized.value)
  }

  const MOVE := Ascii("hl.dsp.window.move({ window = ")
  const WORKSPACE := Ascii(", workspace = ")
  const FOLLOW := Ascii(", follow = ")
  const YES := Ascii("true })")
  const NO := Ascii("false })")

  function MoveLua(window: Text, workspace: Text, follow: bool): Text {
    MOVE + window + WORKSPACE + workspace + FOLLOW + if follow then YES else NO
  }

  function MoveLegacy(selector: Text, workspace: Text, follow: bool): Text {
    Ascii(if follow then "movetoworkspace " else "movetoworkspacesilent ") + workspace + [0x2C] + selector
  }

  /** `follow` is `None` when it is not a boolean. */
  function MoveWindow(address: Option<Text>, workspace: Workspace, follow: Option<bool>): Option<Action> {
    var selector := WindowSelector(address);
    if follow.None? || selector.None? then None
    else
      var window := LuaLiteral(selector.value);
      var luaWorkspace := WorkspaceLua(workspace);
      var legacy := WorkspaceLegacy(workspace);
      if window.None? || luaWorkspace.None? then None
      else Some(Action(MoveLua(window.value, luaWorkspace.value, follow.value),
                       if legacy.None? then [] else MoveLegacy(selector.value, legacy.value, follow.value)))
  }

  // ---- Reading a move command ----

  datatype Argument = Number(n: nat) | Words(bytes: seq<Byte>)

  datatype Move = Move(window: seq<Byte>, workspace: Argument, follow: bool)

  function After(prefix: Text, s: seq<Byte>): Option<seq<Byte>> {
    if |prefix| <= |s| && (forall i :: 0 <= i < |prefix| ==> prefix[i] == s[i]) then Some(s[|prefix|..]) else None
  }

  function NumberRun(s: seq<Byte>): (n: nat)
    ensures n <= |s| && forall i :: 0 <= i < n ==> IsDigit(s[i])
    ensures n < |s| ==> !IsDigit(s[n])
  {
    if s == [] || !IsDigit(s[0]) then 0 else 1 + NumberRun(s[1..])
  }

  datatype Argued = Argued(argument: Argument, rest: seq<Byte>)

  /** A string or a decimal number. */
  function ReadArgument(s: seq<Byte>): Option<Argued> {
    if s != [] && s[0] == 0x22 then
      var token := ReadString(s);
      if token.None? then None else Some(Argued(Words(token.value.value), token.value.rest))
    else if NumberRun(s) == 0 then None
    else Some(Argued(Number(Decimal(s, NumberRun(s))), s[NumberRun(s)..]))
  }

  function ReadMove(s: seq<Byte>): Option<Move> {
    var s1 := After(MOVE, s);
    if s1.None? then None
    else
      var window := ReadString(s1.value);
      if window.None? then None
      else
        var s2 := After(WORKSPACE, window.value.rest);
        if s2.None? then None
        else
          var workspace := ReadArgument(s2.value);
          if workspace.None? then None
          else
            var s3 := After(FOLLOW, workspace.value.rest);
            if s3.None? then None
            else if s3.value == YES then Some(Move(window.value.value, workspace.value.argument, true))
            else if s3.value == NO then Some(Move(window.value.value, workspace.value.argument, false))
            else None
  }

  lemma AfterItself(prefix: Text, s: seq<Byte>)
    requires forall i :: 0 <= i < |prefix| ==> prefix[i] < 0x80
    ensures After(prefix, prefix + s) == Some(s)
  {
    assert (prefix + s)[|prefix|..] == s;
  }

  lemma {:induction false} RunOfDigits(s: seq<Byte>, x: seq<Byte>)
    requires (forall i :: 0 <= i < |s| ==> IsDigit(s[i])) && (x == [] || !IsDigit(x[0]))
    ensures NumberRun(s + x) == |s|
  {
    if s == [] {
      assert s + x == x;
    } else {
      assert (s + x)[1..] == s[1..] + x;
      RunOfDigits(s[1..], x);
    }
  }

  /** What a reader makes of a workspace. */
  function ArgumentOf(workspace: Workspace): Argument
    requires WorkspaceLua(workspace).Some?
  {
    if workspace.Integer? then Number(workspace.n) else Words(Utf8(workspace.text))
  }

  lemma ArgumentReadsBack(workspace: Workspace, rest: seq<Byte>)
    requires WorkspaceLua(workspace).Some? && (rest == [] || !IsDigit(rest[0]))
    ensures WellFormed(WorkspaceLua(workspace).value)
    ensures ReadArgument(Utf8(WorkspaceLua(workspace).value) + rest) == Some(Argued(ArgumentOf(workspace), rest))
  {
    var lua := WorkspaceLua(workspace).value;
    if workspace.Integer? {
      hide ReadString;
      var n := workspace.n;
      DigitsReadBack(n);
      AsciiIsItself(lua);
      RunOfDigits(lua, rest);
      DecimalOfPrefix(lua, rest, |lua|);
      assert (lua + rest)[|lua|..] == rest;
    } else {
      LiteralReadsBack(workspace.text, rest);
      LiteralStartsQuoted(workspace.text);
    }
  }

  lemma LiteralStartsQuoted(s: Text)
    requires LuaLiteral(s).Some?
    ensures Utf8(LuaLiteral(s).value) != [] && Utf8(LuaLiteral(s).value)[0] == 0x22
  {
    hide Escaped;
  }

  lemma AsciiThen(a: Text, s: Text)
    requires forall i :: 0 <= i < |a| ==> a[i] < 0x80
    ensures Utf8(a + s) == a + Utf8(s)
  {
    hide *;
    AsciiIsItself(a);
    Utf8Concat(a, s);
  }

  lemma Regrouped<T>(a: seq<T>, b: seq<T>, c: seq<T>, d: seq<T>, e: seq<T>, f: seq<T>)
    ensures a + b + c + d + e + f == a + (b + (c + (d + (e + f))))
  {}

  predicate AllAscii(s: Text) { forall i :: 0 <= i < |s| ==> s[i] < 0x80 }

  lemma PartsEncode(a: Text, window: Text, b: Text, workspace: Text, c: Text, end: Text)
    requires AllAscii(a) && AllAscii(b) && AllAscii(c) && AllAscii(end) && WellFormed(window) && WellFormed(workspace)
    ensures Utf8(a + window + b + workspace + c + end) == a + (Utf8(window) + (b + (Utf8(workspace) + (c + end))))
  {
    hide Utf8, WellFormed;
    Regrouped(a, window, b, workspace, c, end);
    var tail := b + (workspace + (c + end));
    AsciiIsItself(end);
    AsciiThen(c, end);
    Utf8Concat(workspace, c + end);
    AsciiThen(b, workspace + (c + end));
    Utf8Concat(window, tail);
    AsciiThen(a, window + tail);
  }

  /** The encoded command is the concatenation of its encoded parts. */
  lemma MoveEncodes(window: Text, workspace: Text, follow: bool)
    requires WellFormed(window) && WellFormed(workspace)
    ensures Utf8(MoveLua(window, workspace, follow)) ==
            MOVE + (Utf8(window) + (WORKSPACE + (Utf8(workspace) + (FOLLOW + if follow then YES else NO))))
  {
    hide Ascii, Utf8, WellFormed;
    PartsEncode(MOVE, window, WORKSPACE, workspace, FOLLOW, if follow then YES else NO);
  }

  /** The Lua form of an accepted move is read back to its selector, workspace and follow flag. */
  lemma MoveReadsBack(address: Option<Text>, workspace: Workspace, follow: Option<bool>)
    requires MoveWindow(address, workspace, follow).Some?
    ensures WindowSelector(address).Some? && WorkspaceLua(workspace).Some? && follow.Some?
    ensures ReadMove(Utf8(MoveWindow(address, workspace, follow).value.lua)) ==
            Some(Move(Utf8(WindowSelector(address).value), ArgumentOf(workspace), follow.value))
  {
    hide Ascii, Utf8, ReadString, ReadArgument, ReadMove, After, LuaLiteral, WorkspaceLua, WindowSelector, MoveLua;
    hide MOVE, WORKSPACE, FOLLOW, YES, NO, ArgumentOf, WellFormed, WorkspaceLegacy, MoveLegacy;
    var selector := WindowSelector(address).value;
    var window, space := LuaLiteral(selector).value, WorkspaceLua(workspace).value;
    var end := if follow.value then YES else NO;
    var tail3 := FOLLOW + end;
    var tail2 := WORKSPACE + (Utf8(space) + tail3);
    FixedPartsAreAscii(end);
    ArgumentReadsBack(workspace, tail3);
    LiteralReadsBack(selector, tail2);
    MoveEncodes(window, space, follow.value);
    AfterItself(MOVE, Utf8(window) + tail2);
    AfterItself(WORKSPACE, Utf8(space) + tail3);
    AfterItself(FOLLOW, end);
    MovePartsRead(MOVE + (Utf8(window) + tail2), Utf8(window) + tail2, Token(Utf8(selector), tail2),
                  Utf8(space) + tail3, Argued(ArgumentOf(workspace), tail3), follow.value);
  }

  lemma FixedPartsAreAscii(end: Text)
    requires end == YES || end == NO
    ensures AllAscii(MOVE) && AllAscii(WORKSPACE) && AllAscii(FOLLOW) && AllAscii(end)
    ensures FOLLOW + end != [] && !IsDigit((FOLLOW + end)[0])
  {
    hide Ascii;
    var follow := ", follow = ";
    assert follow[0] == ',' && FOLLOW[0] == 0x2C;
  }

  /** A move is read when its parts are, one after the other. */
  lemma MovePartsRead(s: seq<Byte>, s1: seq<Byte>, window: Token, s2: seq<Byte>, workspace: Argued, follow: bool)
    requires After(MOVE, s) == Some(s1) && ReadString(s1) == Some(window)
    requires After(WORKSPACE, window.rest) == Some(s2) && ReadArgument(s2) == Some(workspace)
    requires After(FOLLOW, workspace.rest) == Some(if follow then YES else NO)
    ensures ReadMove(s) == Some(Move(window.value, workspace.argument, follow))
  {
    hide Ascii, After, ReadString, ReadArgument;
    SeparatorsAreNoDigits();
  }

  lemma SeparatorsAreNoDigits()
    ensures FOLLOW != [] && FOLLOW[0] == 0x2C
    ensures YES != NO
  {}

  /** So an accepted move is determined by its command, up to the spelling of the address. */
  lemma MoveIsInjective(address1: Option<Text>, workspace1: Workspace, follow1: Option<bool>,
                        address2: Option<Text>, workspace2: Workspace, follow2: Option<bool>)
    requires MoveWindow(address1, workspace1, follow1).Some? && MoveWindow(address2, workspace2, follow2).Some?
    requires MoveWindow(address1, workspace1, follow1).value.lua == MoveWindow(address2, workspace2, follow2).value.lua
    ensures WindowSelector(address1) == WindowSelector(address2) && workspace1 == workspace2 && follow1 == follow2
  {
    hide Utf8, ReadMove, WindowSelector;
    MoveReadsBack(address1, workspace1, follow1);
    MoveReadsBack(address2, workspace2, follow2);
    Utf8IsInjective(WindowSelector(address1).value, WindowSelector(address2).value);
    if workspace1.Name? && workspace2.Name? {
      Utf8IsInjective(workspace1.text, workspace2.text);
    }
  }

  /** A move is accepted exactly when its three arguments are; the selector itself can always be quoted. */
  lemma MoveAccepted(address: Option<Text>, workspace: Workspace, follow: Option<bool>)
    ensures MoveWindow(address, workspace, follow).Some? <==>
            follow.Some? && NormalizeAddress(address).Some? && WorkspaceLua(workspace).Some?
  {
    hide Ascii, WorkspaceLua, Escaped;
    if NormalizeAddress(address).Some? {
      AsciiIsItself(WindowSelector(address).value);
    }
  }

  predicate NoComma(s: Text) { forall i :: 0 <= i < |s| ==> s[i] != 0x2C }

  lemma DispatchersDiffer(x: Text, y: Text)
    ensures NoComma(Ascii("movetoworkspace ")) && NoComma(Ascii("movetoworkspacesilent "))
    ensures Ascii("movetoworkspace ") + x != Ascii("movetoworkspacesilent ") + y
  {
    hide Ascii;
    var a, b := Ascii("movetoworkspace ") + x, Ascii("movetoworkspacesilent ") + y;
    assert a[15] == 0x20 && b[15] == 0x73;
  }

  lemma LegacySplits(selector1: Text, workspace1: Text, follow1: bool, selector2: Text, workspace2: Text, follow2: bool)
    requires NoComma(workspace1) && NoComma(workspace2)
    requires MoveLegacy(selector1, workspace1, follow1) == MoveLegacy(selector2, workspace2, follow2)
    ensures selector1 == selector2 && workspace1 == workspace2 && follow1 == follow2
  {
    hide Ascii;
    var d1 := Ascii(if follow1 then "movetoworkspace " else "movetoworkspacesilent ");
    var d2 := Ascii(if follow2 then "movetoworkspace " else "movetoworkspacesilent ");
    DispatchersDiffer(workspace1, workspace2);
    DispatchersDiffer(workspace2, workspace1);
    FirstSeparatorSplits(d1 + workspace1, selector1, d2 + workspace2, selector2, 0x2C);
    assert workspace1 == (d1 + workspace1)[|d1|..] && workspace2 == (d2 + workspace2)[|d2|..];
  }

  /** A number, and a name that is spelled like it. */
  predicate SpellsNumber(number: Workspace, name: Workspace) {
    number.Integer? && number.n >= 0 && name.Name? && name.text == Digits(number.n)
  }

  /** Two workspaces share their legacy text exactly when they are the same, or one is a name spelled like the other. */
  lemma WorkspacesShareLegacyExactly(a: Workspace, b: Workspace)
    requires WorkspaceLegacy(a).Some? && WorkspaceLegacy(b).Some?
    ensures WorkspaceLegacy(a) == WorkspaceLegacy(b) <==> a == b || SpellsNumber(a, b) || SpellsNumber(b, a)
  {
    hide Digits, LegacySafe;
    if a.Integer? && b.Integer? {
      DigitsReadBack(a.n);
      DigitsReadBack(b.n);
    }
  }

  /**
   * Two accepted moves that have a legacy text share it exactly when they agree on the selector and the
   * dispatcher, and their workspaces share theirs.
   */
  lemma LegacyIsInjective(address1: Option<Text>, workspace1: Workspace, follow1: Option<bool>,
                          address2: Option<Text>, workspace2: Workspace, follow2: Option<bool>)
    requires MoveWindow(address1, workspace1, follow1).Some? && MoveWindow(address2, workspace2, follow2).Some?
    requires MoveWindow(address1, workspace1, follow1).value.legacy != []
    requires MoveWindow(address2, workspace2, follow2).value.legacy != []
    ensures MoveWindow(address1, workspace1, follow1).value.legacy ==
            MoveWindow(address2, workspace2, follow2).value.legacy <==>
            && WindowSelector(address1) == WindowSelector(address2) && follow1 == follow2
            && (workspace1 == workspace2 || SpellsNumber(workspace1, workspace2)
                 || SpellsNumber(workspace2, workspace1))
  {
    hide WindowSelector, WorkspaceLua, WorkspaceLegacy, LuaLiteral, MoveLua, MoveLegacy, NoComma, SpellsNumber;
    LegacyWorkspaceHasNoComma(workspace1);
    LegacyWorkspaceHasNoComma(workspace2);
    WorkspacesShareLegacyExactly(workspace1, workspace2);
    if MoveWindow(address1, workspace1, follow1).value.legacy ==
      MoveWindow(address2, workspace2, follow2).value.legacy {
      LegacySplits(WindowSelector(address1).value, WorkspaceLegacy(workspace1).value, follow1.value,
                   WindowSelector(address2).value, WorkspaceLegacy(workspace2).value, follow2.value);
    }
  }

  /** The workspace number 5 and the workspace named 5 have the same legacy text. */
  lemma FiveAndItsName(address: Option<Text>, follow: Option<bool>)
    requires NormalizeAddress(address).Some? && follow.Some?
    ensures MoveWindow(address, Integer(5), follow).Some? && MoveWindow(address, Name(Digits(5)), follow).Some?
    ensures var legacy := MoveWindow(address, Integer(5), follow).value.legacy;
            legacy != [] && legacy == MoveWindow(address, Name(Digits(5)), follow).value.legacy
  {
    hide NormalizeAddress, WindowSelector, LuaLiteral, MoveLua, Ascii;
    FiveIsAName();
    MoveAccepted(address, Integer(5), follow);
    MoveAccepted(address, Name(Digits(5)), follow);
  }

  lemma FiveIsAName()
    ensures Digits(5) == [0x35] && WorkspaceLua(Integer(5)).Some? && WorkspaceLua(Name(Digits(5))).Some?
    ensures WorkspaceLegacy(Integer(5)) == Some(Digits(5)) && WorkspaceLegacy(Name(Digits(5))) == Some(Digits(5))
  {
    AsciiIsItself(Digits(5));
  }

  lemma LegacyWorkspaceHasNoComma(workspace: Workspace)
    requires WorkspaceLegacy(workspace).Some?
    ensures NoComma(WorkspaceLegacy(workspace).value)
  {}
}
