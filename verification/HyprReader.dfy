/** A reader of commands, with its own words: what every command written by the builders says. */
module HyprReader {
  import opened Wrappers
  import opened Unicode
  import opened Decimals
  import opened LuaText
  import opened Utf8Reader
  import opened HyprCommands
  import Actions = HyprActions

  // ---- Reading the Lua text ----

  function CharOf(b: Byte): char { if b < 0x80 then b as char else '?' }

  /** The code of a lexeme, as a string. */
  function CodeOf(l: Lexeme): string {
    if l.Code? then seq(|l.bytes|, i requires 0 <= i < |l.bytes| => CharOf(l.bytes[i])) else ""
  }

  function TextOf(l: Lexeme): Option<Text> { if l.Str? then ReadUtf8(l.bytes) else None }

  /** The address in a window selector. */
  function AddressIn(selector: Text): Option<Text> {
    if |selector| >= 8 && selector[..8] == Ascii("address:") then Some(selector[8..]) else None
  }

  function AddressOf(l: Lexeme): Option<Text> {
    var text := TextOf(l);
    if text.None? then None else AddressIn(text.value)
  }

  function WorkspaceOf(l: Lexeme): Actions.Workspace {
    if l.Num? then Actions.Integer(l.n)
    else
      var text := TextOf(l);
      if text.None? then Actions.OtherValue else Actions.Name(text.value)
  }

  function SwitchOf(text: Option<Text>): Option<bool> {
    if text == Some(Ascii("on")) then Some(true) else if text == Some(Ascii("off")) then Some(false) else None
  }

  /** A command with one argument, by the code before it and after it. */
  function ReadOne(before: string, argument: Lexeme, after: string): Option<Command> {
    if after == ")" && before == "hl.dsp.workspace.toggle_special(" then Some(ToggleSpecial(TextOf(argument)))
    else if after != " })" then None
    else if before == "hl.dsp.focus({ workspace = " then Some(FocusWorkspace(WorkspaceOf(argument)))
    else if before == "hl.dsp.focus({ window = " then Some(FocusWindow(AddressOf(argument)))
    else if before == "hl.dsp.window.close({ window = " then Some(CloseWindow(AddressOf(argument)))
    else if before == "hl.dsp.window.kill({ window = " then Some(KillWindow(AddressOf(argument)))
    else if before == "hl.dsp.dpms({ action = " then Some(Dpms(SwitchOf(TextOf(argument)), AllOutputs))
    else None
  }

  /** A command with two arguments, by the code before, between and after them. */
  function ReadTwo(before: string, first: Lexeme, between: string, second: Lexeme, after: string): Option<Command> {
    if before == "hl.dsp.window.move({ window = " && between == ", workspace = " then
      if after == ", follow = true })" then Some(MoveWindow(AddressOf(first), WorkspaceOf(second), Some(true)))
      else if after == ", follow = false })" then Some(MoveWindow(AddressOf(first), WorkspaceOf(second), Some(false)))
      else None
    else if after != " })" then None
    else if before == "hl.dsp.dpms({ action = " && between == ", monitor = " then
      var monitor := TextOf(second);
      Some(Dpms(SwitchOf(TextOf(first)), if monitor.None? then NotText else Connector(monitor.value)))
    else if between != ", window = " || TextOf(first) != Some(Ascii("toggle")) then None
    else if before == "hl.dsp.window.float({ action = " then Some(ToggleFloat(AddressOf(second)))
    else if before == "hl.dsp.window.pin({ action = " then Some(TogglePin(AddressOf(second)))
    else None
  }

  function ReadLexemes(l: seq<Lexeme>): Option<Command> {
    if |l| == 1 && CodeOf(l[0]) == "hl.dsp.exit()" then Some(Exit)
    else if |l| == 3 then ReadOne(CodeOf(l[0]), l[1], CodeOf(l[2]))
    else if |l| == 5 then ReadTwo(CodeOf(l[0]), l[1], CodeOf(l[2]), l[3], CodeOf(l[4]))
    else None
  }

  /** The command that an encoded Lua text says. */
  function ReadLua(bytes: seq<Byte>): Option<Command> {
    var lexemes := Lex(bytes);
    if lexemes.None? then None else ReadLexemes(lexemes.value)
  }

  // ---- What a command says ----

  /** The address as it is written: `0x` and the digits of the one that was given. */
  ghost predicate IsAddressOf(written: Option<Text>, given: Option<Text>) {
    && written.Some? && given.Some?
    && exists hex: Text :: Actions.Spells(given.value, hex) && written.value == Ascii("0x") + hex
  }

  /** What a reader is to get from a command: the same command, its address and its special workspace written out. */
  ghost predicate Says(read: Command, c: Command) {
    match (read, c)
    case (FocusWorkspace(v), FocusWorkspace(w)) => v == w
    case (ToggleSpecial(m), ToggleSpecial(n)) => n.Some? && m == if n.value == [] then Some(Ascii("special")) else n
    case (FocusWindow(a), FocusWindow(b)) => IsAddressOf(a, b)
    case (CloseWindow(a), CloseWindow(b)) => IsAddressOf(a, b)
    case (ToggleFloat(a), ToggleFloat(b)) => IsAddressOf(a, b)
    case (TogglePin(a), TogglePin(b)) => IsAddressOf(a, b)
    case (KillWindow(a), KillWindow(b)) => IsAddressOf(a, b)
    case (MoveWindow(a, v, f), MoveWindow(b, w, g)) => IsAddressOf(a, b) && v == w && f == g && g.Some?
    case (Dpms(x, m), Dpms(y, n)) => x == y && y.Some? && m == n && !n.NotText?
    case (Exit, Exit) => true
    case _ => false
  }

  // ---- Every accepted command is read ----

  lemma CodeIsItself(code: string)
    requires IsCodeText(code)
    ensures CodeOf(Code(Ascii(code))) == code
  {
    hide Ascii;
  }

  lemma TextIsItself(p: Piece)
    requires p.Quoted? || p.Bare?
    ensures TextOf(LexemeOf(p)) == Some(p.text)
  {
    hide Utf8, ReadUtf8;
    Utf8ReadsBack(p.text);
  }

  lemma WorkspaceIsItself(workspace: Actions.Workspace)
    requires WorkspacePiece(workspace).Some?
    ensures WorkspaceOf(LexemeOf(WorkspacePiece(workspace).value)) == workspace
  {
    hide TextOf;
    if workspace.Name? {
      TextIsItself(Quoted(workspace.text));
    }
  }

  lemma SelectorHoldsAddress(address: Option<Text>)
    requires Actions.WindowSelector(address).Some?
    ensures IsAddressOf(AddressIn(Actions.WindowSelector(address).value), address)
  {
    hide Ascii;
    var selector := Actions.WindowSelector(address).value;
    var word := "address:";
    assert selector[..8] == Ascii(word) && selector[8..] == Actions.NormalizeAddress(address).value;
    Actions.AddressIsNormalised(address.value);
    var hex: Text :| Actions.Spells(address.value, hex);
    var prefix := "0x";
    assert Ascii(prefix) == [0x30, 0x78];
  }

  lemma SelectorIsRead(address: Option<Text>)
    requires Actions.WindowSelector(address).Some?
    ensures IsAddressOf(AddressOf(LexemeOf(Quoted(Actions.WindowSelector(address).value))), address)
  {
    hide Ascii, TextOf, Actions.WindowSelector, AddressIn;
    SelectorHoldsAddress(address);
    TextIsItself(Quoted(Actions.WindowSelector(address).value));
  }

  lemma SwitchIsRead(on: bool)
    ensures SwitchOf(Some(OnOff(on))) == Some(on)
  {
    hide Ascii;
    var yes, no := "on", "off";
    assert |Ascii(yes)| == 2 && |Ascii(no)| == 3;
  }

  lemma OneIsRead(l: Lexeme)
    ensures ReadOne("hl.dsp.workspace.toggle_special(", l, ")") == Some(ToggleSpecial(TextOf(l)))
    ensures ReadOne("hl.dsp.focus({ workspace = ", l, " })") == Some(FocusWorkspace(WorkspaceOf(l)))
    ensures ReadOne("hl.dsp.focus({ window = ", l, " })") == Some(FocusWindow(AddressOf(l)))
    ensures ReadOne("hl.dsp.window.close({ window = ", l, " })") == Some(CloseWindow(AddressOf(l)))
    ensures ReadOne("hl.dsp.window.kill({ window = ", l, " })") == Some(KillWindow(AddressOf(l)))
    ensures ReadOne("hl.dsp.dpms({ action = ", l, " })") == Some(Dpms(SwitchOf(TextOf(l)), AllOutputs))
  {
    hide TextOf, AddressOf, WorkspaceOf, SwitchOf;
  }

  lemma TwoAreRead(k: Lexeme, l: Lexeme)
    ensures ReadTwo("hl.dsp.window.move({ window = ", k, ", workspace = ", l, ", follow = true })") ==
            Some(MoveWindow(AddressOf(k), WorkspaceOf(l), Some(true)))
    ensures ReadTwo("hl.dsp.window.move({ window = ", k, ", workspace = ", l, ", follow = false })") ==
            Some(MoveWindow(AddressOf(k), WorkspaceOf(l), Some(false)))
    ensures TextOf(l).Some? ==>
              ReadTwo("hl.dsp.dpms({ action = ", k, ", monitor = ", l, " })") ==
              Some(Dpms(SwitchOf(TextOf(k)), Connector(TextOf(l).value)))
    ensures TextOf(k) == Some(Ascii("toggle")) ==>
              ReadTwo("hl.dsp.window.float({ action = ", k, ", window = ", l, " })") == Some(ToggleFloat(AddressOf(l)))
    ensures TextOf(k) == Some(Ascii("toggle")) ==>
              ReadTwo("hl.dsp.window.pin({ action = ", k, ", window = ", l, " })") == Some(TogglePin(AddressOf(l)))
  {
    hide TextOf, AddressOf, WorkspaceOf, SwitchOf, Ascii;
  }

  lemma ThreeLexemes(before: string, p: Piece, after: string)
    requires IsCodeText(before) && IsCodeText(after)
    ensures ReadLexemes(LexemesOf([Fixed(before), p, Fixed(after)])) == ReadOne(before, LexemeOf(p), after)
  {
    hide Ascii, CodeOf, ReadOne, ReadTwo, IsCodeText;
    CodeIsItself(before);
    CodeIsItself(after);
  }

  lemma FiveLexemes(before: string, p: Piece, between: string, q: Piece, after: string)
    requires IsCodeText(before) && IsCodeText(between) && IsCodeText(after)
    ensures ReadLexemes(LexemesOf([Fixed(before), p, Fixed(between), q, Fixed(after)])) ==
            ReadTwo(before, LexemeOf(p), between, LexemeOf(q), after)
  {
    hide Ascii, CodeOf, ReadOne, ReadTwo, IsCodeText;
    CodeIsItself(before);
    CodeIsItself(between);
    CodeIsItself(after);
  }

  /** The pieces of a command. */
  function PiecesOf(c: Command): seq<Piece>
    requires Arguments(c).Some?
  {
    [Fixed(Head(c))] + Arguments(c).value
  }

  ghost predicate IsRead(c: Command)
    requires Arguments(c).Some?
  {
    var read := ReadLexemes(LexemesOf(PiecesOf(c)));
    read.Some? && Says(read.value, c)
  }

  lemma WorkspaceIsRead(c: Command)
    requires Arguments(c).Some? && (c.FocusWorkspace? || c.ToggleSpecial?)
    ensures IsRead(c)
  {
    hide Ascii, CodeOf, ReadOne, ReadTwo, ReadLexemes, IsCodeText, TextOf, AddressOf, WorkspaceOf, SwitchOf, LexemesOf;
    hide LexemeOf, OnOff, IsConnector, IsAddressOf, Actions.WindowSelector, WorkspacePiece;
    HeadIsCode(c);
    CodeBetween();
    if c.FocusWorkspace? {
      var p := WorkspacePiece(c.workspace).value;
      assert PiecesOf(c) == [Fixed("hl.dsp.focus({ workspace = "), p, Fixed(" })")];
      ThreeLexemes("hl.dsp.focus({ workspace = ", p, " })");
      OneIsRead(LexemeOf(p));
      WorkspaceIsItself(c.workspace);
    } else {
      var p := Quoted(SpecialName(c.name.value));
      assert PiecesOf(c) == [Fixed("hl.dsp.workspace.toggle_special("), p, Fixed(")")];
      ThreeLexemes("hl.dsp.workspace.toggle_special(", p, ")");
      OneIsRead(LexemeOf(p));
      TextIsItself(p);
    }
  }

  lemma WindowIsRead(c: Command)
    requires Arguments(c).Some? && (c.FocusWindow? || c.CloseWindow? || c.KillWindow?)
    ensures IsRead(c)
  {
    hide Ascii, CodeOf, ReadOne, ReadTwo, ReadLexemes, IsCodeText, TextOf, AddressOf, WorkspaceOf, SwitchOf, LexemesOf;
    hide LexemeOf, OnOff, IsConnector, IsAddressOf, Actions.WindowSelector, WorkspacePiece;
    HeadIsCode(c);
    CodeBetween();
    var p := Quoted(Actions.WindowSelector(c.address).value);
    assert PiecesOf(c) == [Fixed(Head(c)), p, Fixed(" })")];
    ThreeLexemes(Head(c), p, " })");
    OneIsRead(LexemeOf(p));
    SelectorIsRead(c.address);
  }

  lemma ToggleIsRead(c: Command)
    requires Arguments(c).Some? && (c.ToggleFloat? || c.TogglePin?)
    ensures IsRead(c)
  {
    hide Ascii, CodeOf, ReadOne, ReadTwo, ReadLexemes, IsCodeText, TextOf, AddressOf, WorkspaceOf, SwitchOf, LexemesOf;
    hide LexemeOf, OnOff, IsConnector, IsAddressOf, Actions.WindowSelector, WorkspacePiece;
    HeadIsCode(c);
    CodeBetween();
    var word, p := Bare(Ascii("toggle")), Quoted(Actions.WindowSelector(c.address).value);
    assert PiecesOf(c) == [Fixed(Head(c)), word, Fixed(", window = "), p, Fixed(" })")];
    FiveLexemes(Head(c), word, ", window = ", p, " })");
    TextIsItself(word);
    TwoAreRead(LexemeOf(word), LexemeOf(p));
    SelectorIsRead(c.address);
  }

  lemma MoveIsRead(c: Command)
    requires Arguments(c).Some? && c.MoveWindow?
    ensures IsRead(c)
  {
    hide Ascii, CodeOf, ReadOne, ReadTwo, ReadLexemes, IsCodeText, TextOf, AddressOf, WorkspaceOf, SwitchOf, LexemesOf;
    hide LexemeOf, OnOff, IsConnector, IsAddressOf, Actions.WindowSelector, WorkspacePiece;
    HeadIsCode(c);
    CodeBetween();
    var p, q := Quoted(Actions.WindowSelector(c.address).value), WorkspacePiece(c.workspace).value;
    assert PiecesOf(c) == [Fixed(Head(c)), p, Fixed(", workspace = "), q, Fixed(FollowEnd(c.follow.value))];
    FiveLexemes(Head(c), p, ", workspace = ", q, FollowEnd(c.follow.value));
    TwoAreRead(LexemeOf(p), LexemeOf(q));
    SelectorIsRead(c.address);
    WorkspaceIsItself(c.workspace);
  }

  lemma DpmsIsRead(c: Command)
    requires Arguments(c).Some? && c.Dpms?
    ensures IsRead(c)
  {
    hide Ascii, CodeOf, ReadOne, ReadTwo, ReadLexemes, IsCodeText, TextOf, AddressOf, WorkspaceOf, SwitchOf, LexemesOf;
    hide LexemeOf, OnOff, IsConnector, IsAddressOf, Actions.WindowSelector, WorkspacePiece;
    HeadIsCode(c);
    CodeBetween();
    var word := Bare(OnOff(c.on.value));
    TextIsItself(word);
    SwitchIsRead(c.on.value);
    if c.monitor.AllOutputs? {
      assert PiecesOf(c) == [Fixed(Head(c)), word, Fixed(" })")];
      ThreeLexemes(Head(c), word, " })");
      OneIsRead(LexemeOf(word));
    } else {
      var name := Bare(c.monitor.name);
      assert PiecesOf(c) == [Fixed(Head(c)), word, Fixed(", monitor = "), name, Fixed(" })")];
      FiveLexemes(Head(c), word, ", monitor = ", name, " })");
      TwoAreRead(LexemeOf(word), LexemeOf(name));
      TextIsItself(name);
    }
  }

  lemma ExitIsRead()
    ensures IsRead(Exit)
  {
    hide Ascii, CodeOf, IsCodeText;
    HeadIsCode(Exit);
    CodeIsItself("hl.dsp.exit()");
    assert PiecesOf(Exit) == [Fixed("hl.dsp.exit()")];
    var l := LexemesOf(PiecesOf(Exit));
    assert |l| == 1 && l[0] == Code(Ascii("hl.dsp.exit()"));
  }

  /** Every accepted command is read as what it says. */
  lemma LuaSaysTheCommand(c: Command)
    requires Lua(c).Some?
    ensures var read := ReadLua(Utf8(Lua(c).value)); read.Some? && Says(read.value, c)
  {
    hide Arguments, Lua, Lex, Utf8, LexemesOf, ReadLexemes, Says, WellFormed;
    LuaHasPieces(c);
    CommandReadsBack(c);
    match c
    case FocusWorkspace(_) => WorkspaceIsRead(c);
    case ToggleSpecial(_) => WorkspaceIsRead(c);
    case FocusWindow(_) => WindowIsRead(c);
    case CloseWindow(_) => WindowIsRead(c);
    case KillWindow(_) => WindowIsRead(c);
    case ToggleFloat(_) => ToggleIsRead(c);
    case TogglePin(_) => ToggleIsRead(c);
    case MoveWindow(_, _, _) => MoveIsRead(c);
    case Dpms(_, _) => DpmsIsRead(c);
    case Exit => ExitIsRead();
  }

  lemma LuaHasPieces(c: Command)
    requires Lua(c).Some?
    ensures Arguments(c).Some?
  {}

  // ---- Which commands are accepted ----

  const UPPER := Ascii("ABCDEFGHIJKLMNOPQRSTUVWXYZ")
  const LOWER := Ascii("abcdefghijklmnopqrstuvwxyz")
  const OTHERS := Ascii("0123456789_.-")

  /** A positive safe integer, or a name that is not empty and has no lone surrogate. */
  predicate IsWorkspace(workspace: Actions.Workspace) {
    || (workspace.Integer? && 1 <= workspace.n <= 0x1F_FFFF_FFFF_FFFF)
    || (workspace.Name? && workspace.text != [] && WellFormed(workspace.text))
  }

  ghost predicate IsAddress(address: Option<Text>) {
    address.Some? && exists hex: Text :: Actions.Spells(address.value, hex)
  }

  /** No monitor at all, or the name of a connector. */
  predicate IsMonitor(monitor: Monitor) {
    || monitor.AllOutputs?
    || (monitor.Connector? && monitor.name != []
        && forall i :: 0 <= i < |monitor.name| ==>
             monitor.name[i] in UPPER || monitor.name[i] in LOWER || monitor.name[i] in OTHERS)
  }

  ghost predicate IsAcceptable(c: Command) {
    match c
    case FocusWorkspace(workspace) => IsWorkspace(workspace)
    case ToggleSpecial(name) => name.Some? && WellFormed(name.value)
    case FocusWindow(address) => IsAddress(address)
    case CloseWindow(address) => IsAddress(address)
    case ToggleFloat(address) => IsAddress(address)
    case TogglePin(address) => IsAddress(address)
    case KillWindow(address) => IsAddress(address)
    case MoveWindow(address, workspace, follow) => IsAddress(address) && IsWorkspace(workspace) && follow.Some?
    case Dpms(on, monitor) => on.Some? && IsMonitor(monitor)
    case Exit => true
  }

  lemma UpperUnitsAre(u: CodeUnit)
    ensures 0x41 <= u <= 0x5A <==> u in UPPER
  {
    hide Ascii;
    var s := "ABCDEFGHIJKLMNOPQRSTUVWXYZ";
    assert |s| == 26 && forall i :: 0 <= i < 26 ==> 'A' <= s[i] <= 'Z';
    if 0x41 <= u <= 0x5A {
      assert s[u - 0x41] as int == u && UPPER[u - 0x41] == u;
    }
  }

  lemma LowerUnitsAre(u: CodeUnit)
    ensures 0x61 <= u <= 0x7A <==> u in LOWER
  {
    hide Ascii;
    var s := "abcdefghijklmnopqrstuvwxyz";
    assert |s| == 26 && forall i :: 0 <= i < 26 ==> 'a' <= s[i] <= 'z';
    if 0x61 <= u <= 0x7A {
      assert s[u - 0x61] as int == u && LOWER[u - 0x61] == u;
    }
  }

  lemma OtherUnitsAre(u: CodeUnit)
    ensures 0x30 <= u <= 0x39 || u == 0x5F || u == 0x2E || u == 0x2D <==> u in OTHERS
  {
    hide Ascii;
    var s := "0123456789_.-";
    assert |s| == 13 && forall i :: 0 <= i < 10 ==> '0' <= s[i] <= '9';
    if 0x30 <= u <= 0x39 {
      assert s[u - 0x30] as int == u && OTHERS[u - 0x30] == u;
    }
    assert OTHERS[10] == 0x5F && OTHERS[11] == 0x2E && OTHERS[12] == 0x2D;
  }

  lemma MonitorIsAccepted(monitor: Monitor)
    ensures IsMonitor(monitor) <==> monitor.AllOutputs? || (monitor.Connector? && IsConnector(monitor.name))
  {
    hide UPPER, LOWER, OTHERS;
    forall u: CodeUnit ensures IsConnectorUnit(u) <==> u in UPPER || u in LOWER || u in OTHERS {
      UpperUnitsAre(u);
      LowerUnitsAre(u);
      OtherUnitsAre(u);
    }
  }

  lemma AddressIsAccepted(address: Option<Text>)
    ensures Actions.WindowSelector(address).Some? <==> IsAddress(address)
    ensures Actions.WindowSelector(address).Some? ==> LuaLiteral(Actions.WindowSelector(address).value).Some?
  {
    hide Ascii, Actions.Spells, Escaped;
    if address.Some? {
      Actions.AddressIsNormalised(address.value);
    }
    if Actions.WindowSelector(address).Some? {
      AsciiIsItself(Actions.WindowSelector(address).value);
    }
  }

  lemma WorkspaceIsAccepted(workspace: Actions.Workspace)
    ensures IsWorkspace(workspace) <==>
            WorkspacePiece(workspace).Some? && PieceText(WorkspacePiece(workspace).value).Some?
  {
    hide Digits, Escaped;
  }

  lemma {:induction false} RendersExactly(pieces: seq<Piece>)
    ensures Render(pieces).Some? <==> forall i :: 0 <= i < |pieces| ==> PieceText(pieces[i]).Some?
  {
    hide PieceText;
    if pieces == [] {
    } else {
      RendersExactly(pieces[1..]);
      assert pieces == [pieces[0]] + pieces[1..];
    }
  }

  lemma ThreeRender(a: Piece, b: Piece, c: Piece)
    ensures Render([a, b, c]).Some? <==> PieceText(a).Some? && PieceText(b).Some? && PieceText(c).Some?
  {
    hide PieceText, Render;
    var pieces := [a, b, c];
    RendersExactly(pieces);
    assert pieces[0] == a && pieces[1] == b && pieces[2] == c;
  }

  lemma FiveRender(a: Piece, b: Piece, c: Piece, d: Piece, e: Piece)
    ensures Render([a, b, c, d, e]).Some? <==>
            && PieceText(a).Some? && PieceText(b).Some? && PieceText(c).Some? && PieceText(d).Some?
            && PieceText(e).Some?
  {
    FivePieces(a, b, c, d, e);
  }

  /** A template whose argument is given once is accepted if that can be quoted; what is between is plain. */
  lemma ArgumentsRender(c: Command)
    requires Arguments(c).Some?
    ensures |Arguments(c).value| == 2 ==> (Lua(c).Some? <==> PieceText(Arguments(c).value[0]).Some?)
    ensures |Arguments(c).value| == 4 ==>
              (Lua(c).Some? <==> PieceText(Arguments(c).value[0]).Some? && PieceText(Arguments(c).value[2]).Some?)
    ensures Arguments(c).value == [] ==> Lua(c).Some?
  {
    hide Ascii, Render, PieceText, Digits, WorkspacePiece, Head, FollowEnd, OnOff, IsConnector, Actions.WindowSelector;
    var v := Arguments(c).value;
    FixedIsText(Head(c));
    if |v| == 2 {
      assert PiecesOf(c) == [Fixed(Head(c)), v[0], v[1]];
      ThreeRender(Fixed(Head(c)), v[0], v[1]);
      FixedIsText(v[1].code);
    } else if |v| == 4 {
      assert PiecesOf(c) == [Fixed(Head(c)), v[0], v[1], v[2], v[3]];
      FiveRender(Fixed(Head(c)), v[0], v[1], v[2], v[3]);
      FixedIsText(v[1].code);
      FixedIsText(v[3].code);
    } else {
      assert PiecesOf(c) == [Fixed(Head(c))] + [];
      OnePiece(Fixed(Head(c)), []);
      NoPiece();
    }
  }

  lemma FixedIsText(code: string)
    ensures PieceText(Fixed(code)).Some?
  {}

  /** A command is accepted exactly when its arguments are, one by one. */
  lemma AcceptedExactly(c: Command)
    ensures Lua(c).Some? <==> IsAcceptable(c)
  {
    hide Ascii, IsWorkspace, IsAddress, IsMonitor, IsConnector, Lua, LuaLiteral, Digits, WorkspacePiece, Head;
    hide FollowEnd, Actions.WindowSelector, OnOff;
    LuaNeedsArguments(c);
    if Arguments(c).Some? {
      ArgumentsRender(c);
    }
    match c
    case FocusWorkspace(workspace) => WorkspaceIsAccepted(workspace);
    case ToggleSpecial(name) => SpecialIsAccepted(name);
    case FocusWindow(address) => AddressIsAccepted(address);
    case CloseWindow(address) => AddressIsAccepted(address);
    case ToggleFloat(address) => AddressIsAccepted(address);
    case TogglePin(address) => AddressIsAccepted(address);
    case KillWindow(address) => AddressIsAccepted(address);
    case MoveWindow(address, workspace, follow) => MoveIsAccepted(address, workspace, follow);
    case Dpms(_, monitor) => MonitorIsAccepted(monitor);
    case Exit =>
  }

  lemma LuaNeedsArguments(c: Command)
    ensures Arguments(c).None? ==> Lua(c).None?
  {}

  lemma MoveIsAccepted(address: Option<Text>, workspace: Actions.Workspace, follow: Option<bool>)
    ensures Lua(MoveWindow(address, workspace, follow)).Some? <==>
            IsAddress(address) && IsWorkspace(workspace) && follow.Some?
  {
    hide Lua, IsWorkspace, IsAddress, WorkspacePiece, PieceText, Actions.MoveWindow, Actions.NormalizeAddress;
    MoveIsTheAction(address, workspace, follow);
    Actions.MoveAccepted(address, workspace, follow);
    AddressIsAccepted(address);
    WorkspaceIsAccepted(workspace);
    WorkspaceTexts(workspace);
  }

  lemma SpecialIsAccepted(name: Option<Text>)
    ensures name.Some? ==> (LuaLiteral(SpecialName(name.value)).Some? <==> WellFormed(name.value))
  {
    hide Ascii;
    AsciiIsItself(SPECIAL);
  }
}
