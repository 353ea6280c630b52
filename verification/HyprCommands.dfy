/** All Hyprland commands as templates, and one reader that tells them and their arguments apart. */
module HyprCommands {
  import opened Wrappers
  import opened Unicode
  import opened Decimals
  import opened LuaText
  import Splitting
  import Actions = HyprActions

  // ---- Templates ----

  /** A piece of a template: its own code, a text it quotes with or without `luaString`, or a number. */
  datatype Piece = Fixed(code: string) | Quoted(text: Text) | Bare(text: Text) | Numeral(n: nat)

  function PieceText(p: Piece): Option<Text> {
    match p
    case Fixed(code) => Some(Ascii(code))
    case Quoted(text) => LuaLiteral(text)
    case Bare(text) => Some([QUOTE] + text + [QUOTE])
    case Numeral(n) => Some(Digits(n))
  }

  /** The filled-in template, or nothing if a text in it cannot be quoted. */
  function Render(pieces: seq<Piece>): Option<Text> {
    if pieces == [] then Some([])
    else
      var first, rest := PieceText(pieces[0]), Render(pieces[1..]);
      if first.None? || rest.None? then None else Some(first.value + rest.value)
  }

  // ---- Reading a command ----

  /** What a command is made of: code, strings and numbers. */
  datatype Lexeme = Code(bytes: seq<Byte>) | Str(bytes: seq<Byte>) | Num(n: nat)

  predicate IsCode(b: Byte) { b != 0x22 && !IsDigit(b) }

  function CodeRun(s: seq<Byte>): (n: nat)
    ensures n <= |s| && (forall i :: 0 <= i < n ==> IsCode(s[i])) && (n < |s| ==> !IsCode(s[n]))
    ensures s != [] && IsCode(s[0]) ==> n > 0
  {
    if s == [] || !IsCode(s[0]) then 0 else 1 + CodeRun(s[1..])
  }

  function Lex(s: seq<Byte>): Option<seq<Lexeme>>
    decreases |s|
  {
    if s == [] then Some([])
    else if s[0] == 0x22 then
      var token := ReadString(s);
      if token.None? || |token.value.rest| >= |s| then None
      else Then(Str(token.value.value), Lex(token.value.rest))
    else if IsDigit(s[0]) then
      var n := Actions.NumberRun(s);
      if n == 0 then None else Then(Num(Decimal(s, n)), Lex(s[n..]))
    else
      Then(Code(s[..CodeRun(s)]), Lex(s[CodeRun(s)..]))
  }

  function Then(first: Lexeme, rest: Option<seq<Lexeme>>): Option<seq<Lexeme>> {
    if rest.None? then None else Some([first] + rest.value)
  }

  function LexemeOf(p: Piece): Lexeme {
    match p
    case Fixed(code) => Code(Ascii(code))
    case Quoted(text) => Str(Utf8(text))
    case Bare(text) => Str(Utf8(text))
    case Numeral(n) => Num(n)
  }

  function LexemesOf(pieces: seq<Piece>): (lexemes: seq<Lexeme>)
    ensures |lexemes| == |pieces| && forall i :: 0 <= i < |pieces| ==> lexemes[i] == LexemeOf(pieces[i])
  {
    seq(|pieces|, i requires 0 <= i < |pieces| => LexemeOf(pieces[i]))
  }

  // ---- A filled-in template reads back ----

  predicate IsCodeText(code: string) {
    code != [] && forall i :: 0 <= i < |code| ==> code[i] as int < 0x80 && code[i] != '"' && !('0' <= code[i] <= '9')
  }

  /** A text that `luaString` would leave as it is. */
  predicate IsPlainText(text: Text) {
    forall i :: 0 <= i < |text| ==> 0x20 <= text[i] < 0x7F && text[i] != QUOTE && text[i] != BACKSLASH
  }

  predicate Sound(p: Piece) { (p.Fixed? ==> IsCodeText(p.code)) && (p.Bare? ==> IsPlainText(p.text)) }

  /** Code and arguments alternate. */
  predicate Readable(pieces: seq<Piece>) {
    && (forall i :: 0 <= i < |pieces| ==> Sound(pieces[i]))
    && (forall i :: 0 <= i < |pieces| - 1 ==> pieces[i].Fixed? != pieces[i + 1].Fixed?)
  }

  lemma {:induction false} PlainIsItself(text: Text)
    requires IsPlainText(text)
    ensures WellFormed(text) && Escaped(text) == text
  {
    if text == [] {
    } else {
      assert !StartsWithPair(text) && Width(text) == 1;
      PlainIsItself(text[1..]);
      assert text == [text[0]] + text[1..] && EscapedPoint(text) == [text[0]];
    }
  }

  /** Quoting a plain text by hand is quoting it. */
  lemma BareIsQuoted(text: Text)
    requires IsPlainText(text)
    ensures PieceText(Bare(text)) == PieceText(Quoted(text))
  {
    PlainIsItself(text);
  }

  /** The first byte of a piece tells its kind. */
  predicate StartsLike(p: Piece, bytes: seq<Byte>) {
    bytes != [] && match p
                   case Fixed(_) => IsCode(bytes[0])
                   case Numeral(_) => IsDigit(bytes[0])
                   case _ => bytes[0] == 0x22
  }

  lemma PieceEncodes(p: Piece)
    requires Sound(p) && PieceText(p).Some?
    ensures WellFormed(PieceText(p).value) && StartsLike(p, Utf8(PieceText(p).value))
  {
    match p
    case Fixed(code) =>
      hide Ascii;
      AsciiIsItself(Ascii(code));
    case Quoted(text) =>
      QuotedEncodes(text);
    case Bare(text) =>
      BareIsQuoted(text);
      QuotedEncodes(text);
    case Numeral(n) =>
      hide Digits;
      AsciiIsItself(Digits(n));
  }

  lemma QuotedEncodes(text: Text)
    requires LuaLiteral(text).Some?
    ensures WellFormed(LuaLiteral(text).value) && StartsLike(Quoted(text), Utf8(LuaLiteral(text).value))
  {
    hide ReadString;
    LiteralReadsBack(text, []);
    Actions.LiteralStartsQuoted(text);
  }

  /** One piece is read as its lexeme, up to whatever follows it. */
  lemma PieceReads(p: Piece, rest: seq<Byte>)
    requires Sound(p) && PieceText(p).Some?
    requires p.Fixed? ==> rest == [] || !IsCode(rest[0])
    requires p.Numeral? ==> rest == [] || !IsDigit(rest[0])
    ensures Lex(Utf8(PieceText(p).value) + rest) == Then(LexemeOf(p), Lex(rest))
  {
    match p
    case Fixed(code) => CodeReads(code, rest);
    case Quoted(text) => QuotedReads(text, rest);
    case Bare(text) =>
      BareIsQuoted(text);
      QuotedReads(text, rest);
    case Numeral(n) => NumeralReads(n, rest);
  }

  lemma {:induction false} CodeRuns(code: seq<Byte>, rest: seq<Byte>)
    requires (forall i :: 0 <= i < |code| ==> IsCode(code[i])) && (rest == [] || !IsCode(rest[0]))
    ensures CodeRun(code + rest) == |code|
  {
    hide IsCode;
    if code == [] {
      assert code + rest == rest;
    } else {
      assert (code + rest)[1..] == code[1..] + rest;
      CodeRuns(code[1..], rest);
    }
  }

  lemma CodeReads(code: string, rest: seq<Byte>)
    requires IsCodeText(code) && (rest == [] || !IsCode(rest[0]))
    ensures Lex(Utf8(Ascii(code)) + rest) == Then(Code(Ascii(code)), Lex(rest))
  {
    hide Ascii, CodeRun, ReadString, Actions.NumberRun;
    var bytes := Ascii(code);
    AsciiIsItself(bytes);
    assert forall i :: 0 <= i < |bytes| ==> IsCode(bytes[i]);
    CodeRuns(bytes, rest);
    var s := bytes + rest;
    assert s[0] == bytes[0] && s[..|bytes|] == bytes && s[|bytes|..] == rest;
  }

  lemma QuotedReads(text: Text, rest: seq<Byte>)
    requires LuaLiteral(text).Some?
    ensures Lex(Utf8(LuaLiteral(text).value) + rest) == Then(Str(Utf8(text)), Lex(rest))
  {
    hide LuaLiteral, ReadString, CodeRun, Actions.NumberRun;
    LiteralReadsBack(text, rest);
    Actions.LiteralStartsQuoted(text);
  }

  lemma NumeralReads(n: nat, rest: seq<Byte>)
    requires rest == [] || !IsDigit(rest[0])
    ensures Lex(Utf8(Digits(n)) + rest) == Then(Num(n), Lex(rest))
  {
    hide Digits, ReadString, CodeRun, Actions.NumberRun;
    var digits := Digits(n);
    DigitsReadBack(n);
    AsciiIsItself(digits);
    Actions.RunOfDigits(digits, rest);
    DecimalOfPrefix(digits, rest, |digits|);
    assert (digits + rest)[0] == digits[0] && (digits + rest)[|digits|..] == rest;
  }

  /** The reader takes a filled-in template apart into exactly its pieces. */
  lemma {:induction false} RenderReadsBack(pieces: seq<Piece>)
    requires Readable(pieces) && Render(pieces).Some?
    ensures WellFormed(Render(pieces).value) && Lex(Utf8(Render(pieces).value)) == Some(LexemesOf(pieces))
    ensures pieces != [] ==> StartsLike(pieces[0], Utf8(Render(pieces).value))
  {
    hide Sound, PieceText, LexemeOf, Lex, Utf8, WellFormed, StartsLike;
    if pieces == [] {
      NothingReads();
    } else {
      var first, rest := pieces[0], pieces[1..];
      var a, b := PieceText(first).value, Render(rest).value;
      RenderReadsBack(rest);
      PieceEncodes(first);
      WellFormedConcat(a, b);
      Utf8Concat(a, b);
      StartsApart(first, Utf8(a), Utf8(b));
      if rest != [] {
        NextStartsApart(first, rest[0], Utf8(b));
      } else {
        NothingReads();
      }
      PieceReads(first, Utf8(b));
      assert LexemesOf(pieces) == [LexemeOf(first)] + LexemesOf(rest);
      OneLexeme(LexemeOf(first), LexemesOf(rest));
    }
  }

  lemma OneLexeme(first: Lexeme, rest: seq<Lexeme>)
    ensures Then(first, Some(rest)) == Some([first] + rest)
  {}

  lemma NothingReads()
    ensures WellFormed([]) && Utf8([]) == [] && Lex([]) == Some([])
  {}

  lemma StartsApart(p: Piece, a: seq<Byte>, b: seq<Byte>)
    requires StartsLike(p, a)
    ensures StartsLike(p, a + b)
  {}

  lemma NextStartsApart(p: Piece, next: Piece, bytes: seq<Byte>)
    requires p.Fixed? != next.Fixed? && StartsLike(next, bytes)
    ensures bytes != [] && (p.Fixed? ==> !IsCode(bytes[0])) && (p.Numeral? ==> !IsDigit(bytes[0]))
  {}

  /** The lexemes tell the pieces, up to who wrote the quotes. */
  predicate SamePiece(p: Piece, q: Piece) {
    || (p.Fixed? && q.Fixed? && p.code == q.code)
    || (p.Numeral? && q.Numeral? && p.n == q.n)
    || ((p.Quoted? || p.Bare?) && (q.Quoted? || q.Bare?) && p.text == q.text)
  }

  lemma LexemeTellsPiece(p: Piece, q: Piece)
    requires Sound(p) && Sound(q) && LexemeOf(p) == LexemeOf(q)
    ensures SamePiece(p, q)
  {
    hide Utf8, Ascii;
    if p.Fixed? && q.Fixed? {
      AsciiTellsText(p.code, q.code);
    }
    if !p.Fixed? && !p.Numeral? && !q.Fixed? && !q.Numeral? {
      Utf8IsInjective(p.text, q.text);
    }
  }

  lemma AsciiTellsText(a: string, b: string)
    requires IsCodeText(a) && IsCodeText(b) && Ascii(a) == Ascii(b)
    ensures a == b
  {
    hide Ascii;
    assert |a| == |Ascii(a)| == |Ascii(b)| == |b|;
    forall i | 0 <= i < |a| ensures a[i] == b[i] {
      assert Ascii(a)[i] == Ascii(b)[i];
    }
  }

  /** Two readable templates with the same text have the same pieces. */
  lemma RenderTellsPieces(a: seq<Piece>, b: seq<Piece>)
    requires Readable(a) && Readable(b) && Render(a).Some? && Render(a) == Render(b)
    ensures |a| == |b| && forall i :: 0 <= i < |a| ==> SamePiece(a[i], b[i])
  {
    hide Sound, Render, LexemeOf, SamePiece;
    RenderReadsBack(a);
    RenderReadsBack(b);
    forall i | 0 <= i < |a| ensures SamePiece(a[i], b[i]) {
      assert LexemesOf(a)[i] == LexemesOf(b)[i];
      LexemeTellsPiece(a[i], b[i]);
    }
  }

  // ---- The commands ----

  /** Which outputs a display power command is for; `NotText` is a monitor that is neither missing nor a string. */
  datatype Monitor = AllOutputs | Connector(name: Text) | NotText

  /** `None` stands for an argument of the wrong type. */
  datatype Command =
    | FocusWorkspace(workspace: Actions.Workspace)
    | ToggleSpecial(name: Option<Text>)
    | FocusWindow(address: Option<Text>)
    | CloseWindow(address: Option<Text>)
    | ToggleFloat(address: Option<Text>)
    | TogglePin(address: Option<Text>)
    | KillWindow(address: Option<Text>)
    | MoveWindow(address: Option<Text>, workspace: Actions.Workspace, follow: Option<bool>)
    | Dpms(on: Option<bool>, monitor: Monitor)
    | Exit

  const END := " })"
  const SPECIAL := Ascii("special")

  function WorkspacePiece(workspace: Actions.Workspace): Option<Piece> {
    match workspace
    case Integer(n) => if 0 < n <= MAX_SAFE_INTEGER then Some(Numeral(n)) else None
    case Name(text) => if text == [] then None else Some(Quoted(text))
    case Fraction | OtherValue => None
  }

  predicate IsConnectorUnit(u: CodeUnit) {
    0x30 <= u <= 0x39 || 0x41 <= u <= 0x5A || 0x61 <= u <= 0x7A || u == 0x5F || u == 0x2E || u == 0x2D
  }

  predicate IsConnector(name: Text) { name != [] && forall i :: 0 <= i < |name| ==> IsConnectorUnit(name[i]) }

  function SpecialName(name: Text): Text { if name == [] then SPECIAL else name }

  function OnOff(on: bool): Text { if on then Ascii("on") else Ascii("off") }

  /** The code a template starts with. */
  function Head(c: Command): string {
    match c
    case FocusWorkspace(_) => "hl.dsp.focus({ workspace = "
    case ToggleSpecial(_) => "hl.dsp.workspace.toggle_special("
    case FocusWindow(_) => "hl.dsp.focus({ window = "
    case CloseWindow(_) => "hl.dsp.window.close({ window = "
    case ToggleFloat(_) => "hl.dsp.window.float({ action = "
    case TogglePin(_) => "hl.dsp.window.pin({ action = "
    case KillWindow(_) => "hl.dsp.window.kill({ window = "
    case MoveWindow(_, _, _) => "hl.dsp.window.move({ window = "
    case Dpms(_, _) => "hl.dsp.dpms({ action = "
    case Exit => "hl.dsp.exit()"
  }

  function FollowEnd(follow: bool): string { if follow then ", follow = true })" else ", follow = false })" }

  /** What follows the head of a template, or nothing when an argument is refused. */
  function Arguments(c: Command): Option<seq<Piece>> {
    match c
    case FocusWorkspace(workspace) =>
      var w := WorkspacePiece(workspace);
      if w.None? then None else Some([w.value, Fixed(END)])
    case ToggleSpecial(name) =>
      if name.None? then None else Some([Quoted(SpecialName(name.value)), Fixed(")")])
    case FocusWindow(address) => Selected(address)
    case CloseWindow(address) => Selected(address)
    case ToggleFloat(address) => Toggled(address)
    case TogglePin(address) => Toggled(address)
    case KillWindow(address) => Selected(address)
    case MoveWindow(address, workspace, follow) =>
      var selector, w := Actions.WindowSelector(address), WorkspacePiece(workspace);
      if follow.None? || selector.None? || w.None? then None
      else Some([Quoted(selector.value), Fixed(", workspace = "), w.value, Fixed(FollowEnd(follow.value))])
    case Dpms(on, monitor) =>
      if on.None? then None
      else if monitor.AllOutputs? then Some([Bare(OnOff(on.value)), Fixed(END)])
      else if monitor.NotText? || !IsConnector(monitor.name) then None
      else Some([Bare(OnOff(on.value)), Fixed(", monitor = "), Bare(monitor.name), Fixed(END)])
    case Exit => Some([])
  }

  function Selected(address: Option<Text>): Option<seq<Piece>> {
    var selector := Actions.WindowSelector(address);
    if selector.None? then None else Some([Quoted(selector.value), Fixed(END)])
  }

  function Toggled(address: Option<Text>): Option<seq<Piece>> {
    var selector := Actions.WindowSelector(address);
    if selector.None? then None
    else Some([Bare(Ascii("toggle")), Fixed(", window = "), Quoted(selector.value), Fixed(END)])
  }

  /** The Lua text of a command, or nothing when the command is refused. */
  function Lua(c: Command): Option<Text> {
    if Arguments(c).None? then None else Render([Fixed(Head(c))] + Arguments(c).value)
  }

  /**
   * Two commands that mean the same: alike up to the spelling of an address and the name of the default
   * special workspace.
   */
  predicate Agree(c: Command, d: Command) {
    match (c, d)
    case (FocusWorkspace(a), FocusWorkspace(b)) => a == b
    case (ToggleSpecial(a), ToggleSpecial(b)) => a.Some? && b.Some? && SpecialName(a.value) == SpecialName(b.value)
    case (FocusWindow(a), FocusWindow(b)) => Actions.WindowSelector(a) == Actions.WindowSelector(b)
    case (CloseWindow(a), CloseWindow(b)) => Actions.WindowSelector(a) == Actions.WindowSelector(b)
    case (ToggleFloat(a), ToggleFloat(b)) => Actions.WindowSelector(a) == Actions.WindowSelector(b)
    case (TogglePin(a), TogglePin(b)) => Actions.WindowSelector(a) == Actions.WindowSelector(b)
    case (KillWindow(a), KillWindow(b)) => Actions.WindowSelector(a) == Actions.WindowSelector(b)
    case (MoveWindow(a, v, f), MoveWindow(b, w, g)) =>
      Actions.WindowSelector(a) == Actions.WindowSelector(b) && v == w && f == g
    case (Dpms(a, m), Dpms(b, n)) => a == b && m == n
    case (Exit, Exit) => true
    case _ => false
  }

  // ---- Every command reads back, and no two share a text ----

  lemma FocusIsCode()
    ensures IsCodeText("hl.dsp.focus({ workspace = ") && IsCodeText("hl.dsp.focus({ window = ")
  {}

  lemma SpecialIsCode()
    ensures IsCodeText("hl.dsp.workspace.toggle_special(")
  {}

  lemma CloseIsCode()
    ensures IsCodeText("hl.dsp.window.close({ window = ")
  {}

  lemma FloatIsCode()
    ensures IsCodeText("hl.dsp.window.float({ action = ")
  {}

  lemma PinIsCode()
    ensures IsCodeText("hl.dsp.window.pin({ action = ")
  {}

  lemma KillIsCode()
    ensures IsCodeText("hl.dsp.window.kill({ window = ")
  {}

  lemma MoveIsCode()
    ensures IsCodeText("hl.dsp.window.move({ window = ")
  {}

  lemma DpmsAndExitAreCode()
    ensures IsCodeText("hl.dsp.dpms({ action = ") && IsCodeText("hl.dsp.exit()")
  {}

  lemma HeadIsCode(c: Command)
    ensures IsCodeText(Head(c))
  {
    hide IsCodeText;
    FocusIsCode();
    SpecialIsCode();
    CloseIsCode();
    FloatIsCode();
    PinIsCode();
    KillIsCode();
    MoveIsCode();
    DpmsAndExitAreCode();
  }

  lemma ShortCode()
    ensures IsCodeText(END) && IsCodeText(")") && IsCodeText(", window = ")
  {}

  lemma LongCode()
    ensures IsCodeText(", workspace = ") && IsCodeText(", monitor = ")
  {}

  lemma FollowCode()
    ensures IsCodeText(", follow = true })") && IsCodeText(", follow = false })")
  {}

  lemma CodeBetween()
    ensures IsCodeText(END) && IsCodeText(")") && IsCodeText(", window = ") && IsCodeText(", workspace = ")
    ensures IsCodeText(", monitor = ") && IsCodeText(FollowEnd(true)) && IsCodeText(FollowEnd(false))
    ensures FollowEnd(true) != FollowEnd(false)
  {
    hide IsCodeText;
    ShortCode();
    LongCode();
    FollowCode();
  }

  lemma PlainWords()
    ensures IsPlainText(Ascii("toggle")) && IsPlainText(OnOff(true)) && IsPlainText(OnOff(false))
    ensures OnOff(true) != OnOff(false)
    ensures forall name :: IsConnector(name) ==> IsPlainText(name)
  {
    hide Ascii;
    LettersArePlain("toggle");
    LettersArePlain("on");
    LettersArePlain("off");
  }

  lemma LettersArePlain(s: string)
    requires forall i :: 0 <= i < |s| ==> 'a' <= s[i] <= 'z'
    ensures IsPlainText(Ascii(s))
  {
    hide Ascii;
  }

  lemma ArgumentsAreReadable(c: Command)
    requires Arguments(c).Some?
    ensures Readable([Fixed(Head(c))] + Arguments(c).value)
  {
    hide Head, IsCodeText, IsPlainText, IsConnector, Ascii, FollowEnd, Actions.WindowSelector;
    HeadIsCode(c);
    CodeBetween();
    PlainWords();
  }

  /** One reader takes every accepted command apart into its code and its arguments. */
  lemma CommandReadsBack(c: Command)
    requires Lua(c).Some?
    ensures Arguments(c).Some? && WellFormed(Lua(c).value)
    ensures Lex(Utf8(Lua(c).value)) == Some(LexemesOf([Fixed(Head(c))] + Arguments(c).value))
  {
    hide Arguments, Render, Readable, Lex, Utf8, WellFormed, LexemesOf;
    ArgumentsAreReadable(c);
    RenderReadsBack([Fixed(Head(c))] + Arguments(c).value);
  }

  /** The kind of a command, and what sets its head apart from the others. */
  function Kind(c: Command): (int, char) {
    match c
    case FocusWorkspace(_) => (27, ' ')
    case ToggleSpecial(_) => (32, 'c')
    case FocusWindow(_) => (24, ' ')
    case CloseWindow(_) => (31, 'c')
    case ToggleFloat(_) => (31, 'f')
    case TogglePin(_) => (29, 'p')
    case KillWindow(_) => (30, 'k')
    case MoveWindow(_, _, _) => (30, 'm')
    case Dpms(_, _) => (23, 'a')
    case Exit => (13, ' ')
  }

  lemma HeadTellsKind(c: Command)
    ensures |Head(c)| == Kind(c).0 && (|Head(c)| > 14 ==> Head(c)[14] == Kind(c).1)
  {}

  /** Two accepted commands have the same text exactly when they agree. */
  lemma LuaIsInjective(c: Command, d: Command)
    requires Lua(c).Some? && Lua(d).Some?
    ensures Lua(c) == Lua(d) <==> Agree(c, d)
  {
    if Lua(c) == Lua(d) {
      SameTextAgrees(c, d);
    }
    if Agree(c, d) {
      AgreeingShareText(c, d);
    }
  }

  lemma SameTextAgrees(c: Command, d: Command)
    requires Lua(c).Some? && Lua(c) == Lua(d)
    ensures Agree(c, d)
  {
    hide Head, Render, Readable, Ascii, Actions.WindowSelector;
    var a, b := [Fixed(Head(c))] + Arguments(c).value, [Fixed(Head(d))] + Arguments(d).value;
    ArgumentsAreReadable(c);
    ArgumentsAreReadable(d);
    RenderTellsPieces(a, b);
    assert SamePiece(a[0], b[0]);
    HeadTellsKind(c);
    HeadTellsKind(d);
    assert Kind(c) == Kind(d);
    forall i | 0 <= i < |a| - 1 ensures SamePiece(Arguments(c).value[i], Arguments(d).value[i]) {
      assert a[i + 1] == Arguments(c).value[i] && b[i + 1] == Arguments(d).value[i];
    }
    SameArgumentsAgree(c, d);
  }

  lemma SameArgumentsAgree(c: Command, d: Command)
    requires Arguments(c).Some? && Arguments(d).Some? && Kind(c) == Kind(d)
    requires var v, w := Arguments(c).value, Arguments(d).value;
             |v| == |w| && forall i :: 0 <= i < |v| ==> SamePiece(v[i], w[i])
    ensures Agree(c, d)
  {
    hide Ascii, OnOff, FollowEnd, IsConnector, Actions.WindowSelector;
    var v, w := Arguments(c).value, Arguments(d).value;
    PlainWords();
    CodeBetween();
    assert |v| > 0 ==> SamePiece(v[0], w[0]);
    assert |v| > 2 ==> SamePiece(v[2], w[2]);
    assert |v| > 3 ==> SamePiece(v[3], w[3]);
  }

  lemma AgreeingShareText(c: Command, d: Command)
    requires Arguments(c).Some? && Arguments(d).Some? && Agree(c, d)
    ensures Lua(c) == Lua(d)
  {
    hide Render, Actions.WindowSelector, IsConnector;
  }

  /** The move among these commands is the move of the action builders. */
  lemma MoveIsTheAction(address: Option<Text>, workspace: Actions.Workspace, follow: Option<bool>)
    ensures Lua(MoveWindow(address, workspace, follow)) ==
            var action := Actions.MoveWindow(address, workspace, follow);
            if action.None? then None else Some(action.value.lua)
  {
    hide PieceText, Render, WorkspacePiece, LuaLiteral, Head, FollowEnd;
    hide Actions.WindowSelector, Actions.WorkspaceLua, Actions.MoveLua, Actions.WorkspaceLegacy, Actions.MoveLegacy;
    var c := MoveWindow(address, workspace, follow);
    WorkspaceTexts(workspace);
    MoveHead(c);
    if Arguments(c).Some? {
      var v := Arguments(c).value;
      assert [Fixed(Head(c))] + v == [Fixed(Head(c)), v[0], v[1], v[2], v[3]];
      MoveRenders(Actions.WindowSelector(address).value, WorkspacePiece(workspace).value, follow.value);
    }
  }

  lemma MoveHead(c: Command)
    requires c.MoveWindow?
    ensures Head(c) == "hl.dsp.window.move({ window = "
  {}

  lemma WorkspaceTexts(workspace: Actions.Workspace)
    ensures Actions.WorkspaceLua(workspace) ==
            var w := WorkspacePiece(workspace); if w.None? then None else PieceText(w.value)
  {
    hide LuaLiteral, Digits;
  }

  lemma MoveRenders(selector: Text, workspace: Piece, follow: bool)
    ensures Render([Fixed("hl.dsp.window.move({ window = "), Quoted(selector), Fixed(", workspace = "), workspace,
                    Fixed(FollowEnd(follow))]) ==
            if LuaLiteral(selector).None? || PieceText(workspace).None? then None
            else Some(Actions.MoveLua(LuaLiteral(selector).value, PieceText(workspace).value, follow))
  {
    hide Ascii, LuaLiteral, Digits, Render, Escaped, FollowEnd;
    hide Actions.MOVE, Actions.WORKSPACE, Actions.FOLLOW, Actions.YES, Actions.NO;
    var head, middle, end := Fixed("hl.dsp.window.move({ window = "), Fixed(", workspace = "), Fixed(FollowEnd(follow));
    FivePieces(head, Quoted(selector), middle, workspace, end);
    MoveTexts(follow);
    if LuaLiteral(selector).Some? && PieceText(workspace).Some? {
      var before := Actions.MOVE + LuaLiteral(selector).value + Actions.WORKSPACE + PieceText(workspace).value;
      var answer := if follow then Actions.YES else Actions.NO;
      assert before + (Actions.FOLLOW + answer) == before + Actions.FOLLOW + answer;
    }
  }

  lemma FivePieces(a: Piece, b: Piece, c: Piece, d: Piece, e: Piece)
    ensures Render([a, b, c, d, e]) ==
            if PieceText(a).None? || PieceText(b).None? || PieceText(c).None? || PieceText(d).None?
              || PieceText(e).None?
            then None
            else Some(PieceText(a).value + PieceText(b).value + PieceText(c).value + PieceText(d).value
              + PieceText(e).value)
  {
    hide PieceText, Render;
    OnePiece(a, [b, c, d, e]);
    OnePiece(b, [c, d, e]);
    OnePiece(c, [d, e]);
    OnePiece(d, [e]);
    OnePiece(e, []);
    NoPiece();
    assert [a, b, c, d, e] == [a] + [b, c, d, e] && [b, c, d, e] == [b] + [c, d, e];
    assert [c, d, e] == [c] + [d, e] && [d, e] == [d] + [e] && [e] == [e] + [];
    if PieceText(a).Some? && PieceText(b).Some? && PieceText(c).Some? && PieceText(d).Some? && PieceText(e).Some? {
      InARow(PieceText(a).value, PieceText(b).value, PieceText(c).value, PieceText(d).value, PieceText(e).value);
    }
  }

  lemma InARow(a: Text, b: Text, c: Text, d: Text, e: Text)
    ensures a + (b + (c + (d + (e + [])))) == a + b + c + d + e
  {}

  lemma OnePiece(p: Piece, rest: seq<Piece>)
    ensures Render([p] + rest) ==
            if PieceText(p).None? || Render(rest).None? then None else Some(PieceText(p).value + Render(rest).value)
  {
    hide PieceText;
    assert ([p] + rest)[1..] == rest;
  }

  lemma NoPiece()
    ensures Render([]) == Some([])
  {}

  lemma MoveTexts(follow: bool)
    ensures Ascii("hl.dsp.window.move({ window = ") == Actions.MOVE && Ascii(", workspace = ") == Actions.WORKSPACE
    ensures Ascii(FollowEnd(follow)) == Actions.FOLLOW + if follow then Actions.YES else Actions.NO
  {
    hide Ascii;
    AsciiConcat(", follow = ", "true })");
    AsciiConcat(", follow = ", "false })");
    assert ", follow = " + "true })" == ", follow = true })" && ", follow = " + "false })" == ", follow = false })";
  }

  // ---- Legacy texts ----

  /** The dispatcher of a command's legacy text. */
  function Dispatcher(c: Command): string {
    match c
    case FocusWorkspace(_) => "workspace"
    case ToggleSpecial(_) => "togglespecialworkspace"
    case FocusWindow(_) => "focuswindow"
    case CloseWindow(_) => "closewindow"
    case ToggleFloat(_) => "togglefloating"
    case TogglePin(_) => "pin"
    case KillWindow(_) => "killwindow"
    case MoveWindow(_, _, follow) => if follow == Some(true) then "movetoworkspace" else "movetoworkspacesilent"
    case Dpms(_, _) => "dpms"
    case Exit => "exit"
  }

  const SPACE: CodeUnit := 0x20
  const COMMA: CodeUnit := 0x2C

  /** What follows the dispatcher, or nothing when an argument cannot be written in a legacy text. */
  function LegacyArgument(c: Command): Option<Text>
    requires Arguments(c).Some?
  {
    match c
    case FocusWorkspace(workspace) => Actions.WorkspaceLegacy(workspace)
    case ToggleSpecial(name) =>
      if Actions.LegacySafe(SpecialName(name.value)) then Some(SpecialName(name.value)) else None
    case FocusWindow(address) => Actions.WindowSelector(address)
    case CloseWindow(address) => Actions.WindowSelector(address)
    case ToggleFloat(address) => Actions.WindowSelector(address)
    case TogglePin(address) => Actions.WindowSelector(address)
    case KillWindow(address) => Actions.WindowSelector(address)
    case MoveWindow(address, workspace, _) =>
      var w := Actions.WorkspaceLegacy(workspace);
      if w.None? then None else Some(w.value + [COMMA] + Actions.WindowSelector(address).value)
    case Dpms(on, monitor) =>
      if monitor.AllOutputs? then Some(OnOff(on.value)) else Some(OnOff(on.value) + [SPACE] + monitor.name)
    case Exit => None
  }

  /** The legacy text of an accepted command; it is empty when there is none. */
  function Legacy(c: Command): Text
    requires Arguments(c).Some?
  {
    if c.Exit? then Ascii(Dispatcher(c))
    else
      var argument := LegacyArgument(c);
      if argument.None? then [] else Ascii(Dispatcher(c)) + [SPACE] + argument.value
  }

  predicate SameLegacyWorkspace(a: Actions.Workspace, b: Actions.Workspace) {
    a == b || Actions.SpellsNumber(a, b) || Actions.SpellsNumber(b, a)
  }

  /** Commands that agree but for a workspace number and a name spelled like it. */
  predicate LegacyAgree(c: Command, d: Command) {
    match (c, d)
    case (FocusWorkspace(a), FocusWorkspace(b)) => SameLegacyWorkspace(a, b)
    case (MoveWindow(a, v, f), MoveWindow(b, w, g)) =>
      Actions.WindowSelector(a) == Actions.WindowSelector(b) && SameLegacyWorkspace(v, w) && f == g
    case _ => Agree(c, d)
  }

  /**
   * Two accepted commands that have a legacy text share it exactly when they agree, a workspace's number and
   * name aside.
   */
  lemma LegacyIsSharedExactly(c: Command, d: Command)
    requires Arguments(c).Some? && Arguments(d).Some? && Legacy(c) != [] && Legacy(d) != []
    ensures Legacy(c) == Legacy(d) <==> LegacyAgree(c, d)
  {
    hide *;
    if Legacy(c) == Legacy(d) {
      SameLegacyAgrees(c, d);
    }
    if LegacyAgree(c, d) {
      AgreeingShareLegacy(c, d);
    }
  }

  predicate IsWord(s: string) { s != [] && forall i :: 0 <= i < |s| ==> 'a' <= s[i] <= 'z' }

  lemma ShortWords()
    ensures IsWord("workspace") && IsWord("pin") && IsWord("killwindow") && IsWord("dpms") && IsWord("exit")
  {}

  lemma WindowWords()
    ensures IsWord("focuswindow") && IsWord("closewindow") && IsWord("togglefloating")
  {}

  lemma LongWords()
    ensures IsWord("togglespecialworkspace") && IsWord("movetoworkspace") && IsWord("movetoworkspacesilent")
  {}

  lemma DispatcherIsWord(c: Command)
    ensures IsWord(Dispatcher(c))
  {
    hide IsWord;
    ShortWords();
    WindowWords();
    LongWords();
  }

  lemma WordHasNoSpace(s: string)
    requires IsWord(s)
    ensures SPACE !in Ascii(s) && IsCodeText(s)
  {
    hide Ascii;
  }

  /** The kind of a dispatcher, by its length and first letter. */
  function DispatcherKind(c: Command): (int, char) {
    match c
    case FocusWorkspace(_) => (9, 'w')
    case ToggleSpecial(_) => (22, 't')
    case FocusWindow(_) => (11, 'f')
    case CloseWindow(_) => (11, 'c')
    case ToggleFloat(_) => (14, 't')
    case TogglePin(_) => (3, 'p')
    case KillWindow(_) => (10, 'k')
    case MoveWindow(_, _, follow) => (if follow == Some(true) then 15 else 21, 'm')
    case Dpms(_, _) => (4, 'd')
    case Exit => (4, 'e')
  }

  lemma DispatcherTellsKind(c: Command)
    ensures |Dispatcher(c)| == DispatcherKind(c).0 && Dispatcher(c)[0] == DispatcherKind(c).1
  {}

  lemma SameLegacyAgrees(c: Command, d: Command)
    requires Arguments(c).Some? && Arguments(d).Some? && Legacy(c) != [] && Legacy(c) == Legacy(d)
    ensures LegacyAgree(c, d)
  {
    hide Dispatcher, LegacyArgument, LegacyAgree, Ascii, Arguments, IsWord, IsCodeText;
    DispatcherIsWord(c);
    DispatcherIsWord(d);
    WordHasNoSpace(Dispatcher(c));
    WordHasNoSpace(Dispatcher(d));
    DispatcherTellsKind(c);
    DispatcherTellsKind(d);
    if c.Exit? || d.Exit? {
      BothExit(c, d);
    } else {
      Splitting.FirstSeparatorSplits(Ascii(Dispatcher(c)), LegacyArgument(c).value,
                                     Ascii(Dispatcher(d)), LegacyArgument(d).value, SPACE);
      AsciiTellsText(Dispatcher(c), Dispatcher(d));
      SameLegacyArgumentsAgree(c, d);
    }
  }

  lemma SpaceIsInside(a: Text, b: Text)
    ensures SPACE in a + [SPACE] + b
  {
    assert (a + [SPACE] + b)[|a|] == SPACE;
  }

  lemma BothExit(c: Command, d: Command)
    ensures c.Exit? && d.Exit? ==> LegacyAgree(c, d)
  {}

  lemma SameLegacyArgumentsAgree(c: Command, d: Command)
    requires Arguments(c).Some? && Arguments(d).Some? && DispatcherKind(c) == DispatcherKind(d)
    requires LegacyArgument(c).Some? && LegacyArgument(c) == LegacyArgument(d)
    ensures LegacyAgree(c, d)
  {
    hide Actions.WindowSelector, Actions.WorkspaceLegacy, Actions.LegacySafe, Actions.SpellsNumber;
    hide Ascii, OnOff, IsConnector, WorkspacePiece;
    match (c, d)
    case (FocusWorkspace(a), FocusWorkspace(b)) => Actions.WorkspacesShareLegacyExactly(a, b);
    case (MoveWindow(a, v, _), MoveWindow(b, w, _)) =>
      Actions.LegacyWorkspaceHasNoComma(v);
      Actions.LegacyWorkspaceHasNoComma(w);
      Splitting.FirstSeparatorSplits(Actions.WorkspaceLegacy(v).value, Actions.WindowSelector(a).value,
                                     Actions.WorkspaceLegacy(w).value, Actions.WindowSelector(b).value, COMMA);
      Actions.WorkspacesShareLegacyExactly(v, w);
    case (Dpms(a, m), Dpms(b, n)) => SameDpms(a.value, m, b.value, n);
    case _ =>
  }

  lemma OnOffHasNoSpace(on: bool)
    ensures SPACE !in OnOff(on)
  {
    hide Ascii;
    WordHasNoSpace("on");
    WordHasNoSpace("off");
  }

  lemma SameDpms(a: bool, m: Monitor, b: bool, n: Monitor)
    requires !m.NotText? && !n.NotText? && (m.Connector? ==> IsConnector(m.name))
             && (n.Connector? ==> IsConnector(n.name))
    requires (if m.AllOutputs? then OnOff(a) else OnOff(a) + [SPACE] + m.name) ==
             (if n.AllOutputs? then OnOff(b) else OnOff(b) + [SPACE] + n.name)
    ensures a == b && m == n
  {
    hide Ascii, OnOff;
    PlainWords();
    OnOffHasNoSpace(a);
    OnOffHasNoSpace(b);
    if m.Connector? && n.Connector? {
      Splitting.FirstSeparatorSplits(OnOff(a), m.name, OnOff(b), n.name, SPACE);
    } else if m.Connector? {
      SpaceIsInside(OnOff(a), m.name);
    } else if n.Connector? {
      SpaceIsInside(OnOff(b), n.name);
    }
  }

  lemma AgreeingShareLegacy(c: Command, d: Command)
    requires Arguments(c).Some? && Arguments(d).Some? && LegacyAgree(c, d) && Legacy(c) != [] && Legacy(d) != []
    ensures Legacy(c) == Legacy(d)
  {
    hide Actions.WindowSelector, Actions.WorkspaceLegacy, Actions.LegacySafe, Actions.SpellsNumber;
    hide Ascii, OnOff, IsConnector, WorkspacePiece;
    match (c, d)
    case (FocusWorkspace(a), FocusWorkspace(b)) => Actions.WorkspacesShareLegacyExactly(a, b);
    case (MoveWindow(_, v, _), MoveWindow(_, w, _)) => Actions.WorkspacesShareLegacyExactly(v, w);
    case _ =>
  }

  /** The move's legacy text is that of the action builder. */
  lemma MoveLegacyIsTheAction(address: Option<Text>, workspace: Actions.Workspace, follow: Option<bool>)
    requires Actions.MoveWindow(address, workspace, follow).Some?
    ensures Arguments(MoveWindow(address, workspace, follow)).Some?
    ensures Legacy(MoveWindow(address, workspace, follow)) ==
            Actions.MoveWindow(address, workspace, follow).value.legacy
  {
    hide Ascii, LuaLiteral, Digits, Dispatcher, WorkspacePiece;
    hide Actions.WindowSelector, Actions.WorkspaceLua, Actions.WorkspaceLegacy, Actions.MoveLua;
    var c := MoveWindow(address, workspace, follow);
    WorkspaceTexts(workspace);
    MoveDispatcher(c);
    if Actions.WorkspaceLegacy(workspace).Some? {
      InFour(Ascii(Dispatcher(c)), [SPACE], Actions.WorkspaceLegacy(workspace).value, [COMMA],
             Actions.WindowSelector(address).value);
    }
  }

  lemma MoveDispatcher(c: Command)
    requires c.MoveWindow? && c.follow.Some?
    ensures Ascii(Dispatcher(c)) + [SPACE] ==
            Ascii(if c.follow.value then "movetoworkspace " else "movetoworkspacesilent ")
  {
    hide Ascii;
    OneSpace();
    AsciiConcat("movetoworkspace", " ");
    AsciiConcat("movetoworkspacesilent", " ");
    assert "movetoworkspace" + " " == "movetoworkspace " && "movetoworkspacesilent" + " " == "movetoworkspacesilent ";
  }

  lemma OneSpace()
    ensures Ascii(" ") == [SPACE]
  {
    assert " "[1..] == [];
  }

  lemma InFour(a: Text, b: Text, c: Text, d: Text, e: Text)
    ensures a + b + (c + d + e) == (a + b) + c + d + e
  {}
}
