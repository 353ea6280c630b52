/** A reader of the legacy texts of commands, with its own words. */
module LegacyReader {
  import opened Wrappers
  import opened Unicode
  import opened Decimals
  import opened HyprCommands
  import opened HyprReader
  import Splitting
  import Actions = HyprActions

  /** Where a separator first stands, or the length of the text. */
  function Upto(text: Text, separator: CodeUnit): (n: nat)
    ensures n <= |text| && separator !in text[..n] && (n < |text| ==> text[n] == separator)
  {
    if text == [] || text[0] == separator then 0
    else
      var n := Upto(text[1..], separator);
      assert text[..n + 1] == [text[0]] + text[1..][..n];
      n + 1
  }

  /** What stands before the first separator, and what follows it. */
  function Word(text: Text, separator: CodeUnit): Text { text[..Upto(text, separator)] }

  function Rest(text: Text, separator: CodeUnit): Option<Text> {
    var n := Upto(text, separator);
    if n == |text| then None else Some(text[n + 1..])
  }

  function ReadAddress(argument: Option<Text>): Option<Text> {
    if argument.None? then None else AddressIn(argument.value)
  }

  /** A numeral is a number; any other text is a name. */
  function ReadWorkspace(text: Text): Actions.Workspace {
    if IsNumeral(text) && 1 <= Decimal(text, |text|) <= 0x1F_FFFF_FFFF_FFFF then Actions.Integer(Decimal(text, |text|))
    else Actions.Name(text)
  }

  function ReadMove(argument: Option<Text>, follow: bool): Option<Command> {
    if argument.None? then None
    else
      Some(MoveWindow(ReadAddress(Rest(argument.value, 0x2C)), ReadWorkspace(Word(argument.value, 0x2C)), Some(follow)))
  }

  function ReadDpms(argument: Option<Text>): Option<Command> {
    if argument.None? then None
    else
      var name := Rest(argument.value, 0x20);
      Some(Dpms(SwitchOf(Some(Word(argument.value, 0x20))), if name.None? then AllOutputs else Connector(name.value)))
  }

  /** The word says which command it is. */
  function Dispatch(word: Text, argument: Option<Text>): Option<Command> {
    if word == Ascii("exit") then Some(Exit)
    else if word == Ascii("dpms") then ReadDpms(argument)
    else if word == Ascii("pin") then Some(TogglePin(ReadAddress(argument)))
    else if word == Ascii("workspace") && argument.Some? then Some(FocusWorkspace(ReadWorkspace(argument.value)))
    else if word == Ascii("togglespecialworkspace") then Some(ToggleSpecial(argument))
    else if word == Ascii("focuswindow") then Some(FocusWindow(ReadAddress(argument)))
    else if word == Ascii("closewindow") then Some(CloseWindow(ReadAddress(argument)))
    else if word == Ascii("togglefloating") then Some(ToggleFloat(ReadAddress(argument)))
    else if word == Ascii("killwindow") then Some(KillWindow(ReadAddress(argument)))
    else if word == Ascii("movetoworkspace") then ReadMove(argument, true)
    else if word == Ascii("movetoworkspacesilent") then ReadMove(argument, false)
    else None
  }

  /** The word is what stands before the first space. */
  function ReadLegacy(text: Text): Option<Command> { Dispatch(Word(text, 0x20), Rest(text, 0x20)) }

  // ---- Every legacy text is read ----

  /** The workspace that was meant: a name that is a numeral is read as its number. */
  predicate IsWorkspaceOf(read: Actions.Workspace, given: Actions.Workspace) {
    || read == given
    || (given.Name? && IsNumeral(given.text) && read == Actions.Integer(Decimal(given.text, |given.text|)))
  }

  /** What a reader is to get from a command, workspaces apart as in `Says`. */
  ghost predicate SaysLegacy(read: Command, c: Command) {
    match (read, c)
    case (FocusWorkspace(v), FocusWorkspace(w)) => IsWorkspaceOf(v, w)
    case (MoveWindow(a, v, f), MoveWindow(b, w, g)) => IsAddressOf(a, b) && IsWorkspaceOf(v, w) && f == g && g.Some?
    case _ => Says(read, c)
  }

  lemma WordAndRest(word: Text, rest: Text, separator: CodeUnit)
    requires separator !in word
    ensures Word(word + [separator] + rest, separator) == word
    ensures Rest(word + [separator] + rest, separator) == Some(rest)
  {
    var s := word + [separator] + rest;
    var n := Upto(s, separator);
    assert s[|word|] == separator;
    assert s[..|s|] == s;
    assert s == s[..n] + [separator] + s[n + 1..];
    Splitting.FirstSeparatorSplits(word, rest, s[..n], s[n + 1..], separator);
  }

  lemma WholeWord(word: Text, separator: CodeUnit)
    requires separator !in word
    ensures Word(word, separator) == word && Rest(word, separator).None?
  {
    assert word[..|word|] == word && forall i :: 0 <= i < |word| ==> word[i] in word;
  }

  lemma WorkspaceIsReadBack(workspace: Actions.Workspace)
    requires Actions.WorkspaceLegacy(workspace).Some?
    ensures IsWorkspaceOf(ReadWorkspace(Actions.WorkspaceLegacy(workspace).value), workspace)
  {
    hide Digits, Actions.LegacySafe;
    if workspace.Integer? {
      DigitsAreTheNumeral(workspace.n);
    }
  }

  /** Words of the same length start with different letters. */
  lemma WordsDiffer()
    ensures Ascii("exit")[0] != Ascii("dpms")[0] && Ascii("focuswindow")[0] != Ascii("closewindow")[0]
  {
    hide Ascii;
    var exit, dpms, focus, close := "exit", "dpms", "focuswindow", "closewindow";
    assert Ascii(exit)[0] == 0x65 && Ascii(dpms)[0] == 0x64 && Ascii(focus)[0] == 0x66 && Ascii(close)[0] == 0x63;
  }

  lemma ShortDispatches(a: Option<Text>)
    ensures Dispatch(Ascii("exit"), a) == Some(Exit) && Dispatch(Ascii("dpms"), a) == ReadDpms(a)
    ensures Dispatch(Ascii("pin"), a) == Some(TogglePin(ReadAddress(a)))
    ensures a.Some? ==> Dispatch(Ascii("workspace"), a) == Some(FocusWorkspace(ReadWorkspace(a.value)))
    ensures Dispatch(Ascii("killwindow"), a) == Some(KillWindow(ReadAddress(a)))
    ensures Dispatch(Ascii("focuswindow"), a) == Some(FocusWindow(ReadAddress(a)))
    ensures Dispatch(Ascii("closewindow"), a) == Some(CloseWindow(ReadAddress(a)))
  {
    hide Ascii, ReadDpms, ReadAddress, ReadWorkspace, ReadMove;
    WordsDiffer();
  }

  lemma LongDispatches(a: Option<Text>)
    ensures Dispatch(Ascii("togglespecialworkspace"), a) == Some(ToggleSpecial(a))
    ensures Dispatch(Ascii("togglefloating"), a) == Some(ToggleFloat(ReadAddress(a)))
    ensures Dispatch(Ascii("movetoworkspace"), a) == ReadMove(a, true)
    ensures Dispatch(Ascii("movetoworkspacesilent"), a) == ReadMove(a, false)
  {
    hide Ascii, ReadDpms, ReadAddress, ReadWorkspace, ReadMove;
  }

  lemma ArgumentSays(c: Command)
    requires Arguments(c).Some? && !c.Exit? && LegacyArgument(c).Some?
    ensures var read := Dispatch(Ascii(Dispatcher(c)), LegacyArgument(c)); read.Some? && SaysLegacy(read.value, c)
  {
    hide Ascii, Dispatch, ReadAddress, ReadWorkspace, ReadMove, ReadDpms, IsAddressOf, IsWorkspaceOf, IsConnector;
    hide OnOff, WorkspacePiece, Actions.WindowSelector, Actions.WorkspaceLegacy, Actions.LegacySafe;
    var a := LegacyArgument(c);
    ShortDispatches(a);
    LongDispatches(a);
    match c
    case FocusWorkspace(workspace) => WorkspaceIsReadBack(workspace);
    case ToggleSpecial(_) =>
    case FocusWindow(address) => AddressIsReadBack(address);
    case CloseWindow(address) => AddressIsReadBack(address);
    case ToggleFloat(address) => AddressIsReadBack(address);
    case TogglePin(address) => AddressIsReadBack(address);
    case KillWindow(address) => AddressIsReadBack(address);
    case MoveWindow(address, workspace, follow) => MoveIsReadBack(address, workspace, follow.value);
    case Dpms(on, monitor) => DpmsIsReadBack(on.value, monitor);
  }

  lemma AddressIsReadBack(address: Option<Text>)
    requires Actions.WindowSelector(address).Some?
    ensures IsAddressOf(ReadAddress(Actions.WindowSelector(address)), address)
  {
    hide Ascii, AddressIn, IsAddressOf, Actions.WindowSelector;
    SelectorHoldsAddress(address);
  }

  lemma MoveIsReadBack(address: Option<Text>, workspace: Actions.Workspace, follow: bool)
    requires Actions.WindowSelector(address).Some? && Actions.WorkspaceLegacy(workspace).Some?
    ensures var w, selector := Actions.WorkspaceLegacy(workspace).value, Actions.WindowSelector(address).value;
            var read := ReadMove(Some(w + [0x2C] + selector), follow);
            read.Some? && SaysLegacy(read.value, MoveWindow(address, workspace, Some(follow)))
  {
    hide ReadAddress, ReadWorkspace, IsAddressOf, IsWorkspaceOf, Word, Rest;
    hide Actions.WindowSelector, Actions.WorkspaceLegacy;
    Actions.LegacyWorkspaceHasNoComma(workspace);
    WordAndRest(Actions.WorkspaceLegacy(workspace).value, Actions.WindowSelector(address).value, 0x2C);
    WorkspaceIsReadBack(workspace);
    AddressIsReadBack(address);
  }

  lemma DpmsIsReadBack(on: bool, monitor: Monitor)
    requires !monitor.NotText?
    ensures var argument := if monitor.AllOutputs? then OnOff(on) else OnOff(on) + [0x20] + monitor.name;
            ReadDpms(Some(argument)) == Some(Dpms(Some(on), monitor))
  {
    hide OnOff, SwitchOf, Word, Rest;
    OnOffHasNoSpace(on);
    SwitchIsRead(on);
    if monitor.AllOutputs? {
      WholeWord(OnOff(on), 0x20);
    } else {
      WordAndRest(OnOff(on), monitor.name, 0x20);
    }
  }

  /** Every legacy text is read as what its command says, up to names that are numerals. */
  lemma LegacySaysTheCommand(c: Command)
    requires Arguments(c).Some? && Legacy(c) != []
    ensures var read := ReadLegacy(Legacy(c)); read.Some? && SaysLegacy(read.value, c)
  {
    hide Ascii, Arguments, Dispatch, LegacyArgument, Dispatcher, SaysLegacy, IsWord, Word, Rest;
    DispatcherIsWord(c);
    WordHasNoSpace(Dispatcher(c));
    if c.Exit? {
      WholeWord(Ascii(Dispatcher(c)), 0x20);
      ExitSays();
    } else {
      WordAndRest(Ascii(Dispatcher(c)), LegacyArgument(c).value, 0x20);
      ArgumentSays(c);
    }
  }

  lemma ExitSays()
    ensures Dispatch(Ascii(Dispatcher(Exit)), None) == Some(Exit) && SaysLegacy(Exit, Exit)
  {
    hide Ascii;
    ShortDispatches(None);
  }

  // ---- Which commands have one ----

  /** A name without control characters, separators, quotes and backslashes. */
  predicate IsPlainName(name: Text) {
    name != [] && forall i :: 0 <= i < |name| ==> name[i] >= 0x20 && name[i] != 0x7F && name[i] !in Ascii(",;\"'\\")
  }

  /** An accepted command has a legacy text exactly when the workspace it names, if any, is a number or a plain name. */
  lemma HasLegacyExactly(c: Command)
    requires Arguments(c).Some?
    ensures Legacy(c) != [] <==>
            match c
            case FocusWorkspace(workspace) => workspace.Integer? || IsPlainName(workspace.text)
            case MoveWindow(_, workspace, _) => workspace.Integer? || IsPlainName(workspace.text)
            case ToggleSpecial(name) => name.value == [] || IsPlainName(name.value)
            case _ => true
  {
    hide Ascii, OnOff, IsConnector, Actions.WindowSelector, Actions.LegacySafe, IsPlainName, Digits, IsWord;
    DispatcherIsWord(c);
    match c
    case FocusWorkspace(workspace) => PlainIsSafe(workspace);
    case MoveWindow(_, workspace, _) => PlainIsSafe(workspace);
    case ToggleSpecial(name) =>
      PlainIsSafe(Actions.Name(name.value));
      SpecialIsSafe();
    case _ =>
  }

  lemma PlainIsSafe(workspace: Actions.Workspace)
    ensures workspace.Name? ==> (Actions.LegacySafe(workspace.text) <==> IsPlainName(workspace.text))
  {
    hide Ascii;
    var s := ",;\"'\\";
    var t := Ascii(s);
    assert t[0] == 0x2C && t[1] == 0x3B && t[2] == 0x22 && t[3] == 0x27 && t[4] == 0x5C;
  }

  lemma SpecialIsSafe()
    ensures Actions.LegacySafe(SPECIAL)
  {
    hide Ascii;
    var s := "special";
    assert forall i :: 0 <= i < |s| ==> 'a' <= s[i] <= 'z';
  }
}
