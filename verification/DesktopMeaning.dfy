/** Which desktop entry a window gets: the answer to the first of its questions that has one. */
module DesktopMeaning {
  import opened Wrappers
  import opened Unicode
  import opened WhiteSpace
  import opened Splitting
  import opened DesktopEntries

  // ---- Names, paths and games ----

  /** Normalising takes the lower case and one `.desktop` off its end, and then one `.appimage`. */
  lemma NormalisingStrips(lower: Text -> Text, value: Option<Text>, stem: Text)
    ensures var s, n := lower(if value.Some? then value.value else []), NormalizeIdentity(lower, value);
            && (s == stem + Ascii(".appimage") + Ascii(".desktop") ==> n == stem)
            && (s == stem + Ascii(".appimage") ==> n == stem)
            && (s == stem + Ascii(".desktop") && !EndsWith(stem, Ascii(".appimage")) ==> n == stem)
            && (!EndsWith(s, Ascii(".desktop")) && !EndsWith(s, Ascii(".appimage")) ==> n == s)
            && (s == stem + Ascii(".desktop") + Ascii(".appimage") ==> n == stem + Ascii(".desktop"))
  {
    hide Ascii;
    SuffixesDiffer(stem);
    SuffixGoes(stem + Ascii(".appimage"), Ascii(".desktop"));
    SuffixGoes(stem, Ascii(".appimage"));
    SuffixGoes(stem, Ascii(".desktop"));
    SuffixGoes(stem + Ascii(".desktop"), Ascii(".appimage"));
    SuffixesDiffer(stem + Ascii(".desktop"));
  }

  lemma SuffixGoes(stem: Text, suffix: Text)
    ensures EndsWith(stem + suffix, suffix) && WithoutSuffix(stem + suffix, suffix) == stem
  {
    assert (stem + suffix)[|stem|..] == suffix;
  }

  lemma SuffixesDiffer(stem: Text)
    ensures !EndsWith(stem + Ascii(".appimage"), Ascii(".desktop"))
  {
    hide Ascii;
    var s, a, d := stem + Ascii(".appimage"), ".appimage", ".desktop";
    assert s[|s| - 1] == Ascii(a)[8] == a[8] as int && Ascii(d)[7] == d[7] as int;
    assert s[|s| - 8..][7] == s[|s| - 1];
  }

  /** The name a path ends with. */
  ghost predicate IsLastName(path: Text, name: Text) {
    0x2F !in name && (path == name || exists directory: Text :: path == directory + [0x2F] + name)
  }

  /** A name that the icon file of a game may have, in any directory and with one extension or none. */
  ghost predicate IsGameIcon(icon: Text, appId: Text) {
    exists name, extension: Text ::
      && IsLastName(icon, name) && name == Ascii("steam_icon_") + appId + extension
      && IsExtension(extension)
  }

  /** A dot and an ending without dots, or nothing. */
  predicate IsExtension(extension: Text) {
    extension == [] || (|extension| >= 2 && extension[0] == 0x2E && 0x2E !in extension[1..])
  }

  /** An argument that starts a game: its address, alone or after an equals sign. */
  ghost predicate StartsGame(argument: Text, appId: Text) {
    exists before: Text ::
      && argument == before + Ascii("steam://rungameid/") + appId
      && (before == [] || before[|before| - 1] == 0x3D)
  }

  ghost predicate IsGame(e: Entry, appId: Text) {
    || (e.icon.Some? && IsGameIcon(e.icon.value, appId))
    || exists i :: 0 <= i < |e.command| && StartsGame(e.command[i], appId)
  }

  /** `steam_app_` in letters of either case, followed by the digits of a game. */
  ghost predicate NamesGame(identity: Text, appId: Text) {
    && |identity| == 10 + |appId| && identity[10..] == appId && appId != []
    && (forall i :: 0 <= i < 10 ==> identity[i] == Ascii("steam_app_")[i] || identity[i] == Ascii("STEAM_APP_")[i])
    && (forall i :: 0 <= i < |appId| ==> 0x30 <= appId[i] <= 0x39)
  }

  /** A text is its last piece, or what stands before it, a separator and its last piece. */
  lemma LastPiece(s: Text, separator: CodeUnit) returns (front: Text)
    ensures var pieces := SplitOn(s, separator); var last := pieces[|pieces| - 1];
            && separator !in last && (|pieces| == 1 ==> s == last)
            && (|pieces| > 1 ==> front == Join(pieces[..|pieces| - 1], separator) && s == front + [separator] + last)
  {
    hide SplitOn;
    var pieces := SplitOn(s, separator);
    JoinUndoesSplit(s, separator);
    front := [];
    if |pieces| > 1 {
      JoinEnds(pieces, separator);
      front := Join(pieces[..|pieces| - 1], separator);
    }
  }

  lemma BaseNameIsLastName(path: Text, name: Text)
    ensures BaseName(path) == name <==> IsLastName(path, name)
  {
    var front := LastPiece(path, SLASH);
    hide SplitOn;
    var pieces := SplitOn(path, SLASH);
    if IsLastName(path, name) {
      if path == name {
        WholeIsOnePiece(path, SLASH);
      } else {
        var directory :| path == directory + [0x2F] + name;
        assert path[|directory|] == SLASH;
        assert |pieces| > 1;
        LastSeparatorSplits(directory, name, front, pieces[|pieces| - 1], SLASH);
      }
    }
  }

  lemma WholeIsOnePiece(s: Text, separator: CodeUnit)
    requires separator !in s
    ensures SplitOn(s, separator) == [s]
  {
    SplitPrefix(s, [], separator);
    assert s + [] == s;
  }

  /** What is left of a name without dots but for its extension. */
  lemma ExtensionGoes(name: Text, stem: Text)
    requires 0x2E !in stem
    ensures WithoutExtension(name) == stem <==>
            exists extension: Text :: name == stem + extension && IsExtension(extension)
  {
    hide SplitOn;
    if WithoutExtension(name) == stem {
      var extension := ExtensionOf(name);
    }
    if extension: Text :| name == stem + extension && IsExtension(extension) {
      StemIsLeft(stem, extension);
    }
  }

  lemma ExtensionOf(name: Text) returns (extension: Text)
    ensures name == WithoutExtension(name) + extension && IsExtension(extension)
  {
    var front := LastPiece(name, DOT);
    hide SplitOn;
    var pieces := SplitOn(name, DOT);
    var last := pieces[|pieces| - 1];
    extension := if |pieces| == 1 || last == [] then [] else [DOT] + last;
    assert extension != [] ==> extension[1..] == last;
  }

  lemma StemIsLeft(stem: Text, extension: Text)
    requires 0x2E !in stem && IsExtension(extension)
    ensures WithoutExtension(stem + extension) == stem
  {
    var name := stem + extension;
    var front := LastPiece(name, DOT);
    hide SplitOn;
    var pieces := SplitOn(name, DOT);
    if extension == [] {
      assert name == stem;
      WholeIsOnePiece(name, DOT);
    } else {
      assert name == stem + [DOT] + extension[1..];
      assert name[|stem|] == DOT;
      LastSeparatorSplits(stem, extension[1..], front, pieces[|pieces| - 1], DOT);
    }
  }

  predicate AllDigits(appId: Text) { forall i :: 0 <= i < |appId| ==> 0x30 <= appId[i] <= 0x39 }

  lemma IconNamesGame(icon: Text, appId: Text)
    requires AllDigits(appId)
    ensures WithoutExtension(BaseName(icon)) == STEAM_ICON + appId <==> IsGameIcon(icon, appId)
  {
    hide Ascii, WithoutExtension, BaseName, IsLastName;
    var name, stem := BaseName(icon), STEAM_ICON + appId;
    NoDotInStem(appId);
    ExtensionGoes(name, stem);
    BaseNameIsLastName(icon, name);
    forall other | IsLastName(icon, other) ensures other == name { BaseNameIsLastName(icon, other); }
  }

  lemma NoDotInStem(appId: Text)
    requires AllDigits(appId)
    ensures 0x2E !in STEAM_ICON + appId
  {
    hide Ascii;
    var s := "steam_icon_";
    assert forall i :: 0 <= i < |s| ==> s[i] != '.';
  }

  lemma EndsAfterEquals(argument: Text, url: Text)
    ensures EndsWith(argument, [EQUALS] + url) <==>
            exists before: Text :: before != [] && before[|before| - 1] == 0x3D && argument == before + url
  {
    var end := [EQUALS] + url;
    if EndsWith(argument, end) {
      var before := argument[..|argument| - |url|];
      assert argument[|argument| - |end|..][0] == EQUALS && argument[|argument| - |end|..][1..] == url;
      assert argument == before + url;
    }
    if before: Text :| before != [] && before[|before| - 1] == 0x3D && argument == before + url {
      assert argument[|argument| - |end|..] == end;
    }
  }

  lemma ArgumentStartsGame(argument: Text, appId: Text)
    ensures var url := STEAM_URL + appId;
            argument == url || EndsWith(argument, [EQUALS] + url) <==> StartsGame(argument, appId)
  {
    hide Ascii, EndsWith;
    var url := STEAM_URL + appId;
    EndsAfterEquals(argument, url);
    forall before: Text ensures before + Ascii("steam://rungameid/") + appId == before + url {}
    assert [] + url == url;
  }

  lemma SteamAppIsGame(e: Entry, appId: Text)
    requires AllDigits(appId)
    ensures IsSteamApp(e, appId) <==> IsGame(e, appId)
  {
    hide Ascii, WithoutExtension, BaseName, IsGameIcon, StartsGame;
    IconNamesGame(OrEmpty(e.icon), appId);
    NoIconIsNoGame(appId);
    forall i | 0 <= i < |e.command|
      ensures (e.command[i] == STEAM_URL + appId || EndsWith(e.command[i], [EQUALS] + (STEAM_URL + appId))) <==>
              StartsGame(e.command[i], appId)
    {
      ArgumentStartsGame(e.command[i], appId);
    }
  }

  lemma NoIconIsNoGame(appId: Text)
    ensures !IsGameIcon([], appId)
  {}

  lemma IdentityNamesGame(identity: Text, appId: Text)
    ensures SteamAppId(identity) == Some(appId) <==> NamesGame(identity, appId)
    ensures NamesGame(identity, appId) ==> AllDigits(appId)
  {
    hide Ascii;
    EitherCase();
  }

  lemma EitherCase()
    ensures |STEAM_APP| == 10
    ensures forall i, u :: 0 <= i < 10 ==>
              (SameLetter(u, STEAM_APP[i]) <==> u == Ascii("steam_app_")[i] || u == Ascii("STEAM_APP_")[i])
  {
    hide Ascii;
    var a, b := "steam_app_", "STEAM_APP_";
    forall i | 0 <= i < 10
      ensures Ascii(a)[i] == a[i] as int && Ascii(b)[i] == b[i] as int
              && if a[i] == '_' then b[i] == '_' else 'a' <= a[i] <= 'z' && b[i] as int == a[i] as int - 0x20
    {}
  }

  // ---- The questions ----

  /** What a lookup is asked about: all entries, those by id, which are pinned, and the window's identities. */
  datatype Desktop = Desktop(lower: Text -> Text, entries: seq<Entry>, byId: Text -> Option<Entry>,
                             isPinned: Entry -> bool, identities: seq<Text>)

  /** An entry of that id, an entry of that name, the game the window belongs to, an entry that runs that program. */
  datatype Question = Known(identity: Text) | Called(identity: Text) | Game | Running(identity: Text)

  predicate SameName(d: Desktop, name: Option<Text>, identity: Text) {
    NormalizeIdentity(d.lower, name) == NormalizeIdentity(d.lower, Some(identity))
  }

  predicate IsCalled(d: Desktop, e: Entry, identity: Text) {
    exists name :: name in [e.startupClass, e.id] && SameName(d, name, identity)
  }

  ghost predicate IsRunning(d: Desktop, e: Entry, identity: Text) {
    exists name :: IsLastName(if e.command == [] then [] else e.command[0], name) && SameName(d, Some(name), identity)
  }

  ghost predicate IsGameOf(d: Desktop, appId: Text) {
    exists i :: 0 <= i < |d.identities| && NamesGame(d.identities[i], appId)
      && forall j, other :: 0 <= j < i ==> !NamesGame(d.identities[j], other)
  }

  /** An entry that fits, where no other entry does. */
  ghost predicate Only(entries: seq<Entry>, e: Entry, fits: Entry -> bool) {
    exists k: nat :: k < |entries| && entries[k] == e && fits(e)
      && forall j :: 0 <= j < |entries| && j != k ==> !fits(entries[j])
  }

  /** An entry that fits, where none before it does. */
  ghost predicate Foremost(entries: seq<Entry>, e: Entry, fits: Entry -> bool) {
    exists k: nat :: k < |entries| && entries[k] == e && fits(e) && forall j :: 0 <= j < k ==> !fits(entries[j])
  }

  /** A game's entry: its first pinned one, or if none is pinned its only one. */
  ghost predicate IsEntryOfGame(d: Desktop, e: Entry, appId: Text) {
    || Foremost(d.entries, e, x => IsGame(x, appId) && d.isPinned(x))
    || ((forall x :: x in d.entries ==> !(IsGame(x, appId) && d.isPinned(x)))
        && Only(d.entries, e, x => IsGame(x, appId)))
  }

  ghost predicate Answers(d: Desktop, q: Question, e: Entry) {
    match q
    case Known(identity) => d.byId(identity) == Some(e)
    case Called(identity) => Only(d.entries, e, x => IsCalled(d, x, identity))
    case Game => exists appId :: IsGameOf(d, appId) && IsEntryOfGame(d, e, appId)
    case Running(identity) => Only(d.entries, e, x => IsRunning(d, x, identity))
  }

  /** The answer to the first question that has one. */
  ghost predicate IsFirstAnswer(d: Desktop, questions: seq<Question>, answer: Option<Entry>) {
    match answer
    case Some(e) =>
      exists i :: 0 <= i < |questions| && Answers(d, questions[i], e)
        && forall j, x :: 0 <= j < i ==> !Answers(d, questions[j], x)
    case None => forall j, x :: 0 <= j < |questions| ==> !Answers(d, questions[j], x)
  }

  function Ask(identities: seq<Text>, question: Text -> Question): (questions: seq<Question>)
    ensures |questions| == |identities|
    ensures forall i :: 0 <= i < |identities| ==> questions[i] == question(identities[i])
  {
    seq(|identities|, i requires 0 <= i < |identities| => question(identities[i]))
  }

  /** Every kind of question is asked about all identities before the next kind is. */
  function Questions(identities: seq<Text>): seq<Question> {
    Ask(identities, identity => Known(identity)) + Ask(identities, identity => Called(identity)) + [Game]
    + Ask(identities, identity => Running(identity))
  }

  // ---- The lookups answer them ----

  lemma NoQuestions(d: Desktop)
    ensures IsFirstAnswer(d, [], None)
  {}

  lemma OneQuestion(d: Desktop, q: Question, answer: Option<Entry>)
    requires forall e :: Answers(d, q, e) <==> answer == Some(e)
    ensures IsFirstAnswer(d, [q], answer)
  {
    hide Answers;
    if answer.Some? {
      assert [q][0] == q && Answers(d, q, answer.value);
    }
  }

  lemma MoreQuestions(d: Desktop, a: seq<Question>, first: Option<Entry>, b: seq<Question>, second: Option<Entry>)
    requires IsFirstAnswer(d, a, first) && IsFirstAnswer(d, b, second)
    ensures IsFirstAnswer(d, a + b, OrElse(first, second))
  {
    hide Answers;
    var all := a + b;
    if first.Some? {
      var i :| 0 <= i < |a| && Answers(d, a[i], first.value) && forall j, x :: 0 <= j < i ==> !Answers(d, a[j], x);
      assert all[i] == a[i] && forall j :: 0 <= j < i ==> all[j] == a[j];
    } else if second.Some? {
      var i :| 0 <= i < |b| && Answers(d, b[i], second.value) && forall j, x :: 0 <= j < i ==> !Answers(d, b[j], x);
      assert all[|a| + i] == b[i];
      forall j, x | 0 <= j < |a| + i ensures !Answers(d, all[j], x) {
        assert all[j] == if j < |a| then a[j] else b[j - |a|];
      }
    } else {
      forall j, x | 0 <= j < |all| ensures !Answers(d, all[j], x) {
        assert all[j] == if j < |a| then a[j] else b[j - |a|];
      }
    }
  }

  lemma AskFirst(identities: seq<Text>, question: Text -> Question)
    requires identities != []
    ensures Ask(identities, question) == [question(identities[0])] + Ask(identities[1..], question)
  {}

  lemma {:induction false} ByIdAnswers(d: Desktop, identities: seq<Text>)
    ensures IsFirstAnswer(d, Ask(identities, identity => Known(identity)), ById(identities, d.byId))
  {
    var question := identity => Known(identity);
    if identities == [] {
      NoQuestions(d);
    } else {
      ByIdAnswers(d, identities[1..]);
      OneQuestion(d, Known(identities[0]), d.byId(identities[0]));
      MoreQuestions(d, [question(identities[0])], d.byId(identities[0]), Ask(identities[1..], question),
                    ById(identities[1..], d.byId));
      AskFirst(identities, question);
    }
  }

  /** Filtering finds the first entry that fits. */
  lemma {:induction false} FilterFindsForemost(entries: seq<Entry>, keep: Entry -> bool, e: Entry)
    ensures Foremost(entries, e, keep) <==> Filter(entries, keep) != [] && Filter(entries, keep)[0] == e
  {
    hide Foremost;
    if entries == [] {
      NothingFits(e, keep);
    } else {
      FilterFindsForemost(entries[1..], keep, e);
      ForemostStep(entries, e, keep);
    }
  }

  /** And it finds one entry exactly if only that one fits. */
  lemma {:induction false} FilterFindsOnly(entries: seq<Entry>, keep: Entry -> bool, e: Entry)
    ensures Only(entries, e, keep) <==> Filter(entries, keep) == [e]
  {
    hide Only;
    if entries == [] {
      NothingFits(e, keep);
    } else {
      var rest := Filter(entries[1..], keep);
      FilterFindsOnly(entries[1..], keep, e);
      OnlyStep(entries, e, keep);
      assert rest != [] ==> rest[0] in rest;
      assert [entries[0]] + rest == [e] ==> |rest| == 0;
    }
  }

  lemma NothingFits(e: Entry, fits: Entry -> bool)
    ensures !Foremost([], e, fits) && !Only([], e, fits)
  {}

  lemma ForemostStep(entries: seq<Entry>, e: Entry, fits: Entry -> bool)
    requires entries != []
    ensures Foremost(entries, e, fits) <==>
            if fits(entries[0]) then e == entries[0] else Foremost(entries[1..], e, fits)
  {
    var rest := entries[1..];
    if Foremost(entries, e, fits) && !fits(entries[0]) {
      var k: nat :| k < |entries| && entries[k] == e && fits(e) && forall j :: 0 <= j < k ==> !fits(entries[j]);
      assert k > 0 && rest[k - 1] == e && forall j :: 0 <= j < k - 1 ==> rest[j] == entries[j + 1];
    }
    if Foremost(rest, e, fits) && !fits(entries[0]) {
      var k: nat :| k < |rest| && rest[k] == e && fits(e) && forall j :: 0 <= j < k ==> !fits(rest[j]);
      assert entries[k + 1] == e;
      forall j | 0 <= j < k + 1 ensures !fits(entries[j]) {
        assert j == 0 || entries[j] == rest[j - 1];
      }
    }
  }

  lemma OnlyStep(entries: seq<Entry>, e: Entry, fits: Entry -> bool)
    requires entries != []
    ensures Only(entries, e, fits) <==>
            if fits(entries[0]) then e == entries[0] && forall x :: x in entries[1..] ==> !fits(x)
              else Only(entries[1..], e, fits)
  {
    var rest := entries[1..];
    assert forall j :: 0 <= j < |rest| ==> rest[j] == entries[j + 1];
    if Only(entries, e, fits) {
      var k: nat :| k < |entries| && entries[k] == e && fits(e)
        && forall j :: 0 <= j < |entries| && j != k ==> !fits(entries[j]);
      if k > 0 {
        assert rest[k - 1] == e;
      }
    }
    if fits(entries[0]) && e == entries[0] && forall x :: x in rest ==> !fits(x) {
      forall j | 0 <= j < |entries| && j != 0 ensures !fits(entries[j]) {
        assert rest[j - 1] in rest;
      }
    }
    if !fits(entries[0]) && Only(rest, e, fits) {
      var k: nat :| k < |rest| && rest[k] == e && fits(e)
        && forall j :: 0 <= j < |rest| && j != k ==> !fits(rest[j]);
      assert entries[k + 1] == e;
      forall j | 0 <= j < |entries| && j != k + 1 ensures !fits(entries[j]) {
        assert j == 0 || entries[j] == rest[j - 1];
      }
    }
  }

  lemma SameFit(entries: seq<Entry>, e: Entry, f: Entry -> bool, g: Entry -> bool)
    requires forall x :: f(x) <==> g(x)
    ensures Only(entries, e, f) <==> Only(entries, e, g)
    ensures Foremost(entries, e, f) <==> Foremost(entries, e, g)
  {}

  lemma {:induction false} OnlyMatchAnswers(d: Desktop, identities: seq<Text>, question: Text -> Question,
                                            matches: (Entry, Text) -> bool)
    requires forall identity, e ::
               Answers(d, question(identity), e) <==> Only(d.entries, e, x => matches(x, identity))
    ensures IsFirstAnswer(d, Ask(identities, question), OnlyMatch(identities, d.entries, matches))
  {
    hide Answers, Only;
    if identities == [] {
      NoQuestions(d);
    } else {
      var identity := identities[0];
      var found := Filter(d.entries, e => matches(e, identities[0]));
      var answer := if |found| == 1 then Some(found[0]) else None;
      forall e ensures Answers(d, question(identity), e) <==> answer == Some(e) {
        FilterFindsOnly(d.entries, e => matches(e, identities[0]), e);
        SameFit(d.entries, e, x => matches(x, identity), x => matches(x, identities[0]));
        assert |found| == 1 ==> found == [found[0]];
      }
      OneQuestion(d, question(identity), answer);
      OnlyMatchAnswers(d, identities[1..], question, matches);
      MoreQuestions(d, [question(identity)], answer, Ask(identities[1..], question),
                    OnlyMatch(identities[1..], d.entries, matches));
      AskFirst(identities, question);
    }
  }

  lemma CalledMeans(d: Desktop, e: Entry, identity: Text)
    ensures NamesIdentity(d.lower, e, identity) <==> IsCalled(d, e, identity)
  {
    hide NormalizeIdentity;
    assert e.startupClass in [e.startupClass, e.id] && e.id in [e.startupClass, e.id];
  }

  lemma RunningMeans(d: Desktop, e: Entry, identity: Text)
    ensures RunsIdentity(d.lower, e, identity) <==> IsRunning(d, e, identity)
  {
    hide NormalizeIdentity, BaseName, IsLastName;
    var executable := if e.command == [] then [] else e.command[0];
    forall name ensures IsLastName(executable, name) <==> BaseName(executable) == name {
      BaseNameIsLastName(executable, name);
    }
  }

  lemma CalledAnswers(d: Desktop)
    ensures IsFirstAnswer(d, Ask(d.identities, identity => Called(identity)),
                          OnlyMatch(d.identities, d.entries, (e, identity) => NamesIdentity(d.lower, e, identity)))
  {
    hide NamesIdentity, IsCalled, Only, IsFirstAnswer;
    var matches := (e, identity) => NamesIdentity(d.lower, e, identity);
    var question := identity => Called(identity);
    forall identity, e ensures Answers(d, question(identity), e) <==> Only(d.entries, e, x => matches(x, identity)) {
      forall x ensures matches(x, identity) <==> IsCalled(d, x, identity) { CalledMeans(d, x, identity); }
      SameFit(d.entries, e, x => IsCalled(d, x, identity), x => matches(x, identity));
    }
    OnlyMatchAnswers(d, d.identities, question, matches);
  }

  lemma RunningAnswers(d: Desktop)
    ensures IsFirstAnswer(d, Ask(d.identities, identity => Running(identity)),
                          OnlyMatch(d.identities, d.entries, (e, identity) => RunsIdentity(d.lower, e, identity)))
  {
    hide RunsIdentity, IsRunning, Only, IsFirstAnswer;
    var matches := (e, identity) => RunsIdentity(d.lower, e, identity);
    var question := identity => Running(identity);
    forall identity, e ensures Answers(d, question(identity), e) <==> Only(d.entries, e, x => matches(x, identity)) {
      forall x ensures matches(x, identity) <==> IsRunning(d, x, identity) { RunningMeans(d, x, identity); }
      SameFit(d.entries, e, x => IsRunning(d, x, identity), x => matches(x, identity));
    }
    OnlyMatchAnswers(d, d.identities, question, matches);
  }

  lemma {:induction false} FirstGameMeans(identities: seq<Text>, appId: Text)
    ensures FirstSteamAppId(identities) == Some(appId) <==>
            exists i :: 0 <= i < |identities| && NamesGame(identities[i], appId)
              && forall j, other :: 0 <= j < i ==> !NamesGame(identities[j], other)
  {
    hide NamesGame, SteamAppId;
    if identities != [] {
      var rest := identities[1..];
      FirstGameMeans(rest, appId);
      forall other ensures SteamAppId(identities[0]) == Some(other) <==> NamesGame(identities[0], other) {
        IdentityNamesGame(identities[0], other);
      }
      if SteamAppId(identities[0]).Some? {
        assert NamesGame(identities[0], SteamAppId(identities[0]).value);
      } else {
        if i :| 0 <= i < |rest| && NamesGame(rest[i], appId)
                && forall j, other :: 0 <= j < i ==> !NamesGame(rest[j], other)
        {
          assert identities[i + 1] == rest[i];
          forall j, other | 0 <= j < i + 1 ensures !NamesGame(identities[j], other) {
            assert j == 0 || identities[j] == rest[j - 1];
          }
        }
        if i :| 0 <= i < |identities| && NamesGame(identities[i], appId)
                && forall j, other :: 0 <= j < i ==> !NamesGame(identities[j], other)
        {
          assert i > 0 && rest[i - 1] == identities[i] && forall j :: 0 <= j < i - 1 ==> rest[j] == identities[j + 1];
        }
      }
    }
  }

  /** The games' filter, first of all entries and then of what it found. */
  lemma {:induction false} FilterTwice(entries: seq<Entry>, f: Entry -> bool, g: Entry -> bool)
    ensures Filter(Filter(entries, f), g) == Filter(entries, e => f(e) && g(e))
  {
    if entries == [] {
    } else {
      var rest := Filter(entries[1..], f);
      FilterTwice(entries[1..], f, g);
      if f(entries[0]) {
        assert ([entries[0]] + rest)[1..] == rest;
      } else {
        assert [] + rest == rest;
      }
    }
  }

  lemma GamesFound(d: Desktop, appId: Text)
    requires AllDigits(appId)
    ensures var found := Filter(d.entries, e => IsSteamApp(e, appId));
            && found == Filter(d.entries, x => IsGame(x, appId))
            && Filter(found, d.isPinned) == Filter(d.entries, x => IsGame(x, appId) && d.isPinned(x))
  {
    hide IsSteamApp, IsGame;
    var isGame: Entry -> bool := x => IsGame(x, appId);
    forall x ensures IsSteamApp(x, appId) <==> isGame(x) { SteamAppIsGame(x, appId); }
    SameFilter(d.entries, e => IsSteamApp(e, appId), isGame);
    SameFilter(d.entries, isGame, x => IsGame(x, appId));
    FilterTwice(d.entries, isGame, d.isPinned);
    SameFilter(d.entries, e => isGame(e) && d.isPinned(e), x => IsGame(x, appId) && d.isPinned(x));
  }

  lemma EntryOfGameMeans(d: Desktop, appId: Text, e: Entry)
    requires AllDigits(appId)
    ensures SteamMatch(appId, d.entries, d.isPinned) == Some(e) <==> IsEntryOfGame(d, e, appId)
  {
    hide IsSteamApp, IsGame, Only, Foremost;
    GamesFound(d, appId);
    FilterFindsForemost(d.entries, x => IsGame(x, appId) && d.isPinned(x), e);
    FilterFindsOnly(d.entries, x => IsGame(x, appId), e);
    var pinned := Filter(d.entries, x => IsGame(x, appId) && d.isPinned(x));
    assert pinned != [] ==> pinned[0] in pinned;
    var games := Filter(d.entries, x => IsGame(x, appId));
    assert |games| == 1 ==> games == [games[0]];
  }

  lemma GameAnswers(d: Desktop)
    ensures var appId := FirstSteamAppId(d.identities);
            IsFirstAnswer(d, [Game], if appId.Some? then SteamMatch(appId.value, d.entries, d.isPinned) else None)
  {
    hide FirstSteamAppId, SteamMatch, IsEntryOfGame, NamesGame, IsFirstAnswer;
    var appId := FirstSteamAppId(d.identities);
    var answer := if appId.Some? then SteamMatch(appId.value, d.entries, d.isPinned) else None;
    forall id ensures appId == Some(id) <==> IsGameOf(d, id) { FirstGameMeans(d.identities, id); }
    if appId.Some? {
      var i :| 0 <= i < |d.identities| && NamesGame(d.identities[i], appId.value);
      IdentityNamesGame(d.identities[i], appId.value);
      forall e ensures answer == Some(e) <==> IsEntryOfGame(d, e, appId.value) { EntryOfGameMeans(d, appId.value, e); }
    }
    forall e ensures Answers(d, Game, e) <==> answer == Some(e) {}
    OneQuestion(d, Game, answer);
  }

  /**
   * The entry of a window is the answer to the first question that has one: the entry of that id for one identity
   * after the other, the only entry of that name, the first pinned or only entry of its game, the only entry that
   * runs that program. There is no entry exactly if no question has an answer.
   */
  lemma FirstAnswerIsReturned(lower: Text -> Text, window: Window, entries: seq<Entry>, byId: Text -> Option<Entry>,
                              isPinned: Entry -> bool)
    ensures var d := Desktop(lower, entries, byId, isPinned, Identities(window));
            IsFirstAnswer(d, Questions(d.identities), DesktopEntryForWindow(lower, window, entries, byId, isPinned))
  {
    hide IsFirstAnswer, Identities, ById, OnlyMatch, SteamMatch, FirstSteamAppId, NamesIdentity, RunsIdentity, Ask;
    var ids := Identities(window);
    var d := Desktop(lower, entries, byId, isPinned, ids);
    var appId := FirstSteamAppId(ids);
    var known, called := Ask(ids, identity => Known(identity)), Ask(ids, identity => Called(identity));
    var running := Ask(ids, identity => Running(identity));
    var a, b := ById(ids, byId), OnlyMatch(ids, entries, (e, identity) => NamesIdentity(lower, e, identity));
    var c := if appId.Some? then SteamMatch(appId.value, entries, isPinned) else None;
    var r := OnlyMatch(ids, entries, (e, identity) => RunsIdentity(lower, e, identity));
    ByIdAnswers(d, ids);
    CalledAnswers(d);
    GameAnswers(d);
    RunningAnswers(d);
    MoreQuestions(d, [Game], c, running, r);
    MoreQuestions(d, called, b, [Game] + running, OrElse(c, r));
    MoreQuestions(d, known, a, called + ([Game] + running), OrElse(b, OrElse(c, r)));
    assert known + (called + ([Game] + running)) == Questions(ids);
  }

  /** The window's initial class is asked about before its class, and blank ones are not asked about. */
  lemma InitialClassComesFirst(window: Window)
    ensures var a := Trim(if window.initialClass.Some? then window.initialClass.value else []);
            var b := Trim(if window.class_.Some? then window.class_.value else []);
            && (a != [] && b != [] ==> Identities(window) == [a, b])
            && (a != [] && b == [] ==> Identities(window) == [a]) && (a == [] && b != [] ==> Identities(window) == [b])
            && (a == [] && b == [] ==> Identities(window) == [])
  {
    hide Trim;
  }
}
