/** The desktop entry of a window: four lookups, each of which falls through to the next. */
module DesktopEntries {
  import opened Wrappers
  import opened Unicode
  import opened WhiteSpace
  import opened Splitting

  /** An entry object; its identity tells it from another object with the same properties. */
  datatype Entry =
    Entry(identity: nat, startupClass: Option<Text>, id: Option<Text>, icon: Option<Text>, command: seq<Text>)

  datatype Window = Window(initialClass: Option<Text>, class_: Option<Text>)

  const SLASH: CodeUnit := 0x2F
  const DOT: CodeUnit := 0x2E
  const EQUALS: CodeUnit := 0x3D

  function OrEmpty(value: Option<Text>): Text { if value.Some? then value.value else [] }

  predicate EndsWith(s: Text, suffix: Text) { |suffix| <= |s| && s[|s| - |suffix|..] == suffix }

  function WithoutSuffix(s: Text, suffix: Text): Text { if EndsWith(s, suffix) then s[..|s| - |suffix|] else s }

  const DESKTOP := Ascii(".desktop")
  const APPIMAGE := Ascii(".appimage")

  function NormalizeIdentity(lower: Text -> Text, value: Option<Text>): Text {
    WithoutSuffix(WithoutSuffix(lower(OrEmpty(value)), DESKTOP), APPIMAGE)
  }

  function Identities(window: Window): seq<Text> {
    var a, b := Trim(OrEmpty(window.initialClass)), Trim(OrEmpty(window.class_));
    (if a == [] then [] else [a]) + if b == [] then [] else [b]
  }

  /** The part after the last slash. */
  function BaseName(path: Text): Text {
    var pieces := SplitOn(path, SLASH);
    pieces[|pieces| - 1]
  }

  /** `replace(/[.][^.]+$/, "")`: without a last, non-empty extension. */
  function WithoutExtension(name: Text): Text {
    var pieces := SplitOn(name, DOT);
    var last := pieces[|pieces| - 1];
    if |pieces| == 1 || last == [] then name else Join(pieces[..|pieces| - 1], DOT)
  }

  predicate SameLetter(u: CodeUnit, lowerCase: CodeUnit) {
    u == lowerCase || (0x61 <= lowerCase <= 0x7A && u == lowerCase - 0x20)
  }

  const STEAM_APP := Ascii("steam_app_")
  const STEAM_URL := Ascii("steam://rungameid/")
  const STEAM_ICON := Ascii("steam_icon_")

  /** The digits of `/^steam_app_([0-9]+)$/i`. */
  function SteamAppId(identity: Text): Option<Text> {
    var n := |STEAM_APP|;
    if |identity| > n && (forall i :: 0 <= i < n ==> SameLetter(identity[i], STEAM_APP[i]))
       && (forall i :: n <= i < |identity| ==> 0x30 <= identity[i] <= 0x39)
    then Some(identity[n..]) else None
  }

  function FirstSteamAppId(identities: seq<Text>): Option<Text> {
    if identities == [] then None
    else if SteamAppId(identities[0]).Some? then SteamAppId(identities[0])
    else FirstSteamAppId(identities[1..])
  }

  function Filter(s: seq<Entry>, keep: Entry -> bool): (kept: seq<Entry>)
    ensures forall x :: x in kept <==> x in s && keep(x)
  {
    if s == [] then [] else (if keep(s[0]) then [s[0]] else []) + Filter(s[1..], keep)
  }

  predicate NamesIdentity(lower: Text -> Text, candidate: Entry, identity: Text) {
    var normalized := NormalizeIdentity(lower, Some(identity));
    NormalizeIdentity(lower, candidate.startupClass) == normalized
      || NormalizeIdentity(lower, candidate.id) == normalized
  }

  predicate RunsIdentity(lower: Text -> Text, candidate: Entry, identity: Text) {
    var executable := if candidate.command == [] then [] else candidate.command[0];
    NormalizeIdentity(lower, Some(BaseName(executable))) == NormalizeIdentity(lower, Some(identity))
  }

  predicate IsSteamApp(candidate: Entry, appId: Text) {
    var url := STEAM_URL + appId;
    || WithoutExtension(BaseName(OrEmpty(candidate.icon))) == STEAM_ICON + appId
    || exists i :: 0 <= i < |candidate.command|
         && (candidate.command[i] == url || EndsWith(candidate.command[i], [EQUALS] + url))
  }

  /** The only match of the first identity that has exactly one. */
  function OnlyMatch(identities: seq<Text>, entries: seq<Entry>, matches: (Entry, Text) -> bool): Option<Entry> {
    if identities == [] then None
    else
      var found := Filter(entries, e => matches(e, identities[0]));
      if |found| == 1 then Some(found[0]) else OnlyMatch(identities[1..], entries, matches)
  }

  function ById(identities: seq<Text>, byId: Text -> Option<Entry>): Option<Entry> {
    if identities == [] then None
    else if byId(identities[0]).Some? then byId(identities[0])
    else ById(identities[1..], byId)
  }

  /** The first pinned Steam match, or else the only Steam match. */
  function SteamMatch(appId: Text, entries: seq<Entry>, isPinned: Entry -> bool): Option<Entry> {
    var found := Filter(entries, e => IsSteamApp(e, appId));
    var pinned := Filter(found, isPinned);
    if pinned != [] then Some(pinned[0]) else if |found| == 1 then Some(found[0]) else None
  }

  function OrElse(first: Option<Entry>, second: Option<Entry>): Option<Entry> { if first.Some? then first else second }

  function DesktopEntryForWindow(lower: Text -> Text, window: Window, entries: seq<Entry>,
                                 byId: Text -> Option<Entry>, isPinned: Entry -> bool): Option<Entry> {
    var identities := Identities(window);
    var appId := FirstSteamAppId(identities);
    OrElse(ById(identities, byId),
           OrElse(OnlyMatch(identities, entries, (e, identity) => NamesIdentity(lower, e, identity)),
                  OrElse(if appId.Some? then SteamMatch(appId.value, entries, isPinned) else None,
                         OnlyMatch(identities, entries, (e, identity) => RunsIdentity(lower, e, identity)))))
  }

  // ---- When the order of the entries does not matter ----

  lemma {:induction false} FilterCounts(s: seq<Entry>, keep: Entry -> bool, x: Entry)
    ensures multiset(Filter(s, keep))[x] == if keep(x) then multiset(s)[x] else 0
  {
    if s == [] {
    } else {
      assert s == [s[0]] + s[1..];
      FilterCounts(s[1..], keep, x);
    }
  }

  lemma FilterOfPermutation(a: seq<Entry>, b: seq<Entry>, keep: Entry -> bool)
    requires multiset(a) == multiset(b)
    ensures multiset(Filter(a, keep)) == multiset(Filter(b, keep))
    ensures |Filter(a, keep)| == |Filter(b, keep)|
    ensures |Filter(a, keep)| == 1 ==> Filter(a, keep) == Filter(b, keep)
  {
    hide Filter;
    forall x ensures multiset(Filter(a, keep))[x] == multiset(Filter(b, keep))[x] {
      FilterCounts(a, keep, x);
      FilterCounts(b, keep, x);
    }
    SameElements(Filter(a, keep), Filter(b, keep));
  }

  /** Permutations have the same length, and a single element has only itself. */
  lemma SameElements<T>(f: seq<T>, g: seq<T>)
    requires multiset(f) == multiset(g)
    ensures |f| == |g| && (|f| == 1 ==> f == g)
  {
    assert |f| == |multiset(f)| == |multiset(g)| == |g|;
    if |f| == 1 {
      assert f[0] in multiset(g);
    }
  }

  lemma {:induction false} OnlyMatchOfPermutation(identities: seq<Text>, a: seq<Entry>, b: seq<Entry>,
                                                  matches: (Entry, Text) -> bool)
    requires multiset(a) == multiset(b)
    ensures OnlyMatch(identities, a, matches) == OnlyMatch(identities, b, matches)
  {
    if identities == [] {
    } else {
      FilterOfPermutation(a, b, e => matches(e, identities[0]));
      OnlyMatchOfPermutation(identities[1..], a, b, matches);
    }
  }

  /** Two different pinned Steam matches among the entries. */
  ghost predicate PinnedTwice(appId: Text, entries: seq<Entry>, isPinned: Entry -> bool) {
    exists x, y :: x in entries && y in entries && x != y && IsSteamApp(x, appId) && IsSteamApp(y, appId)
      && isPinned(x) && isPinned(y)
  }

  lemma SteamMatchOfPermutation(appId: Text, a: seq<Entry>, b: seq<Entry>, isPinned: Entry -> bool)
    requires multiset(a) == multiset(b) && !PinnedTwice(appId, a, isPinned)
    ensures SteamMatch(appId, a, isPinned) == SteamMatch(appId, b, isPinned)
  {
    hide IsSteamApp;
    var f, g := Filter(a, e => IsSteamApp(e, appId)), Filter(b, e => IsSteamApp(e, appId));
    FilterOfPermutation(a, b, e => IsSteamApp(e, appId));
    FilterOfPermutation(f, g, isPinned);
    var p, q := Filter(f, isPinned), Filter(g, isPinned);
    if p != [] {
      assert p[0] in p && q[0] in q;
      assert q[0] in multiset(q) && q[0] in p;
    }
  }

  function ToFront(entries: seq<Entry>, i: nat): seq<Entry>
    requires i < |entries|
  {
    [entries[i]] + entries[..i] + entries[i + 1..]
  }

  lemma ToFrontPermutes(entries: seq<Entry>, i: nat)
    requires i < |entries|
    ensures multiset(ToFront(entries, i)) == multiset(entries)
  {
    assert entries == entries[..i] + [entries[i]] + entries[i + 1..];
  }

  /** A pinned Steam match at the front is the one that is found. */
  lemma FrontIsFound(appId: Text, entries: seq<Entry>, isPinned: Entry -> bool)
    requires entries != [] && IsSteamApp(entries[0], appId) && isPinned(entries[0])
    ensures SteamMatch(appId, entries, isPinned) == Some(entries[0])
  {
    hide IsSteamApp;
    var found := Filter(entries, e => IsSteamApp(e, appId));
    assert found[0] == entries[0];
    assert Filter(found, isPinned)[0] == entries[0];
  }

  ghost predicate OrderIndependent(lower: Text -> Text, window: Window, entries: seq<Entry>,
                                   byId: Text -> Option<Entry>, isPinned: Entry -> bool) {
    forall other :: multiset(other) == multiset(entries) ==>
      DesktopEntryForWindow(lower, window, other, byId, isPinned) ==
        DesktopEntryForWindow(lower, window, entries, byId, isPinned)
  }

  /** The lookup that depends on the order is reached: no entry by id or by name, and two pinned Steam matches. */
  ghost predicate ReachesPinnedTwice(lower: Text -> Text, window: Window, entries: seq<Entry>,
                                     byId: Text -> Option<Entry>, isPinned: Entry -> bool) {
    var identities := Identities(window);
    && ById(identities, byId).None?
    && OnlyMatch(identities, entries, (e, identity) => NamesIdentity(lower, e, identity)).None?
    && FirstSteamAppId(identities).Some?
    && PinnedTwice(FirstSteamAppId(identities).value, entries, isPinned)
  }

  lemma SameResult(lower: Text -> Text, window: Window, a: seq<Entry>, b: seq<Entry>, byId: Text -> Option<Entry>,
                   isPinned: Entry -> bool)
    requires multiset(a) == multiset(b) && !ReachesPinnedTwice(lower, window, a, byId, isPinned)
    ensures DesktopEntryForWindow(lower, window, a, byId, isPinned) ==
            DesktopEntryForWindow(lower, window, b, byId, isPinned)
  {
    hide Identities, SteamMatch, NamesIdentity, RunsIdentity, PinnedTwice;
    var identities := Identities(window);
    OnlyMatchOfPermutation(identities, a, b, (e, identity) => NamesIdentity(lower, e, identity));
    OnlyMatchOfPermutation(identities, a, b, (e, identity) => RunsIdentity(lower, e, identity));
    var appId := FirstSteamAppId(identities);
    if appId.Some? && !PinnedTwice(appId.value, a, isPinned) {
      SteamMatchOfPermutation(appId.value, a, b, isPinned);
    }
  }

  /** Moving a pinned Steam match to the front makes it the result, once the earlier lookups find nothing. */
  lemma FrontDecides(lower: Text -> Text, window: Window, entries: seq<Entry>, byId: Text -> Option<Entry>,
                     isPinned: Entry -> bool, i: nat)
    requires ReachesPinnedTwice(lower, window, entries, byId, isPinned) && i < |entries|
    requires IsSteamApp(entries[i], FirstSteamAppId(Identities(window)).value) && isPinned(entries[i])
    ensures DesktopEntryForWindow(lower, window, ToFront(entries, i), byId, isPinned) == Some(entries[i])
  {
    hide Identities, SteamMatch, NamesIdentity, RunsIdentity, PinnedTwice, IsSteamApp;
    var identities, front := Identities(window), ToFront(entries, i);
    ToFrontPermutes(entries, i);
    OnlyMatchOfPermutation(identities, entries, front, (e, identity) => NamesIdentity(lower, e, identity));
    FrontIsFound(FirstSteamAppId(identities).value, front, isPinned);
  }

  /**
   * The result is the same for every order of the entries unless two pinned Steam matches are reached, and
   * only then not.
   */
  lemma OrderIndependentExactly(lower: Text -> Text, window: Window, entries: seq<Entry>, byId: Text -> Option<Entry>,
                                isPinned: Entry -> bool)
    ensures OrderIndependent(lower, window, entries, byId, isPinned) <==>
            !ReachesPinnedTwice(lower, window, entries, byId, isPinned)
  {
    if ReachesPinnedTwice(lower, window, entries, byId, isPinned) {
      TwoPinnedDiffer(lower, window, entries, byId, isPinned);
    } else {
      hide DesktopEntryForWindow;
      forall other | multiset(other) == multiset(entries)
        ensures DesktopEntryForWindow(lower, window, other, byId, isPinned) ==
                DesktopEntryForWindow(lower, window, entries, byId, isPinned)
      {
        hide ReachesPinnedTwice;
        SameResult(lower, window, entries, other, byId, isPinned);
      }
    }
  }

  lemma TwoPinnedDiffer(lower: Text -> Text, window: Window, entries: seq<Entry>, byId: Text -> Option<Entry>,
                        isPinned: Entry -> bool)
    requires ReachesPinnedTwice(lower, window, entries, byId, isPinned)
    ensures !OrderIndependent(lower, window, entries, byId, isPinned)
  {
    hide Identities, FirstSteamAppId, IsSteamApp, DesktopEntryForWindow;
    var appId := FirstSteamAppId(Identities(window)).value;
    var x, y :| x in entries && y in entries && x != y && IsSteamApp(x, appId) && IsSteamApp(y, appId) && isPinned(x)
      && isPinned(y);
    var i :| 0 <= i < |entries| && entries[i] == x;
    var j :| 0 <= j < |entries| && entries[j] == y;
    FrontDecides(lower, window, entries, byId, isPinned, i);
    FrontDecides(lower, window, entries, byId, isPinned, j);
    ToFrontPermutes(entries, i);
    ToFrontPermutes(entries, j);
  }

  const STEAM_WINDOW := Window(Some(STEAM_APP + [0x31]), None)

  /** Two shortcuts of Steam game 1 that look alike. */
  const TWINS: seq<Entry> := [
    Entry(0, None, None, None, [STEAM_URL + [0x31]]),
    Entry(1, None, None, None, [STEAM_URL + [0x31]])]

  lemma SteamWindowHasAppId()
    ensures Identities(STEAM_WINDOW) == [STEAM_APP + [0x31]]
            && FirstSteamAppId(Identities(STEAM_WINDOW)) == Some([0x31])
  {
    hide Ascii, Trim, WithoutExtension, Filter;
    var name := "steam_app_";
    assert forall i :: 0 <= i < |name| ==> 0x5F <= name[i] as int <= 0x7A;
    var identity := STEAM_APP + [0x31];
    TrimsToItself(identity);
    TrimsToItself([]);
    assert identity[|STEAM_APP|..] == [0x31];
  }

  lemma PairFilter(x: Entry, y: Entry, keep: Entry -> bool)
    requires keep(x) == keep(y)
    ensures |Filter([x, y], keep)| != 1
  {
    assert [x, y][1..] == [y] && [y][1..] == [];
    assert Filter([y], keep) == (if keep(y) then [y] else []) + Filter([], keep);
    assert Filter([x, y], keep) == (if keep(x) then [x] else []) + Filter([y], keep);
  }

  lemma TwinsMatchAlike(lower: Text -> Text, identity: Text, x: Entry, y: Entry)
    requires x.startupClass == y.startupClass && x.id == y.id
    ensures OnlyMatch([identity], [x, y], (e, i) => NamesIdentity(lower, e, i)).None?
  {
    hide NormalizeIdentity;
    assert NamesIdentity(lower, x, identity) == NamesIdentity(lower, y, identity);
    hide NamesIdentity;
    PairFilter(x, y, e => NamesIdentity(lower, e, identity));
    var matches := (e, i) => NamesIdentity(lower, e, i);
    assert OnlyMatch([identity][1..], [x, y], matches).None?;
    SameFilter([x, y], e => NamesIdentity(lower, e, identity), e => matches(e, identity));
  }

  lemma {:induction false} SameFilter(s: seq<Entry>, f: Entry -> bool, g: Entry -> bool)
    requires forall e :: e in s ==> f(e) == g(e)
    ensures Filter(s, f) == Filter(s, g)
  {
    if s == [] {
    } else {
      SameFilter(s[1..], f, g);
    }
  }

  lemma TwinsAreSteam()
    ensures TWINS[0] != TWINS[1] && IsSteamApp(TWINS[0], [0x31]) && IsSteamApp(TWINS[1], [0x31])
  {
    hide Ascii, WithoutExtension, BaseName;
    var url := STEAM_URL + [0x31];
    assert TWINS[0].command[0] == url && TWINS[1].command[0] == url;
  }

  /** A concrete dependence on the order: with both twins pinned and nothing found earlier, either may be returned. */
  lemma TwinsDependOnOrder(lower: Text -> Text, byId: Text -> Option<Entry>, isPinned: Entry -> bool)
    requires byId(STEAM_APP + [0x31]).None? && isPinned(TWINS[0]) && isPinned(TWINS[1])
    ensures !OrderIndependent(lower, STEAM_WINDOW, TWINS, byId, isPinned)
  {
    hide Ascii, OnlyMatch, NamesIdentity, IsSteamApp, OrderIndependent, Identities, FirstSteamAppId;
    SteamWindowHasAppId();
    var identity := STEAM_APP + [0x31];
    assert ById([identity][1..], byId).None?;
    TwinsMatchAlike(lower, identity, TWINS[0], TWINS[1]);
    assert TWINS == [TWINS[0], TWINS[1]];
    TwinsAreSteam();
    assert TWINS[0] in TWINS && TWINS[1] in TWINS;
    assert PinnedTwice([0x31], TWINS, isPinned);
    TwoPinnedDiffer(lower, STEAM_WINDOW, TWINS, byId, isPinned);
  }
}
