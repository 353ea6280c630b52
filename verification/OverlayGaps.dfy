/** Inputs on which the overlay policy does not do what its documentation says. */
module OverlayGaps {
  import opened SurfaceRegistry
  import opened OverlayModel
  import opened OverlayEffects
  import opened OverlayRuns
  import ShellInspect
  import ShellConflicts
  import RetainedRuns

  lemma SomeSurfaces()
    ensures IsExclusive(Calendar) && IsExclusive(Clipboard) && IsExclusive(Launcher) && IsPreviewable(Launcher)
    ensures IsRetained(Calendar) && IsSettable(Calendar) && Calendar != Clipboard
  {}

  ghost predicate AllTyped<S>(w: World<S>) { forall s :: s in w ==> w[s].causes.Some? }

  /** A first exclusive opening on a fresh seat opens that surface, explicitly, and nothing else. */
  lemma FirstOpening<S>(w: World<S>, states: seq<Handle<S>>, target: Handle<S>, flag: Flag)
    requires Fresh(w) && Addresses(w, target) && IsExclusive(flag)
    ensures AllClosed(w) && OpeningSafe(w, states, target, flag)
    ensures var one := Opened(w, states, target, flag).world;
            && one.Keys == w.Keys && Invariant(one) && AllTyped(one)
            && forall s, f :: s in w ==>
                 && (ExclusiveOpen(one[s], f) <==> s == target.screen && f == flag)
                 && (ExplicitOpen(one[s], f) <==> s == target.screen && f == flag)
  {
    hide Find, IsExclusive, Opened, Invariant, ScreensOf, OpeningSafe, Screen.IsOpen, Screen.Writable, Screen.OpenCause;
    RegisteredSeatIsClosed(w);
    RunsKeepInvariant(w, []);
    NothingIsSafe(w, states, target, flag);
    OpeningKeepsInvariantExactly(w, states, target, flag);
    OpeningKeepsTyped(w, states, target, flag);
    ResetIsWritable(flag);
    forall s, f | s in w
      ensures var one := Opened(w, states, target, flag).world;
              && (ExclusiveOpen(one[s], f) <==> s == target.screen && f == flag)
              && (ExplicitOpen(one[s], f) <==> s == target.screen && f == flag)
    {
      ResetShowsNothing(f);
      ResetShowsNothing(flag);
      OpensAloneAt(w, states, target, flag, s, f);
    }
  }

  lemma ResetIsWritable(flag: Flag)
    requires IsExclusive(flag)
    ensures RESET.Writable(flag)
  {
    forall f ensures IsKnown(f) ==> f in RESET.flags {
      ResetShowsNothing(f);
    }
    ExclusiveIsSettable(flag);
    DeclaredIsWritable(RESET, flag);
  }

  lemma NothingIsSafe<S>(w: World<S>, states: seq<Handle<S>>, target: Handle<S>, flag: Flag)
    requires AllClosed(w)
    ensures OpeningSafe(w, states, target, flag)
  {
    hide Find, ScreensOf, Screen.IsOpen, Screen.Writable;
  }

  lemma OpeningKeepsTyped<S>(w: World<S>, states: seq<Handle<S>>, target: Handle<S>, flag: Flag)
    requires Fresh(w) && Addresses(w, target) && IsExclusive(flag)
    ensures var one := Opened(w, states, target, flag).world; one.Keys == w.Keys && AllTyped(one)
  {
    hide Find, IsExclusive, Opened, OpenedScreen, ScreensOf;
    ExclusiveIsSettable(flag);
    OpenedScreenIs(w, states, target, flag, target.screen);
    forall s | s in w ensures Opened(w, states, target, flag).world[s].causes.Some? {
      OpenedScreenIs(w, states, target, flag, s);
      OpenedScreenIsTyped(w[s], flag, s in ScreensOf(states), IsTarget(s, target), target.Legacy?);
    }
  }

  lemma OpenedScreenIsTyped(s: Screen, flag: Flag, listed: bool, isTarget: bool, legacy: bool)
    requires s.causes.Some?
    ensures OpenedScreen(s, flag, listed, isTarget, legacy).causes.Some?
  {
    hide Find, IsExclusive, Gone, Screen.Writable;
  }

  lemma TypedIsWritable<S>(w: World<S>, s: S, flag: Flag)
    requires Invariant(w) && AllTyped(w) && s in w && IsExclusive(flag)
    ensures w[s].Writable(flag)
  {
    hide Find, IsExclusive, Screen.Writable;
    InvariantIsComplete(w);
    ExclusiveIsSettable(flag);
    DeclaredIsWritable(w[s], flag);
  }

  /** A preview of a surface on a screen that shows nothing exclusive is accepted. */
  lemma PreviewAccepted<S>(w: World<S>, states: seq<Handle<S>>, target: Handle<S>, flag: Flag, pointer: Pointer)
    requires Addresses(w, target) && target in states && IsPreviewable(flag) && (pointer == Hover || pointer == Drag)
    requires forall f :: !ExclusiveOpen(w[target.screen], f)
    ensures !PreviewRefused(w, states, target, flag, pointer)
  {
    hide Find, Exclusive, Screen.IsOpen;
    PreviewableIsExclusive(flag);
    GroupsFollowTheTable();
    assert !ExclusiveOpen(w[target.screen], flag);
    forall f | f in Exclusive() ensures !w[target.screen].IsOpen(f) {
      assert !ExclusiveOpen(w[target.screen], f);
    }
  }

  // ---- Handles ----

  /**
   * Through typed handles a preview cannot record its cause, so it opens as explicit: on a fresh seat,
   * Calendar on one screen and a Launcher hover on another leave two explicit surfaces open.
   */
  lemma TypedPreviewBreaksTheSeat<S>(w: World<S>, states: seq<Handle<S>>, a: S, b: S)
    requires Fresh(w) && Covers(w, states) && a in w && b in w && a != b && Typed(b) in states
    ensures var calendar := Opened(w, states, Typed(a), Calendar).world;
            && AllClosed(w) && Invariant(calendar)
            && PreviewOpened(calendar, states, Typed(b), Launcher, Hover).result
            && !Invariant(PreviewOpened(calendar, states, Typed(b), Launcher, Hover).world)
  {
    hide *;
    SomeSurfaces();
    FreshAddresses(w, a, b);
    FirstOpening(w, states, Typed(a), Calendar);
    TypedHoverBreaks(Opened(w, states, Typed(a), Calendar).world, states, a, b);
  }

  lemma TypedHoverBreaks<S>(w: World<S>, states: seq<Handle<S>>, a: S, b: S)
    requires Invariant(w) && AllTyped(w) && a in w && b in w && Typed(b) in states
    requires ExplicitOpen(w[a], Calendar) && forall f :: !ExclusiveOpen(w[b], f)
    ensures PreviewOpened(w, states, Typed(b), Launcher, Hover).result
    ensures !Invariant(PreviewOpened(w, states, Typed(b), Launcher, Hover).world)
  {
    hide *;
    SomeSurfaces();
    FreshAddresses(w, a, b);
    TypedIsWritable(w, b, Launcher);
    PreviewAccepted(w, states, Typed(b), Launcher, Hover);
    PreviewKeepsInvariantExactly(w, states, Typed(b), Launcher, Hover);
    TypedPreviewIsUnsafe(w, states, b, Launcher, Hover);
  }

  lemma FreshAddresses<S>(w: World<S>, a: S, b: S)
    requires a in w && b in w
    ensures Addresses(w, Typed(a)) && Addresses(w, Typed(b)) && Addresses(w, Legacy(a)) && Addresses(w, Legacy(b))
  {}

  lemma TypedPreviewIsUnsafe<S>(w: World<S>, states: seq<Handle<S>>, b: S, flag: Flag, pointer: Pointer)
    requires b in w && !PreviewRefused(w, states, Typed(b), flag, pointer) && w[b].Writable(flag)
    requires exists s, f :: s in w && ExplicitOpen(w[s], f)
    ensures !PreviewSafe(w, states, Typed(b), flag, pointer)
    ensures PreviewOpened(w, states, Typed(b), flag, pointer).result
  {
    hide PreviewRefused, ExplicitOpen, Screen.Writable, Screen.WithFlag;
  }

  /** Opening a legacy preview through its typed handle answers true and leaves it a preview. */
  lemma TypedOpeningStaysPreview<S>(w: World<S>, states: seq<Handle<S>>, a: S)
    requires Fresh(w) && a in w && Legacy(a) in states
    ensures var hovered := PreviewOpened(w, states, Legacy(a), Launcher, Hover).world;
            var outcome := Opened(hovered, states, Typed(a), Launcher);
            && hovered.Keys == w.Keys && Invariant(hovered)
            && outcome.result && a in outcome.world
            && outcome.world[a].IsOpen(Launcher) && outcome.world[a].IsPreview(Launcher)
  {
    hide *;
    SomeSurfaces();
    FirstHover(w, states, a);
    var hovered := PreviewOpened(w, states, Legacy(a), Launcher, Hover).world;
    FreshAddresses(hovered, a, a);
    InvariantIsComplete(hovered);
    TypedIsWritable(hovered, a, Launcher);
    ExclusiveOpening(hovered, states, Typed(a), Launcher);
  }

  /** A first hover on a fresh seat opens a preview. */
  lemma FirstHover<S>(w: World<S>, states: seq<Handle<S>>, a: S)
    requires Fresh(w) && a in w && Legacy(a) in states
    ensures AllClosed(w) && PreviewSafe(w, states, Legacy(a), Launcher, Hover)
    ensures var hovered := PreviewOpened(w, states, Legacy(a), Launcher, Hover).world;
            hovered.Keys == w.Keys && Invariant(hovered) && AllTyped(hovered) && hovered[a].IsPreview(Launcher)
  {
    hide IsPreviewable, Exclusive, Previewable, PreviewRefused, PreviewOpened, Find, IsExclusive, IsRetained;
    hide Screen.IsOpen, Screen.Writable, Screen.OpenCause;
    SomeSurfaces();
    RegisteredSeatIsClosed(w);
    RunsKeepInvariant(w, []);
    PreviewAccepted(w, states, Legacy(a), Launcher, Hover);
    RecordedPreviewKeepsInvariant(w, states, Legacy(a), Launcher, Hover);
    InvariantIsComplete(w);
    PreviewOpenedAt(w, states, Legacy(a), Launcher, Hover, a, Launcher);
    HoverKeepsTyped(w, states, a);
  }

  lemma HoverKeepsTyped<S>(w: World<S>, states: seq<Handle<S>>, a: S)
    requires AllTyped(w) && a in w
    ensures AllTyped(PreviewOpened(w, states, Legacy(a), Launcher, Hover).world)
  {
    hide Find, PreviewRefused, Screen.Writable;
  }

  /** What the search for previews elsewhere sees: those on other screens that are listed by a legacy handle. */
  lemma SeesLegacyPreviewsOnly<S>(w: World<S>, states: seq<Handle<S>>, target: Handle<S>)
    requires Tidy(w)
    ensures PreviewElsewhere(w, states, target) <==>
            exists s, f :: Legacy(s) in states && s in w && !IsTarget(s, target) && w[s].IsPreview(f)
  {
    hide Find, Previewable, Screen.IsPreview;
    if exists s, f :: Legacy(s) in states && s in w && !IsTarget(s, target) && w[s].IsPreview(f) {
      var s, f :| Legacy(s) in states && s in w && !IsTarget(s, target) && w[s].IsPreview(f);
      PreviewIsOpen(w, s, f);
      GroupMembership(f);
      assert SeesPreview(w, Legacy(s), f);
    }
  }

  /** A preview on another screen is missed when that screen is listed by its typed handle. */
  lemma TypedListingHidesPreview<S>(w: World<S>, a: S, b: S)
    requires Fresh(w) && a in w && b in w && a != b
    ensures var hovered := PreviewOpened(w, [Legacy(a), Legacy(b)], Legacy(b), Launcher, Hover).world;
            && Invariant(hovered) && b in hovered && hovered[b].IsPreview(Launcher)
            && PreviewElsewhere(hovered, [Legacy(a), Legacy(b)], Legacy(a))
            && !PreviewElsewhere(hovered, [Typed(a), Typed(b)], Typed(a))
  {
    hide *;
    var listed, typed := [Legacy(a), Legacy(b)], [Typed(a), Typed(b)];
    assert Legacy(b) == listed[1] && forall s :: Legacy(s) !in typed;
    FirstHover(w, listed, b);
    var hovered := PreviewOpened(w, listed, Legacy(b), Launcher, Hover).world;
    InvariantIsTidy(hovered);
    SeesLegacyPreviewsOnly(hovered, listed, Legacy(a));
    SeesLegacyPreviewsOnly(hovered, typed, Typed(a));
    NotTarget(a, b);
  }

  lemma NotTarget<S>(a: S, b: S)
    ensures a != b ==> !IsTarget(b, Legacy(a))
  {}

  // ---- Lists ----

  /** An opening that is not given every screen: Calendar on one, then Clipboard on another that alone is listed. */
  lemma UnlistedScreenBreaksTheSeat<S>(w: World<S>, states: seq<Handle<S>>, a: S, b: S)
    requires Fresh(w) && a in w && b in w && a != b
    ensures var calendar := Opened(w, states, Legacy(a), Calendar).world;
            && AllClosed(w) && Invariant(calendar)
            && !Invariant(Opened(calendar, [Legacy(b)], Legacy(b), Clipboard).world)
  {
    hide *;
    SomeSurfaces();
    OnlyListed(a, b);
    FreshAddresses(w, a, b);
    FirstOpening(w, states, Legacy(a), Calendar);
    var calendar := Opened(w, states, Legacy(a), Calendar).world;
    FreshAddresses(calendar, a, b);
    TypedIsWritable(calendar, b, Clipboard);
    assert ExplicitOpen(calendar[a], Calendar);
    ExclusiveOpeningExactly(calendar, [Legacy(b)], Legacy(b), Clipboard);
    UnlistedIsUnsafe(calendar, [Legacy(b)], a, b, Calendar, Clipboard);
  }

  /** With one screen left out of each list, Calendar opened on one screen and then on another is open on both. */
  lemma UnlistedOpeningLeavesTwo<S>(w: World<S>, a: S, b: S)
    requires Fresh(w) && a in w && b in w && a != b
    ensures var one := Opened(w, [Legacy(a)], Legacy(a), Calendar).world;
            var two := Opened(one, [Legacy(b)], Legacy(b), Calendar).world;
            && AllClosed(w) && two.Keys == w.Keys && AllComplete(two)
            && two[a].IsOpen(Calendar) && two[b].IsOpen(Calendar) && !RetainedRuns.OneInstance(two, Calendar)
  {
    hide *;
    SomeSurfaces();
    FreshAddresses(w, a, b);
    FirstOpening(w, [Legacy(a)], Legacy(a), Calendar);
    var one := Opened(w, [Legacy(a)], Legacy(a), Calendar).world;
    FreshAddresses(one, a, b);
    TypedIsWritable(one, b, Calendar);
    InvariantIsComplete(one);
    ExclusiveIsOpen(one[a], Calendar);
    OnlyListed(a, b);
    ExclusiveOpening(one, [Legacy(b)], Legacy(b), Calendar);
    var two := Opened(one, [Legacy(b)], Legacy(b), Calendar).world;
    assert two[a].IsOpen(Calendar) && two[b].IsOpen(Calendar);
    TwoInstances(two, a, b, Calendar);
  }

  lemma TwoInstances<S>(w: World<S>, a: S, b: S, flag: Flag)
    requires a in w && b in w && a != b && w[a].IsOpen(flag) && w[b].IsOpen(flag)
    ensures !RetainedRuns.OneInstance(w, flag)
  {}

  /** Toggling it on the first screen then answers that it is closed there, while it stays open. */
  lemma UnlistedToggleMisreports<S>(w: World<S>, a: S, b: S)
    requires Fresh(w) && a in w && b in w && a != b
    ensures var one := Opened(w, [Legacy(a)], Legacy(a), Calendar).world;
            var two := Opened(one, [Legacy(b)], Legacy(b), Calendar).world;
            var toggled := Toggled(two, [Legacy(b)], Legacy(a), Calendar);
            && two.Keys == w.Keys && two[a].IsOpen(Calendar) && two[b].IsOpen(Calendar)
            && !toggled.result && a in toggled.world && toggled.world[a].IsOpen(Calendar)
  {
    hide *;
    SomeSurfaces();
    UnlistedOpeningLeavesTwo(w, a, b);
    var one := Opened(w, [Legacy(a)], Legacy(a), Calendar).world;
    var two := Opened(one, [Legacy(b)], Legacy(b), Calendar).world;
    FreshAddresses(two, a, b);
    OnlyListed(a, b);
    SeenOnOne(two, b, Calendar);
    ClosingToggleReports(two, [Legacy(b)], Legacy(a), Calendar);
  }

  /**
   * An opening that does not even list its own target: Calendar and then Clipboard opened on one screen are
   * both open there, and the inspection of that one screen reports them.
   */
  lemma UnlistedTargetIsReported<S>(w: World<S>, a: S, name: string)
    requires Fresh(w) && a in w
    ensures var one := Opened(w, [], Legacy(a), Calendar).world;
            var two := Opened(one, [], Legacy(a), Clipboard).world;
            && AllClosed(w) && two.Keys == w.Keys && !ShellConflicts.NoConflict(two, [a], [name])
  {
    hide *;
    SomeSurfaces();
    FreshAddresses(w, a, a);
    FirstOpening(w, [], Legacy(a), Calendar);
    var one := Opened(w, [], Legacy(a), Calendar).world;
    FreshAddresses(one, a, a);
    TypedIsWritable(one, a, Clipboard);
    InvariantIsComplete(one);
    ExclusiveIsOpen(one[a], Calendar);
    NothingListed(a);
    ExclusiveOpening(one, [], Legacy(a), Clipboard);
    var two := Opened(one, [], Legacy(a), Clipboard).world;
    assert two[a].IsOpen(Calendar) && two[a].IsOpen(Clipboard);
    TwoOnScreen(two, a, Calendar, Clipboard);
    ShellConflicts.NoConflictExactly(two, [a], [name]);
  }

  lemma NothingListed<S>(a: S)
    ensures a !in ScreensOf<S>([])
  {}

  lemma TwoOnScreen<S>(w: World<S>, a: S, f: Flag, g: Flag)
    requires a in w && f != g && IsExclusive(f) && IsExclusive(g) && w[a].IsOpen(f) && w[a].IsOpen(g)
    ensures ShellConflicts.Crowded(w, [a])
    ensures forall name: string :: ShellConflicts.Distinct([name])
  {
    hide Find, IsExclusive, Screen.IsOpen;
    assert ExclusiveOpen(w[a], f) && ExclusiveOpen(w[a], g);
    assert a in [a] && ShellConflicts.ShowsTwo(w[a]);
  }

  lemma ExclusiveIsOpen(s: Screen, f: Flag)
    ensures ExclusiveOpen(s, f) ==> s.IsOpen(f)
  {}

  lemma SeenOnOne<S>(w: World<S>, b: S, f: Flag)
    requires b in w && w[b].IsOpen(f)
    ensures OpenAnywhere(w, [Legacy(b)], f)
  {
    assert SeesOpen(w, [Legacy(b)][0], f);
  }

  lemma OnlyListed<S>(a: S, b: S)
    ensures a != b ==> a !in ScreensOf([Legacy(b)])
  {}

  lemma UnlistedIsUnsafe<S>(w: World<S>, states: seq<Handle<S>>, a: S, b: S, f: Flag, flag: Flag)
    requires a in w && b in w && a != b && a !in ScreensOf(states) && ExplicitOpen(w[a], f)
    ensures Addresses(w, Legacy(b)) && !StaysPreview(w, Legacy(b), flag)
            && !NothingExplicitUnlisted(w, states, Legacy(b))
  {
    hide ExplicitOpen, ScreensOf;
  }

  // ---- Monitor names ----

  /** Two screens under one name, Calendar on one and a Launcher hover on the other: lawful, and reported. */
  lemma SharedNameIsReported<S>(w: World<S>, a: S, b: S, name: string)
    requires Fresh(w) && w.Keys == {a, b} && a != b
    ensures var states := [Legacy(a), Legacy(b)];
            var calls := [Call.Open(states, Legacy(a), Calendar), Call.OpenPreview(states, Legacy(b), Launcher, Hover)];
            && AllClosed(w) && LawfulRun(w, calls) && Run(w, calls).Keys == w.Keys
            && var entries := ShellInspect.Entries(ShellConflicts.InspectedSeat(Run(w, calls), [a, b], [name, name]));
               ShellInspect.Pairs(entries, |entries|) != []
  {
    hide *;
    var states := [Legacy(a), Legacy(b)];
    var c, d := Call.Open(states, Legacy(a), Calendar), Call.OpenPreview(states, Legacy(b), Launcher, Hover);
    var calls, calendar := [c, d], Opened(w, states, Legacy(a), Calendar).world;
    assert Legacy(b) == states[1];
    OpenThenPreview(w, states, Legacy(a), Calendar, Legacy(b), Launcher, Hover);
    SomeSurfaces();
    FreshAddresses(w, a, b);
    FirstOpening(w, states, Legacy(a), Calendar);
    HoverBesideCalendar(calendar, states, a, b);
    RunsKeepInvariant(w, calls);
    SharedName(Run(w, calls), a, b, name);
    ShellConflicts.ConflictsExactly(Run(w, calls), [a, b], [name, name]);
  }

  lemma OpenThenPreview<S>(w: World<S>, states: seq<Handle<S>>, first: Handle<S>, f: Flag,
                           second: Handle<S>, g: Flag, pointer: Pointer)
    ensures var calls, one := [Call.Open(states, first, f), Call.OpenPreview(states, second, g, pointer)],
                              Opened(w, states, first, f).world;
            && Run(w, calls) == PreviewOpened(one, states, second, g, pointer).world
            && (LawfulRun(w, calls) <==>
                 OpeningSafe(w, states, first, f) && PreviewSafe(one, states, second, g, pointer))
  {
    hide Opened, PreviewOpened, OpeningSafe, PreviewSafe, Run, LawfulRun;
    RunOfTwo(w, Call.Open(states, first, f), Call.OpenPreview(states, second, g, pointer));
  }

  lemma HoverBesideCalendar<S>(w: World<S>, states: seq<Handle<S>>, a: S, b: S)
    requires Invariant(w) && AllTyped(w) && a in w && b in w && a != b && Legacy(b) in states
    requires ExclusiveOpen(w[a], Calendar) && forall f :: !ExclusiveOpen(w[b], f)
    ensures PreviewSafe(w, states, Legacy(b), Launcher, Hover)
    ensures var hovered := PreviewOpened(w, states, Legacy(b), Launcher, Hover).world;
            && hovered.Keys == w.Keys && ExclusiveOpen(hovered[a], Calendar) && ExclusiveOpen(hovered[b], Launcher)
  {
    hide Find, IsExclusive, IsPreviewable, Exclusive, Previewable, Invariant, PreviewRefused, PreviewOpened;
    hide Screen.IsOpen, Screen.Writable, Screen.OpenCause;
    SomeSurfaces();
    PreviewAccepted(w, states, Legacy(b), Launcher, Hover);
    InvariantIsComplete(w);
    TypedIsWritable(w, b, Launcher);
    PreviewOpenedAt(w, states, Legacy(b), Launcher, Hover, a, Calendar);
    PreviewOpenedAt(w, states, Legacy(b), Launcher, Hover, b, Launcher);
  }

  lemma SharedName<S>(w: World<S>, a: S, b: S, name: string)
    requires a in w && b in w && ExclusiveOpen(w[a], Calendar) && ExclusiveOpen(w[b], Launcher)
    ensures ShellConflicts.SharedMonitor(w, [a, b], [name, name])
  {
    hide ExclusiveOpen;
    var screens, names := [a, b], [name, name];
    assert ShellConflicts.ShowsExclusive(w[screens[0]]) && ShellConflicts.ShowsExclusive(w[screens[1]]);
    assert names[0] == names[1];
  }
}
