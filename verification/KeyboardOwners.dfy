/** Which screens ask for keyboard focus, and how many can at once. */
module KeyboardOwners {
  import opened SurfaceRegistry
  import opened OverlayModel
  import opened OverlayEffects
  import opened OverlayRuns
  import opened ExplicitRuns
  import Gaps = OverlayGaps

  predicate OwnsKeyboard(flag: Flag) { Find(flag).Some? && Find(flag).value.ownsKeyboard }

  /** An open surface that owns the keyboard and is no preview. */
  predicate Holds(s: Screen, flag: Flag) { OwnsKeyboard(flag) && s.IsOpen(flag) && !s.IsPreview(flag) }

  /** `requiresWindowKeyboardFocus` of the screen's typed state. */
  predicate RequestsKeyboard(s: Screen) { exists f :: f in NAMES && Holds(s, f) }

  /** Every surface that owns the keyboard is exclusive, except the OSD. */
  lemma OwnersAreExclusiveOrOsd(flag: Flag)
    ensures OwnsKeyboard(flag) ==> flag in NAMES && (IsExclusive(flag) || flag == Osd)
  {
    NamesAreTheKnownFlags(flag);
  }

  /** An open OSD while another screen asks for the keyboard too. */
  ghost predicate OsdBesideOwner<S>(w: World<S>) {
    exists a, b :: a in w && b in w && a != b && w[a].IsOpen(Osd) && RequestsKeyboard(w[b])
  }

  /**
   * A seat with one explicit surface has a single screen asking for the keyboard, exactly when no OSD is open
   * beside it.
   */
  lemma SingleOwnerExactly<S>(w: World<S>)
    requires TidyExplicit(w)
    ensures (forall a, b :: a in w && b in w && RequestsKeyboard(w[a]) && RequestsKeyboard(w[b]) ==> a == b)
            <==> !OsdBesideOwner(w)
  {
    hide Find, OwnsKeyboard, Screen.IsOpen, Screen.OpenCause, Screen.Complete;
    forall a, b | a in w && b in w && RequestsKeyboard(w[a]) && RequestsKeyboard(w[b]) && a != b
      ensures OsdBesideOwner(w)
    {
      var f :| f in NAMES && Holds(w[a], f);
      var g :| g in NAMES && Holds(w[b], g);
      OwnersAreExclusiveOrOsd(f);
      OwnersAreExclusiveOrOsd(g);
      assert !(ExplicitOpen(w[a], f) && ExplicitOpen(w[b], g));
    }
    forall a | a in w && w[a].IsOpen(Osd) ensures RequestsKeyboard(w[a]) {
      OsdHolds(w, a);
    }
  }

  lemma OsdHolds<S>(w: World<S>, a: S)
    requires Tidy(w) && a in w && w[a].IsOpen(Osd)
    ensures Osd in NAMES && Holds(w[a], Osd)
  {
    NamesAreTheKnownFlags(Osd);
    PreviewIsOpen(w, a, Osd);
  }

  /**
   * So over a run that keeps one explicit surface and leaves every OSD closed, at most one screen asks for
   * the keyboard.
   */
  lemma OneOwnerWithoutOsd<S>(w: World<S>, calls: seq<Call<S>>, a: S, b: S)
    requires AllClosed(w) && AloneRun(w, calls)
    requires a in Run(w, calls) && b in Run(w, calls) && forall s :: s in Run(w, calls) ==>
             !Run(w, calls)[s].IsOpen(Osd)
    requires RequestsKeyboard(Run(w, calls)[a]) && RequestsKeyboard(Run(w, calls)[b])
    ensures a == b
  {
    hide TidyExplicit, RequestsKeyboard, Find, AloneRun, Screen.IsOpen;
    RunsKeepOneExplicit(w, calls);
    SingleOwnerExactly(Run(w, calls));
  }

  /** The OSD does break it: opened on one screen, with Calendar then opened on another, both ask. */
  lemma OsdAndCalendarBothAsk<S>(w: World<S>, states: seq<Handle<S>>, a: S, b: S)
    requires Fresh(w) && Covers(w, states) && a in w && b in w && a != b
    ensures var calls := [Call.Open(states, Legacy(a), Osd), Call.Open(states, Legacy(b), Calendar)];
            && AllClosed(w) && LawfulRun(w, calls) && Run(w, calls).Keys == w.Keys
            && RequestsKeyboard(Run(w, calls)[a]) && RequestsKeyboard(Run(w, calls)[b])
  {
    hide Opened, AllClosed, Invariant, RequestsKeyboard, Screen.IsOpen, Screen.Writable, Screen.Complete;
    hide Screen.OpenCause, ScreensOf, Closes, RESET;
    var calls := [Call.Open(states, Legacy(a), Osd), Call.Open(states, Legacy(b), Calendar)];
    var one := Opened(w, states, Legacy(a), Osd).world;
    RegisteredSeatIsClosed(w);
    RunsKeepInvariant(w, []);
    OpeningKeepsInvariant(w, states, Legacy(a), Osd);
    OsdOnOne(w, states, a, b);
    CalendarBeside(one, states, a, b);
    assert calls[..0] == [] && calls[..1] == [calls[0]] && calls[..1][..0] == [];
    assert Run(w, calls[..1]) == one;
    assert Run(w, calls) == Opened(one, states, Legacy(b), Calendar).world;
  }

  lemma OsdOnOne<S>(w: World<S>, states: seq<Handle<S>>, a: S, b: S)
    requires Fresh(w) && a in w && b in w && a != b
    ensures var one := Opened(w, states, Legacy(a), Osd).world;
            one.Keys == w.Keys && one[a].IsOpen(Osd) && one[b].Writable(Calendar)
  {
    hide Opened, OpenedScreen, Screen.IsOpen, Screen.Writable, Screen.OpenCause, ScreensOf, Closes;
    forall f ensures IsKnown(f) ==> f in RESET.flags { ResetShowsNothing(f); }
    DeclaredIsWritable(RESET, Osd);
    DeclaredIsWritable(RESET, Calendar);
    OpenedWorldAt(w, states, Legacy(a), Osd, a, Osd);
    OpenedScreenIs(w, states, Legacy(a), Osd, b);
    OpenedAt(RESET, Osd, b in ScreensOf(states), false, true, Calendar);
  }

  lemma CalendarBeside<S>(w: World<S>, states: seq<Handle<S>>, a: S, b: S)
    requires Invariant(w) && Covers(w, states) && a in w && b in w && w[a].IsOpen(Osd) && w[b].Writable(Calendar)
    ensures var both := Opened(w, states, Legacy(b), Calendar).world;
            both.Keys == w.Keys && RequestsKeyboard(both[a]) && RequestsKeyboard(both[b])
  {
    hide Opened, Invariant, Screen.IsOpen, Screen.Writable, Screen.Complete, Screen.OpenCause, ScreensOf, Covers;
    var both := Opened(w, states, Legacy(b), Calendar).world;
    InvariantIsComplete(w);
    OpeningKeepsInvariant(w, states, Legacy(b), Calendar);
    InvariantIsTidy(both);
    ExclusiveOpening(w, states, Legacy(b), Calendar);
    assert !IsExclusive(Osd) && both[a].IsOpen(Osd) == w[a].IsOpen(Osd);
    assert IsExclusive(Calendar) && both[b].IsOpen(Calendar);
    OsdHolds(both, a);
    NamesAreTheKnownFlags(Calendar);
    CalendarIsNoPreview(both, b);
    assert Holds(both[b], Calendar);
  }

  lemma CalendarIsNoPreview<S>(w: World<S>, s: S)
    requires Invariant(w) && s in w
    ensures !w[s].IsPreview(Calendar)
  {
    assert !IsPreviewable(Calendar);
  }

  /** So does a second explicit surface: Calendar on one screen and a Launcher hover through another's typed handle. */
  lemma TypedHoverAsksToo<S>(w: World<S>, states: seq<Handle<S>>, a: S, b: S)
    requires Fresh(w) && a in w && b in w && a != b && Typed(b) in states
    ensures var calendar := Opened(w, states, Typed(a), Calendar).world;
            var hovered := PreviewOpened(calendar, states, Typed(b), Launcher, Hover).world;
            hovered.Keys == w.Keys && RequestsKeyboard(hovered[a]) && RequestsKeyboard(hovered[b])
  {
    hide *;
    Gaps.SomeSurfaces();
    Gaps.FreshAddresses(w, a, b);
    Gaps.FirstOpening(w, states, Typed(a), Calendar);
    var calendar := Opened(w, states, Typed(a), Calendar).world;
    HoverBesideCalendar(calendar, states, a, b);
  }

  lemma HoverBesideCalendar<S>(w: World<S>, states: seq<Handle<S>>, a: S, b: S)
    requires Invariant(w) && Gaps.AllTyped(w) && a in w && b in w && a != b && Typed(b) in states
    requires ExplicitOpen(w[a], Calendar) && forall f :: !ExclusiveOpen(w[b], f)
    ensures var hovered := PreviewOpened(w, states, Typed(b), Launcher, Hover).world;
            hovered.Keys == w.Keys && RequestsKeyboard(hovered[a]) && RequestsKeyboard(hovered[b])
  {
    hide *;
    Gaps.SomeSurfaces();
    Gaps.FreshAddresses(w, a, b);
    InvariantIsTidy(w);
    Gaps.TypedIsWritable(w, b, Launcher);
    Gaps.PreviewAccepted(w, states, Typed(b), Launcher, Hover);
    TypedRecordsNothing(w, b);
    UnrecordedPreviewAt(w, states, Typed(b), Launcher, Hover, a, Calendar);
    UnrecordedPreviewAt(w, states, Typed(b), Launcher, Hover, b, Launcher);
    var hovered := PreviewOpened(w, states, Typed(b), Launcher, Hover).world;
    GainsMeans(w, hovered, b, Launcher, w[b].Writable(Launcher), a, Calendar);
    GainsMeans(w, hovered, b, Launcher, w[b].Writable(Launcher), b, Launcher);
    ExplicitAsks(hovered[a], Calendar);
    ExplicitAsks(hovered[b], Launcher);
  }

  lemma TypedRecordsNothing<S>(w: World<S>, b: S)
    ensures !RecordsCauses(w, Typed(b))
  {}

  lemma ExplicitAsks(s: Screen, f: Flag)
    requires ExplicitOpen(s, f) && (f == Calendar || f == Launcher)
    ensures RequestsKeyboard(s)
  {
    NamesAreTheKnownFlags(f);
    assert f in NAMES && Holds(s, f);
  }
}
