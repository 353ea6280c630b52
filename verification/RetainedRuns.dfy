/** One instance of a retained surface on the seat: which calls keep it, and which runs. */
module RetainedRuns {
  import opened SurfaceRegistry
  import opened OverlayModel
  import opened OverlayEffects
  import opened OverlayRuns

  /** The surface is open on one screen at most. */
  ghost predicate OneInstance<S>(w: World<S>, flag: Flag) {
    forall a, b :: a in w && b in w && w[a].IsOpen(flag) && w[b].IsOpen(flag) ==> a == b
  }

  /** No screen that an opening leaves alone shows the surface. */
  ghost predicate NotShownUnlisted<S>(w: World<S>, states: seq<Handle<S>>, target: Handle<S>, flag: Flag)
    requires Addresses(w, target)
  {
    forall s :: s in w && s !in ScreensOf(states) && s != target.screen ==> !w[s].IsOpen(flag)
  }

  /**
   * Opening a retained surface leaves one instance exactly if no unlisted screen shows it, whatever the seat
   * showed.
   */
  lemma OpeningLeavesOneExactly<S>(w: World<S>, states: seq<Handle<S>>, target: Handle<S>, flag: Flag)
    requires AllComplete(w) && Addresses(w, target) && IsRetained(flag) && w[target.screen].Writable(flag)
    ensures OneInstance(Opened(w, states, target, flag).world, flag) <==> NotShownUnlisted(w, states, target, flag)
  {
    hide Find, IsExclusive, IsRetained, AllComplete, ScreensOf, Opened, Screen.IsOpen, Screen.Writable;
    hide Screen.IsPreview;
    RetainedIsSettable(flag);
    ExclusiveOpening(w, states, target, flag);
    var after, t := Opened(w, states, target, flag).world, target.screen;
    assert after[t].IsOpen(flag);
    if OneInstance(after, flag) {
      forall s | s in w && s !in ScreensOf(states) && s != t ensures !w[s].IsOpen(flag) {
        assert after[s].IsOpen(flag) == w[s].IsOpen(flag);
      }
    }
  }

  /** Where the surface is open on fewer screens there is still one instance. */
  lemma FewerInstances<S>(w: World<S>, after: World<S>, flag: Flag)
    requires OneInstance(w, flag) && after.Keys == w.Keys
    requires forall s :: s in w && after[s].IsOpen(flag) ==> w[s].IsOpen(flag)
    ensures OneInstance(after, flag)
  {
    hide Screen.IsOpen;
  }

  /** An opening of another surface, or one that cannot be written, opens no retained surface. */
  lemma OtherOpeningKeeps<S>(w: World<S>, states: seq<Handle<S>>, target: Handle<S>, other: Flag, flag: Flag)
    requires AllComplete(w) && OneInstance(w, flag)
    requires Addresses(w, target) ==> other != flag || !w[target.screen].Writable(flag)
    ensures OneInstance(Opened(w, states, target, other).world, flag)
  {
    hide Find, IsSettable, AllComplete, OneInstance, ScreensOf, Opened, Closes;
    hide Screen.IsOpen, Screen.Writable, Screen.OpenCause, Screen.Complete;
    if Addresses(w, target) && IsSettable(other) {
      var after := Opened(w, states, target, other).world;
      OpenedWorldAt(w, states, target, other, target.screen, flag);
      forall s | s in w ensures after[s].IsOpen(flag) ==> w[s].IsOpen(flag) {
        OpenedWorldAt(w, states, target, other, s, flag);
      }
      FewerInstances(w, after, flag);
    } else {
      RefusedOpening(w, states, target, other);
    }
  }

  /** When an opening keeps one instance of a retained surface. */
  ghost predicate OpeningKeepsInstance<S>(w: World<S>, states: seq<Handle<S>>, target: Handle<S>, other: Flag,
                                          flag: Flag) {
    || other != flag || !Addresses(w, target) || !w[target.screen].Writable(flag)
    || NotShownUnlisted(w, states, target, flag)
  }

  lemma OpeningKeepsInstanceExactly<S>(w: World<S>, states: seq<Handle<S>>, target: Handle<S>, other: Flag, flag: Flag)
    requires AllComplete(w) && OneInstance(w, flag) && IsRetained(flag)
    ensures OneInstance(Opened(w, states, target, other).world, flag) <==>
            OpeningKeepsInstance(w, states, target, other, flag)
  {
    hide AllComplete, OneInstance, NotShownUnlisted, IsRetained, Opened, Screen.Writable;
    if other == flag && Addresses(w, target) && w[target.screen].Writable(flag) {
      OpeningLeavesOneExactly(w, states, target, flag);
    } else {
      OtherOpeningKeeps(w, states, target, other, flag);
    }
  }

  /** No preview opens a retained surface. */
  lemma PreviewKeepsInstance<S>(w: World<S>, states: seq<Handle<S>>, target: Handle<S>, other: Flag,
                                pointer: Pointer, flag: Flag)
    requires AllComplete(w) && OneInstance(w, flag) && IsRetained(flag)
    ensures OneInstance(PreviewOpened(w, states, target, other, pointer).world, flag)
  {
    hide Find, IsRetained, IsPreviewable, AllComplete, OneInstance, PreviewRefused, PreviewOpened;
    hide Screen.IsOpen, Screen.Writable, Screen.OpenCause, Screen.Complete;
    if PreviewRefused(w, states, target, other, pointer) {
      RefusedPreview(w, states, target, other, pointer);
    } else {
      AcceptedPreviewIsLocal(w, states, target, other, pointer, flag);
      RetainedIsSettable(flag);
      var after := PreviewOpened(w, states, target, other, pointer).world;
      PreviewOpenedAt(w, states, target, other, pointer, target.screen, flag);
      forall s | s in w ensures after[s].IsOpen(flag) ==> w[s].IsOpen(flag) {
        PreviewOpenedAt(w, states, target, other, pointer, s, flag);
      }
      FewerInstances(w, after, flag);
    }
  }

  lemma ClosingKeepsInstance<S>(w: World<S>, states: seq<Handle<S>>, other: Flag, flag: Flag)
    requires AllComplete(w) && OneInstance(w, flag)
    ensures OneInstance(ClosedOnEach(w, states, other), flag)
  {
    hide *;
    if IsSettable(other) {
      ClosedOnEachAt(w, states, other);
      FewerInstances(w, ClosedOnEach(w, states, other), flag);
    } else {
      UnknownShut(w, states, other);
    }
  }

  /** When what a call does keeps one instance of a retained surface. */
  ghost predicate EffectKeeps<S>(w: World<S>, e: Effect<S>, flag: Flag) {
    e.Opens? ==> OpeningKeepsInstance(w, e.states, e.target, e.flag, flag)
  }

  ghost predicate KeepsInstance<S>(w: World<S>, c: Call<S>, flag: Flag) { EffectKeeps(w, EffectOf(w, c), flag) }

  lemma EffectKeepsExactly<S>(w: World<S>, e: Effect<S>, flag: Flag)
    requires AllComplete(w) && OneInstance(w, flag) && IsRetained(flag)
    ensures OneInstance(Effected(w, e), flag) <==> EffectKeeps(w, e, flag)
  {
    hide AllComplete, OneInstance, Opened, PreviewOpened, ClosedOnEach, IsRetained, OpeningKeepsInstance;
    match e
    case Opens(states, target, other) => OpeningKeepsInstanceExactly(w, states, target, other, flag);
    case Previews(states, target, other, pointer) => PreviewKeepsInstance(w, states, target, other, pointer, flag);
    case Shuts(states, other) => ClosingKeepsInstance(w, states, other, flag);
  }

  lemma StepKeepsInstance<S>(w: World<S>, c: Call<S>, flag: Flag)
    requires Tidy(w) && OneInstance(w, flag) && IsRetained(flag)
    ensures OneInstance(Apply(w, c).world, flag) <==> KeepsInstance(w, c, flag)
  {
    hide Tidy, OneInstance, Apply, EffectOf, Effected, EffectKeeps, IsRetained;
    TidyIsComplete(w);
    CallIsEffect(w, c);
    EffectKeepsExactly(w, EffectOf(w, c), flag);
  }

  ghost predicate KeepingRun<S>(w: World<S>, calls: seq<Call<S>>, flag: Flag) {
    EachCall(w, calls, (v, c) => KeepsInstance(v, c, flag))
  }

  ghost predicate TidyInstance<S>(w: World<S>, flag: Flag) { Tidy(w) && OneInstance(w, flag) }

  /** The runs that keep one instance of a retained surface are exactly the runs of calls that keep it. */
  lemma RunsKeepOneInstance<S>(w: World<S>, calls: seq<Call<S>>, flag: Flag)
    requires AllClosed(w) && IsRetained(flag)
    ensures KeepingRun(w, calls, flag) <==> Throughout(w, calls, v => TidyInstance(v, flag))
    ensures KeepingRun(w, calls, flag) ==> OneInstance(Run(w, calls), flag)
  {
    hide Apply, KeepsInstance, Tidy, OneInstance, Run, IsRetained;
    ClosedIsTidy(w);
    ClosedHasNone(w, flag);
    forall v: World<S>, c: Call<S>
      ensures TidyInstance(v, flag) ==> (TidyInstance(Apply(v, c).world, flag) <==> KeepsInstance(v, c, flag))
    {
      if TidyInstance(v, flag) {
        StepStaysTidy(v, c);
        StepKeepsInstance(v, c, flag);
      }
    }
    RunsKeepExactly(w, calls, v => TidyInstance(v, flag), (v, c) => KeepsInstance(v, c, flag));
  }

  lemma ClosedHasNone<S>(w: World<S>, flag: Flag)
    requires AllClosed(w)
    ensures OneInstance(w, flag)
  {}

  /** Whether a call that may open the surface lists every screen. */
  ghost predicate ListsAllFor<S>(screens: set<S>, c: Call<S>, flag: Flag) {
    match c
    case OpenPreview(_, _, _, _) => true
    case CloseOn(_, _) | ClosePreview(_, _) | Close(_, _) => true
    case _ => c.flag == flag ==> screens <= ScreensOf(c.states)
  }

  lemma ListingAllKeeps<S>(w: World<S>, c: Call<S>, flag: Flag)
    requires ListsAllFor(w.Keys, c, flag)
    ensures KeepsInstance(w, c, flag)
  {
    hide ScreensOf, Find, OpenAnywhere, SeesOpen, SeesPreview, Screen.IsOpen, Screen.Writable;
  }

  /**
   * So a retained surface stays one instance over every run in which the calls that may open it list every
   * screen. Other calls may list what they like, and previews and handles are free.
   */
  lemma RetainedIsOneInstance<S>(w: World<S>, calls: seq<Call<S>>, flag: Flag)
    requires AllClosed(w) && IsRetained(flag)
    requires forall i :: 0 <= i < |calls| ==> ListsAllFor(w.Keys, calls[i], flag)
    ensures OneInstance(Run(w, calls), flag)
  {
    hide KeepsInstance, ListsAllFor, Run, OneInstance, AllClosed, IsRetained, Tidy;
    ClosedIsTidy(w);
    forall i | 0 <= i < |calls| ensures KeepsInstance(Run(w, calls[..i]), calls[i], flag) {
      RunsStayTidy(w, calls[..i]);
      ListingAllKeeps(Run(w, calls[..i]), calls[i], flag);
    }
    RunsKeepOneInstance(w, calls, flag);
  }

  /** The invariant has one instance of every retained surface. */
  lemma InvariantHasOneInstance<S>(w: World<S>, flag: Flag)
    requires Invariant(w) && IsRetained(flag)
    ensures OneInstance(w, flag)
  {
    hide Find, Tidy, OnePerScreen, ExplicitOpen, Screen.IsOpen;
    forall a, b | a in w && b in w && w[a].IsOpen(flag) && w[b].IsOpen(flag) ensures a == b {
      RetainedIsExplicit(w, a, flag);
      RetainedIsExplicit(w, b, flag);
    }
  }

  lemma RetainedIsExplicit<S>(w: World<S>, s: S, flag: Flag)
    requires Invariant(w) && s in w && IsRetained(flag) && w[s].IsOpen(flag)
    ensures ExplicitOpen(w[s], flag)
  {
    hide Find, IsRetained, Invariant, Screen.IsOpen, Screen.OpenCause;
    InvariantIsTidy(w);
    PreviewIsOpen(w, s, flag);
    RetainedIsSettable(flag);
  }

  /** While a retained surface has one instance, every toggle reports whether it ends open on its target. */
  lemma TogglesReport<S>(w: World<S>, states: seq<Handle<S>>, target: Handle<S>, flag: Flag, fullscreen: bool)
    requires AllComplete(w) && Addresses(w, target) && IsSettable(flag)
    requires IsRetained(flag) ==> OneInstance(w, flag)
    ensures var o := Toggled(w, states, target, flag);
            target.screen in o.world && o.result == o.world[target.screen].IsOpen(flag)
    ensures var o := ToggledGuarded(w, states, target, flag, fullscreen);
            target.screen in o.world && o.result == o.world[target.screen].IsOpen(flag)
  {
    hide Find, IsSettable, IsRetained, AllComplete, Toggled, ToggledGuarded, ScreensOf, Screen.IsOpen;
    TogglesReportExactly(w, states, target, flag, fullscreen);
    OneInstanceMissesNothing(w, states, target, flag);
  }

  lemma OneInstanceMissesNothing<S>(w: World<S>, states: seq<Handle<S>>, target: Handle<S>, flag: Flag)
    requires Addresses(w, target) && (IsRetained(flag) ==> OneInstance(w, flag))
    ensures !MissesTarget(w, states, target, flag)
  {
    hide Find, IsRetained, ScreensOf, Screen.IsOpen;
    if OpenAnywhere(w, states, flag) {
      var h :| h in states && SeesOpen(w, h, flag);
      assert h.screen in ScreensOf(states);
    }
  }
}
