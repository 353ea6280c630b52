/** The overlay policy over whole runs. */
module OverlayRuns {
  import opened Wrappers
  import opened SurfaceRegistry
  import opened OverlayModel
  import opened OverlayEffects

  /** One policy call. The listing of screens may differ from call to call. */
  datatype Call<S> =
    | Open(states: seq<Handle<S>>, target: Handle<S>, flag: Flag)
    | OpenPreview(states: seq<Handle<S>>, target: Handle<S>, flag: Flag, pointer: Pointer)
    | PromotePreview(states: seq<Handle<S>>, target: Handle<S>, flag: Flag)
    | CloseOn(target: Handle<S>, flag: Flag)
    | ClosePreview(target: Handle<S>, flag: Flag)
    | Close(states: seq<Handle<S>>, flag: Flag)
    | ToggleOn(states: seq<Handle<S>>, target: Handle<S>, flag: Flag)
    | Toggle(states: seq<Handle<S>>, target: Handle<S>, flag: Flag)
    | ToggleGuarded(states: seq<Handle<S>>, target: Handle<S>, flag: Flag, fullscreen: bool)

  function Apply<S(==)>(w: World<S>, c: Call<S>): Outcome<S> {
    match c
    case Open(states, target, flag) => Opened(w, states, target, flag)
    case OpenPreview(states, target, flag, pointer) => PreviewOpened(w, states, target, flag, pointer)
    case PromotePreview(states, target, flag) => Promoted(w, states, target, flag)
    case CloseOn(target, flag) => ClosedOn(w, target, flag)
    case ClosePreview(target, flag) => PreviewClosed(w, target, flag)
    case Close(states, flag) => ClosedAll(w, states, flag)
    case ToggleOn(states, target, flag) => ToggledOn(w, states, target, flag)
    case Toggle(states, target, flag) => Toggled(w, states, target, flag)
    case ToggleGuarded(states, target, flag, fullscreen) => ToggledGuarded(w, states, target, flag, fullscreen)
  }

  /** What a call does to the seat: one opening, one preview, or a flag closed on some screens, possibly none. */
  datatype Effect<S> =
    | Opens(states: seq<Handle<S>>, target: Handle<S>, flag: Flag)
    | Previews(states: seq<Handle<S>>, target: Handle<S>, flag: Flag, pointer: Pointer)
    | Shuts(states: seq<Handle<S>>, flag: Flag)

  function ToggleEffect<S(==)>(w: World<S>, states: seq<Handle<S>>, target: Handle<S>, flag: Flag): Effect<S> {
    if SeesOpen(w, target, flag) && !SeesPreview(w, target, flag) then Shuts([target], flag)
    else Opens(states, target, flag)
  }

  function EffectOf<S(==)>(w: World<S>, c: Call<S>): Effect<S> {
    match c
    case Open(states, target, flag) => Opens(states, target, flag)
    case OpenPreview(states, target, flag, pointer) => Previews(states, target, flag, pointer)
    case PromotePreview(states, target, flag) =>
      if SeesPreview(w, target, flag) then Opens(states, target, flag) else Shuts([], flag)
    case CloseOn(target, flag) => Shuts([target], flag)
    case ClosePreview(target, flag) => Shuts(if SeesPreview(w, target, flag) then [target] else [], flag)
    case Close(states, flag) => Shuts(states, flag)
    case ToggleOn(states, target, flag) => ToggleEffect(w, states, target, flag)
    case Toggle(states, target, flag) =>
      if IsRetained(flag) && OpenAnywhere(w, states, flag) then Shuts(states, flag)
      else ToggleEffect(w, states, target, flag)
    case ToggleGuarded(states, target, flag, fullscreen) =>
      if fullscreen && IsFullscreenGuarded(flag) && !SeesOpen(w, target, flag) then Shuts([], flag)
      else if IsRetained(flag) && OpenAnywhere(w, states, flag) then Shuts(states, flag)
      else ToggleEffect(w, states, target, flag)
  }

  function Effected<S(==)>(w: World<S>, e: Effect<S>): World<S> {
    match e
    case Opens(states, target, flag) => Opened(w, states, target, flag).world
    case Previews(states, target, flag, pointer) => PreviewOpened(w, states, target, flag, pointer).world
    case Shuts(states, flag) => ClosedOnEach(w, states, flag)
  }

  /** Every call does to the seat what its effect says. */
  lemma CallIsEffect<S>(w: World<S>, c: Call<S>)
    ensures Apply(w, c).world == Effected(w, EffectOf(w, c))
  {
    hide Find, IsRetained, IsFullscreenGuarded, Opened, PreviewOpened, ClosedOn, ClosedOnEach, ToggleEffect;
    hide ToggledOn, SeesOpen, SeesPreview, OpenAnywhere;
    NothingShut(w, c.flag);
    match c
    case Open(_, _, _) =>
    case OpenPreview(_, _, _, _) =>
    case PromotePreview(_, _, _) =>
    case CloseOn(target, flag) => OneShut(w, target, flag);
    case ClosePreview(target, flag) => OneShut(w, target, flag);
    case Close(states, flag) => UnknownShut(w, states, flag);
    case ToggleOn(states, target, flag) => TogglingIsEffect(w, states, target, flag);
    case Toggle(states, target, flag) =>
      RetainedIsSettable(flag);
      TogglingIsEffect(w, states, target, flag);
    case ToggleGuarded(states, target, flag, _) =>
      RetainedIsSettable(flag);
      TogglingIsEffect(w, states, target, flag);
  }

  lemma NothingShut<S>(w: World<S>, flag: Flag)
    ensures ClosedOnEach(w, [], flag) == w
  {}

  lemma OneShut<S>(w: World<S>, target: Handle<S>, flag: Flag)
    ensures ClosedOnEach(w, [target], flag) == ClosedOn(w, target, flag).world
  {
    hide ClosedOn;
    assert [target][..0] == [];
  }

  lemma {:induction false} UnknownShut<S>(w: World<S>, states: seq<Handle<S>>, flag: Flag)
    ensures !IsSettable(flag) ==> ClosedOnEach(w, states, flag) == w
  {
    hide IsSettable, ClosedOn;
    if states == [] || IsSettable(flag) {
    } else {
      UnknownShut(w, states[..|states| - 1], flag);
      RefusedClose(w, states[|states| - 1], flag);
    }
  }

  lemma TogglingIsEffect<S>(w: World<S>, states: seq<Handle<S>>, target: Handle<S>, flag: Flag)
    ensures ToggledOn(w, states, target, flag).world == Effected(w, ToggleEffect(w, states, target, flag))
  {
    hide Find, IsSettable, Opened, ClosedOn, ClosedOnEach;
    OneShut(w, target, flag);
    if !Addresses(w, target) || !IsSettable(flag) {
      RefusedOpening(w, states, target, flag);
      RefusedClose(w, target, flag);
    }
  }

  lemma RetainedIsSettable(flag: Flag)
    ensures IsRetained(flag) ==> IsSettable(flag) && IsExclusive(flag) && !IsPreviewable(flag)
  {}

  /** When a call keeps the invariant: it opens nothing, or what it opens is safe. */
  ghost predicate Lawful<S>(w: World<S>, c: Call<S>) {
    match EffectOf(w, c)
    case Opens(states, target, flag) => OpeningSafe(w, states, target, flag)
    case Previews(states, target, flag, pointer) => PreviewSafe(w, states, target, flag, pointer)
    case Shuts(_, _) => true
  }

  /** What the policy's header asks of a caller: openings list every screen, and previews are safe. */
  ghost predicate Documented<S>(w: World<S>, c: Call<S>) {
    match c
    case OpenPreview(states, target, flag, pointer) => PreviewSafe(w, states, target, flag, pointer)
    case CloseOn(_, _) | ClosePreview(_, _) | Close(_, _) => true
    case _ => Covers(w, c.states)
  }

  lemma DocumentedIsLawful<S>(w: World<S>, c: Call<S>)
    requires Invariant(w) && Documented(w, c)
    ensures Lawful(w, c)
  {
    hide Invariant, Find, Covers, OpeningSafe, PreviewSafe, OpenAnywhere, SeesOpen, SeesPreview;
    if !c.OpenPreview? && !c.CloseOn? && !c.ClosePreview? && !c.Close? {
      OpeningKeepsInvariant(w, c.states, c.target, c.flag);
    }
  }

  function Run<S(==)>(w: World<S>, calls: seq<Call<S>>): World<S> {
    if calls == [] then w else Apply(Run(w, calls[..|calls| - 1]), calls[|calls| - 1]).world
  }

  ghost predicate LawfulRun<S>(w: World<S>, calls: seq<Call<S>>) {
    EachCall(w, calls, (v, c) => Lawful(v, c))
  }

  /** A seat on which nothing is open. */
  ghost predicate AllClosed<S>(w: World<S>) {
    AllComplete(w) && forall s, f :: s in w ==> !w[s].IsOpen(f) && !w[s].IsPreview(f)
  }

  /** The lawful calls are exactly those that keep the invariant. */
  lemma StepKeepsInvariant<S>(w: World<S>, c: Call<S>)
    requires Invariant(w)
    ensures Invariant(Apply(w, c).world) <==> Lawful(w, c)
  {
    hide Invariant, Apply, EffectOf, Opened, PreviewOpened, ClosedOnEach, OpeningSafe, PreviewSafe;
    CallIsEffect(w, c);
    match EffectOf(w, c)
    case Opens(states, target, flag) => OpeningKeepsInvariantExactly(w, states, target, flag);
    case Previews(states, target, flag, pointer) => PreviewKeepsInvariantExactly(w, states, target, flag, pointer);
    case Shuts(states, flag) =>
      InvariantIsTidy(w);
      ClosingEachStaysTidy(w, states, flag);
  }

  // ---- Runs ----

  /** Something that holds at the start of a run and after each of its calls. */
  ghost predicate Throughout<S>(w: World<S>, calls: seq<Call<S>>, good: World<S> -> bool) {
    forall i :: 0 <= i <= |calls| ==> good(Run(w, calls[..i]))
  }

  /** Something that every call of a run satisfies when it is made. */
  ghost predicate EachCall<S>(w: World<S>, calls: seq<Call<S>>, fine: (World<S>, Call<S>) -> bool) {
    forall i :: 0 <= i < |calls| ==> fine(Run(w, calls[..i]), calls[i])
  }

  /** If the fine calls are exactly those that keep the good, so are the runs of fine calls. */
  lemma {:induction false} RunsKeepExactly<S>(w: World<S>, calls: seq<Call<S>>, good: World<S> -> bool,
                                              fine: (World<S>, Call<S>) -> bool)
    requires good(w)
    requires forall v, c :: good(v) ==> (good(Apply(v, c).world) <==> fine(v, c))
    ensures EachCall(w, calls, fine) <==> Throughout(w, calls, good)
    ensures EachCall(w, calls, fine) ==> good(Run(w, calls))
  {
    hide Apply;
    if calls == [] {
      assert calls[..0] == calls;
    } else {
      hide EachCall, Throughout;
      var n := |calls| - 1;
      LastIsFine(w, calls, fine);
      LastIsGood(w, calls, good);
      RunsKeepExactly(w, calls[..n], good, fine);
      if EachCall(w, calls[..n], fine) {
        assert good(Run(w, calls[..n]));
      }
    }
  }

  lemma LastIsGood<S>(w: World<S>, calls: seq<Call<S>>, good: World<S> -> bool)
    requires calls != []
    ensures Throughout(w, calls, good) <==> Throughout(w, calls[..|calls| - 1], good) && good(Run(w, calls))
  {
    hide Run;
    var n := |calls| - 1;
    assert calls[..n + 1] == calls;
    assert forall i :: 0 <= i <= n ==> calls[..n][..i] == calls[..i];
    if Throughout(w, calls, good) {
      assert good(Run(w, calls[..n + 1]));
      forall i | 0 <= i <= n ensures good(Run(w, calls[..n][..i])) {
        assert good(Run(w, calls[..i]));
      }
    }
    if Throughout(w, calls[..n], good) && good(Run(w, calls)) {
      forall i | 0 <= i <= n + 1 ensures good(Run(w, calls[..i])) {
        assert i <= n ==> good(Run(w, calls[..n][..i]));
      }
    }
  }

  lemma LastIsFine<S>(w: World<S>, calls: seq<Call<S>>, fine: (World<S>, Call<S>) -> bool)
    requires calls != []
    ensures var n := |calls| - 1;
            EachCall(w, calls, fine) <==> EachCall(w, calls[..n], fine) && fine(Run(w, calls[..n]), calls[n])
  {
    hide Run;
    var n := |calls| - 1;
    assert forall i :: 0 <= i < n ==> calls[..n][..i] == calls[..i];
  }

  /** The invariant holds at the start of a run and after each of its calls. */
  ghost predicate KeptThroughout<S>(w: World<S>, calls: seq<Call<S>>) {
    Throughout(w, calls, v => Invariant(v))
  }

  /**
   * From a seat with everything closed, the runs of lawful calls are exactly those that keep throughout:
   * at most one explicit exclusive surface on the seat, at most one exclusive surface on a screen, and
   * previews only on previewable surfaces that are open.
   */
  lemma RunsKeepInvariant<S>(w: World<S>, calls: seq<Call<S>>)
    requires AllClosed(w)
    ensures LawfulRun(w, calls) <==> KeptThroughout(w, calls)
    ensures LawfulRun(w, calls) ==> Invariant(Run(w, calls))
  {
    hide Apply, Lawful, Invariant, Run;
    ClosedKeepsInvariant(w);
    forall v: World<S>, c: Call<S> ensures Invariant(v) ==> (Invariant(Apply(v, c).world) <==> Lawful(v, c)) {
      if Invariant(v) {
        StepKeepsInvariant(v, c);
      }
    }
    RunsKeepExactly(w, calls, v => Invariant(v), (v, c) => Lawful(v, c));
  }

  lemma ClosedKeepsInvariant<S>(w: World<S>)
    requires AllClosed(w)
    ensures Invariant(w)
  {
    hide Find, Screen.IsOpen, Screen.IsPreview;
  }

  // ---- Runs of any calls ----

  /** Every call, lawful or not, keeps the screens, their declared flags, and previews only where they are open. */
  lemma StepStaysTidy<S>(w: World<S>, c: Call<S>)
    requires Tidy(w)
    ensures Apply(w, c).world.Keys == w.Keys && Tidy(Apply(w, c).world)
  {
    hide Tidy, Apply, EffectOf, Opened, PreviewRefused, ClosedOnEach, IsSettable, Addresses;
    CallIsEffect(w, c);
    match EffectOf(w, c)
    case Opens(states, target, flag) =>
      if Addresses(w, target) && IsSettable(flag) {
        OpenedStaysTidy(w, states, target, flag);
      } else {
        RefusedOpening(w, states, target, flag);
      }
    case Previews(states, target, flag, pointer) =>
      if !PreviewRefused(w, states, target, flag, pointer) {
        PreviewStaysTidy(w, states, target, flag, pointer);
      } else {
        RefusedPreview(w, states, target, flag, pointer);
      }
    case Shuts(states, flag) => ClosingEachStaysTidy(w, states, flag);
  }

  lemma RefusedPreview<S>(w: World<S>, states: seq<Handle<S>>, target: Handle<S>, flag: Flag, pointer: Pointer)
    requires PreviewRefused(w, states, target, flag, pointer)
    ensures PreviewOpened(w, states, target, flag, pointer).world == w
  {}

  lemma {:induction false} RunsStayTidy<S>(w: World<S>, calls: seq<Call<S>>)
    requires Tidy(w)
    ensures Run(w, calls).Keys == w.Keys && Tidy(Run(w, calls))
  {
    hide Tidy, Apply;
    if calls == [] {
    } else {
      var n := |calls| - 1;
      RunsStayTidy(w, calls[..n]);
      StepStaysTidy(Run(w, calls[..n]), calls[n]);
    }
  }

  /** After any run whatever, one exclusive opening that is given every screen puts the seat in order. */
  lemma AnyRunIsRepaired<S>(w: World<S>, calls: seq<Call<S>>, states: seq<Handle<S>>, target: Handle<S>, flag: Flag)
    requires Tidy(w) && Covers(w, states) && Addresses(w, target) && IsExclusive(flag)
    ensures Invariant(Run(w, calls + [Open(states, target, flag)]))
  {
    hide Tidy, Invariant, Opened, IsExclusive, ScreensOf;
    var all := calls + [Open(states, target, flag)];
    assert all[..|all| - 1] == calls;
    RunsStayTidy(w, calls);
    FullOpeningRepairs(Run(w, calls), states, target, flag);
  }

  lemma ClosedIsTidy<S>(w: World<S>)
    requires AllClosed(w)
    ensures Tidy(w)
  {}

  /** What a registered screen shows at first. */
  const RESET: Screen := Screen(map f | f in NAMES :: false, Some(map[]))

  ghost predicate Fresh<S>(w: World<S>) { forall s :: s in w ==> w[s] == RESET }

  /** Registered screens start out closed, so runs have somewhere to start. */
  lemma RegisteredSeatIsClosed<S>(w: World<S>)
    requires Fresh(w)
    ensures AllClosed(w)
  {
    forall f ensures (IsKnown(f) ==> f in RESET.flags) && !RESET.IsOpen(f) && !RESET.IsPreview(f) {
      ResetShowsNothing(f);
    }
  }

  lemma ResetShowsNothing(flag: Flag)
    ensures (IsKnown(flag) ==> flag in RESET.flags) && !RESET.IsOpen(flag) && !RESET.IsPreview(flag)
  {
    NamesAreTheKnownFlags(flag);
  }

  /** Runs of two calls, step by step. */
  lemma RunOfTwo<S>(w: World<S>, c: Call<S>, d: Call<S>)
    ensures Run(w, [c, d]) == Apply(Apply(w, c).world, d).world
    ensures LawfulRun(w, [c, d]) <==> Lawful(w, c) && Lawful(Apply(w, c).world, d)
  {
    hide Apply, Lawful;
    var calls := [c, d];
    assert calls[..0] == [] && calls[..1] == [c] && [c][..0] == [];
    assert Run(w, calls[..0]) == w && Run(w, calls[..1]) == Apply(w, c).world;
  }

  // ---- What toggles report ----

  lemma ToggleOnReports<S>(w: World<S>, states: seq<Handle<S>>, target: Handle<S>, flag: Flag)
    requires AllComplete(w) && Addresses(w, target) && IsSettable(flag)
    ensures target.screen in ToggledOn(w, states, target, flag).world
    ensures ToggledOn(w, states, target, flag).result ==
            ToggledOn(w, states, target, flag).world[target.screen].IsOpen(flag)
  {
    hide Find, IsSettable, Opened, ClosedOn, Closes, Screen.IsOpen, Screen.Writable, Screen.OpenCause, Screen.Complete;
    OpenedResult(w, states, target, flag);
    OpenedWorldAt(w, states, target, flag, target.screen, flag);
    ClosedOnAt(w, target, flag, target.screen, flag);
    TargetIsSpared(flag, target.screen in ScreensOf(states));
    if w[target.screen].IsOpen(flag) {
      OpenMeansDeclared(w[target.screen], flag);
    }
  }

  lemma TargetIsSpared(flag: Flag, listed: bool)
    ensures !Closes(flag, listed, true, flag)
  {}

  /** Whether a toggle closes a retained surface on the listed screens and leaves it open on its own target. */
  predicate MissesTarget<S(==)>(w: World<S>, states: seq<Handle<S>>, target: Handle<S>, flag: Flag)
    requires Addresses(w, target)
  {
    && IsRetained(flag) && OpenAnywhere(w, states, flag)
    && w[target.screen].IsOpen(flag) && target.screen !in ScreensOf(states)
  }

  /**
   * A toggle reports whether the flag ends open on its target, on every seat of complete screens, except
   * when it closes a retained surface elsewhere and its target is open and not listed.
   */
  lemma TogglesReportExactly<S>(w: World<S>, states: seq<Handle<S>>, target: Handle<S>, flag: Flag, fullscreen: bool)
    requires AllComplete(w) && Addresses(w, target) && IsSettable(flag)
    ensures var o := Toggled(w, states, target, flag);
            && target.screen in o.world
            && (o.result == o.world[target.screen].IsOpen(flag) <==> !MissesTarget(w, states, target, flag))
    ensures var o := ToggledGuarded(w, states, target, flag, fullscreen);
            && target.screen in o.world
            && (o.result == o.world[target.screen].IsOpen(flag) <==> !MissesTarget(w, states, target, flag))
  {
    hide Find, IsSettable, IsRetained, AllComplete, Toggled, OpenAnywhere, ScreensOf, Screen.IsOpen;
    if IsRetained(flag) && OpenAnywhere(w, states, flag) {
      ClosingToggleReports(w, states, target, flag);
    } else {
      OpeningToggleReports(w, states, target, flag);
    }
    GuardedIsTransient(flag);
  }

  lemma OpeningToggleReports<S>(w: World<S>, states: seq<Handle<S>>, target: Handle<S>, flag: Flag)
    requires AllComplete(w) && Addresses(w, target) && IsSettable(flag)
             && !(IsRetained(flag) && OpenAnywhere(w, states, flag))
    ensures var o := Toggled(w, states, target, flag);
            target.screen in o.world && o.result == o.world[target.screen].IsOpen(flag)
  {
    hide Find, IsSettable, IsRetained, AllComplete, ToggledOn, OpenAnywhere, Screen.IsOpen;
    ToggleOnReports(w, states, target, flag);
  }

  lemma ClosingToggleReports<S>(w: World<S>, states: seq<Handle<S>>, target: Handle<S>, flag: Flag)
    requires AllComplete(w) && Addresses(w, target) && IsSettable(flag) && IsRetained(flag)
             && OpenAnywhere(w, states, flag)
    ensures var o := Toggled(w, states, target, flag);
            && target.screen in o.world && !o.result
            && o.world[target.screen].IsOpen(flag) ==
               (w[target.screen].IsOpen(flag) && target.screen !in ScreensOf(states))
  {
    hide Find, IsSettable, IsRetained, AllComplete, ClosedOnEach, OpenAnywhere, ScreensOf, Screen.IsOpen;
    ClosedOnEachAt(w, states, flag);
  }

  /** Over a fullscreen window, toggling a guarded surface never opens anything on any screen. */
  lemma FullscreenNeverOpens<S>(w: World<S>, states: seq<Handle<S>>, target: Handle<S>, flag: Flag, s: S, f: Flag)
    requires AllComplete(w) && IsFullscreenGuarded(flag) && s in w
    ensures var after := ToggledGuarded(w, states, target, flag, true).world;
            s in after && (after[s].IsOpen(f) ==> w[s].IsOpen(f))
  {
    hide Find, Opened, ClosedOn, ScreensOf, Closes, Screen.IsOpen, Screen.Writable, Screen.OpenCause, Screen.Complete;
    GuardedIsTransient(flag);
    if SeesOpen(w, target, flag) {
      OpenedWorldAt(w, states, target, flag, s, f);
      ClosedOnAt(w, target, flag, s, f);
    }
  }

  lemma GuardedIsTransient(flag: Flag)
    ensures IsFullscreenGuarded(flag) ==> IsSettable(flag) && !IsRetained(flag)
  {}
}
