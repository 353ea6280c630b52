/** At most one exclusive surface on a screen: which calls keep it, and which runs. */
module ScreenRuns {
  import opened SurfaceRegistry
  import opened OverlayModel
  import opened OverlayEffects
  import opened OverlayRuns

  /** When an opening keeps a screen from showing two exclusive surfaces, whatever list of screens it is given. */
  ghost predicate OpeningFits<S>(w: World<S>, states: seq<Handle<S>>, target: Handle<S>, flag: Flag) {
    || !Addresses(w, target) || !IsSettable(flag) || !IsExclusive(flag) || !w[target.screen].Writable(flag)
    || AloneOnTarget(w, states, target, flag)
  }

  lemma OpeningKeepsOnePerScreenExactly<S>(w: World<S>, states: seq<Handle<S>>, target: Handle<S>, flag: Flag)
    requires AllComplete(w) && OnePerScreen(w)
    ensures OnePerScreen(Opened(w, states, target, flag).world) <==> OpeningFits(w, states, target, flag)
  {
    hide Find, IsSettable, IsExclusive, ScreensOf, AllComplete, OnePerScreen, Opened, Screen.Writable, AloneOnTarget;
    if !Addresses(w, target) || !IsSettable(flag) {
      RefusedOpening(w, states, target, flag);
    } else if !IsExclusive(flag) || !w[target.screen].Writable(flag) {
      PlainOpeningKeeps(w, states, target, flag);
    } else {
      ExclusiveOpeningKeeps(w, states, target, flag);
    }
  }

  lemma PlainOpeningKeeps<S>(w: World<S>, states: seq<Handle<S>>, target: Handle<S>, flag: Flag)
    requires AllComplete(w) && OnePerScreen(w) && Addresses(w, target) && IsSettable(flag)
    requires !IsExclusive(flag) || !w[target.screen].Writable(flag)
    ensures OnePerScreen(Opened(w, states, target, flag).world)
  {
    hide *;
    AddressedIsKnown(w, target);
    var after := Opened(w, states, target, flag).world;
    OpenedWorldAt(w, states, target, flag, target.screen, flag);
    forall s, f | s in w ensures ExclusiveOpen(after[s], f) ==> ExclusiveOpen(w[s], f) {
      PlainOpeningAt(w, states, target, flag, s, f);
    }
    FewerOnEach(w, after);
  }

  lemma PlainOpeningAt<S>(w: World<S>, states: seq<Handle<S>>, target: Handle<S>, flag: Flag, s: S, f: Flag)
    requires AllComplete(w) && Addresses(w, target) && IsSettable(flag) && s in w
    requires !IsExclusive(flag) || !w[target.screen].Writable(flag)
    ensures Opened(w, states, target, flag).world.Keys == w.Keys
    ensures ExclusiveOpen(Opened(w, states, target, flag).world[s], f) ==> ExclusiveOpen(w[s], f)
  {
    hide Find, IsSettable, IsExclusive, IsPreviewable, ScreensOf, Opened, AllComplete, Closes;
    hide Screen.IsOpen, Screen.Writable, Screen.OpenCause, Screen.Complete;
    OpenedWorldAt(w, states, target, flag, s, f);
  }

  /** Fewer exclusive surfaces on every screen. */
  lemma FewerOnEach<S>(w: World<S>, after: World<S>)
    requires OnePerScreen(w) && after.Keys == w.Keys
    requires forall s, f :: s in w && ExclusiveOpen(after[s], f) ==> ExclusiveOpen(w[s], f)
    ensures OnePerScreen(after)
  {
    hide ExclusiveOpen;
  }

  lemma ExclusiveOpeningKeeps<S>(w: World<S>, states: seq<Handle<S>>, target: Handle<S>, flag: Flag)
    requires AllComplete(w) && OnePerScreen(w) && Addresses(w, target)
    requires IsExclusive(flag) && w[target.screen].Writable(flag)
    ensures OnePerScreen(Opened(w, states, target, flag).world) <==> AloneOnTarget(w, states, target, flag)
  {
    hide *;
    AddressedIsKnown(w, target);
    var after, t, listed := Opened(w, states, target, flag).world, target.screen, ScreensOf(states);
    ExclusiveOpensAt(w, states, target, flag, t, flag);
    forall s, f | s in w
      ensures ExclusiveOpen(after[s], f) == ((s == t && f == flag) || (s !in listed && ExclusiveOpen(w[s], f)))
    {
      ExclusiveOpensAt(w, states, target, flag, s, f);
    }
    OpeningConditions(w, states, target, flag);
    OneMoreOn(w, after, listed, t, flag);
  }

  lemma ExclusiveOpensAt<S>(w: World<S>, states: seq<Handle<S>>, target: Handle<S>, flag: Flag, s: S, f: Flag)
    requires AllComplete(w) && Addresses(w, target) && s in w && IsExclusive(flag) && w[target.screen].Writable(flag)
    ensures Opened(w, states, target, flag).world.Keys == w.Keys
    ensures ExclusiveOpen(Opened(w, states, target, flag).world[s], f) ==
            ((s == target.screen && f == flag) || (s !in ScreensOf(states) && ExclusiveOpen(w[s], f)))
  {
    hide Opened, AllComplete, ScreensOf, ExclusiveOpen, ExplicitOpen, StaysPreview, Find;
    OpensAloneAt(w, states, target, flag, s, f);
  }

  /** Only the screen that gains a surface can come to show two. */
  lemma OneMoreOn<S>(w: World<S>, after: World<S>, listed: set<S>, t: S, flag: Flag)
    requires OnePerScreen(w) && after.Keys == w.Keys && t in w
    requires forall s, f :: s in w ==>
               ExclusiveOpen(after[s], f) == ((s == t && f == flag) || (s !in listed && ExclusiveOpen(w[s], f)))
    ensures OnePerScreen(after) <==> (t in listed || forall f :: ExclusiveOpen(w[t], f) ==> f == flag)
  {
    hide ExclusiveOpen;
    if OnePerScreen(after) && t !in listed {
      forall f | ExclusiveOpen(w[t], f) ensures f == flag {
        assert ExclusiveOpen(after[t], f) && ExclusiveOpen(after[t], flag);
      }
    }
  }

  /** Previews keep it through any handle. */
  lemma PreviewKeepsOnePerScreen<S>(w: World<S>, states: seq<Handle<S>>, target: Handle<S>, flag: Flag,
                                    pointer: Pointer)
    requires AllComplete(w) && OnePerScreen(w)
    ensures OnePerScreen(PreviewOpened(w, states, target, flag, pointer).world)
  {
    hide *;
    if PreviewRefused(w, states, target, flag, pointer) {
      RefusedPreview(w, states, target, flag, pointer);
    } else {
      AcceptedPreviewIsLocal(w, states, target, flag, pointer, flag);
      AddressedIsKnown(w, target);
      var after, t := PreviewOpened(w, states, target, flag, pointer).world, target.screen;
      PreviewOpenedAt(w, states, target, flag, pointer, t, flag);
      forall s, f | s in w
        ensures ExclusiveOpen(after[s], f) ==> if s == t then f == flag else ExclusiveOpen(w[s], f)
      {
        PreviewIsLocalAt(w, states, target, flag, pointer, s, f);
      }
      OneElsewhere(w, after, t, flag);
    }
  }

  lemma OneElsewhere<S>(w: World<S>, after: World<S>, t: S, flag: Flag)
    requires OnePerScreen(w) && after.Keys == w.Keys && t in w
    requires forall s, f :: s in w && ExclusiveOpen(after[s], f) ==>
             if s == t then f == flag else ExclusiveOpen(w[s], f)
    ensures OnePerScreen(after)
  {
    hide ExclusiveOpen;
  }

  lemma PreviewIsLocalAt<S>(w: World<S>, states: seq<Handle<S>>, target: Handle<S>, flag: Flag, pointer: Pointer,
                            s: S, f: Flag)
    requires AllComplete(w) && !PreviewRefused(w, states, target, flag, pointer) && Addresses(w, target) && s in w
    ensures var after := PreviewOpened(w, states, target, flag, pointer).world;
            && after.Keys == w.Keys
            && (ExclusiveOpen(after[s], f) ==> if s == target.screen then f == flag else ExclusiveOpen(w[s], f))
  {
    hide Find, IsExclusive, IsPreviewable, PreviewRefused, PreviewOpened, AllComplete;
    hide Screen.IsOpen, Screen.Writable, Screen.OpenCause;
    AcceptedPreviewIsLocal(w, states, target, flag, pointer, f);
    PreviewOpenedAt(w, states, target, flag, pointer, s, f);
  }

  lemma ClosingKeepsOnePerScreen<S>(w: World<S>, states: seq<Handle<S>>, flag: Flag)
    requires AllComplete(w) && OnePerScreen(w)
    ensures OnePerScreen(ClosedOnEach(w, states, flag))
  {
    hide *;
    if IsSettable(flag) {
      var after := ClosedOnEach(w, states, flag);
      ClosedOnEachAt(w, states, flag);
      forall s, f | s in w ensures ExclusiveOpen(after[s], f) ==> ExclusiveOpen(w[s], f) {
        ExclusiveMeansOpen(after[s], f);
        ExclusiveMeansOpen(w[s], f);
      }
      FewerOnEach(w, after);
    } else {
      UnknownShut(w, states, flag);
    }
  }

  lemma ExclusiveMeansOpen(s: Screen, f: Flag)
    ensures ExclusiveOpen(s, f) <==> IsExclusive(f) && s.IsOpen(f)
  {}

  /** When a call keeps every screen to one exclusive surface. */
  ghost predicate Fits<S>(w: World<S>, c: Call<S>) {
    match EffectOf(w, c)
    case Opens(states, target, flag) => OpeningFits(w, states, target, flag)
    case Previews(_, _, _, _) => true
    case Shuts(_, _) => true
  }

  lemma StepKeepsOnePerScreen<S>(w: World<S>, c: Call<S>)
    requires Tidy(w) && OnePerScreen(w)
    ensures OnePerScreen(Apply(w, c).world) <==> Fits(w, c)
  {
    hide Tidy, OnePerScreen, Apply, EffectOf, Opened, PreviewOpened, ClosedOnEach, OpeningFits;
    TidyIsComplete(w);
    CallIsEffect(w, c);
    match EffectOf(w, c)
    case Opens(states, target, flag) => OpeningKeepsOnePerScreenExactly(w, states, target, flag);
    case Previews(states, target, flag, pointer) => PreviewKeepsOnePerScreen(w, states, target, flag, pointer);
    case Shuts(states, flag) => ClosingKeepsOnePerScreen(w, states, flag);
  }

  ghost predicate FittingRun<S>(w: World<S>, calls: seq<Call<S>>) { EachCall(w, calls, (v, c) => Fits(v, c)) }

  ghost predicate TidyScreens<S>(w: World<S>) { Tidy(w) && OnePerScreen(w) }

  /** The runs that keep every screen to one exclusive surface are exactly the runs of fitting calls. */
  lemma RunsKeepOnePerScreen<S>(w: World<S>, calls: seq<Call<S>>)
    requires AllClosed(w)
    ensures FittingRun(w, calls) <==> Throughout(w, calls, v => TidyScreens(v))
    ensures FittingRun(w, calls) ==> OnePerScreen(Run(w, calls))
  {
    hide Apply, Fits, Tidy, OnePerScreen, Run;
    ClosedKeepsInvariant(w);
    InvariantFits(w);
    forall v: World<S>, c: Call<S> ensures TidyScreens(v) ==> (TidyScreens(Apply(v, c).world) <==> Fits(v, c)) {
      if TidyScreens(v) {
        StepStaysTidy(v, c);
        StepKeepsOnePerScreen(v, c);
      }
    }
    RunsKeepExactly(w, calls, v => TidyScreens(v), (v, c) => Fits(v, c));
  }

  lemma InvariantFits<S>(w: World<S>)
    requires Invariant(w)
    ensures TidyScreens(w)
  {}

  /** Whether an opening call lists the screen it opens on. */
  predicate ListsTarget<S(==)>(c: Call<S>) {
    match c
    case OpenPreview(_, _, _, _) => true
    case CloseOn(_, _) | ClosePreview(_, _) | Close(_, _) => true
    case _ => c.target.Null? || c.target.screen in ScreensOf(c.states)
  }

  lemma ListingTargetFits<S>(w: World<S>, c: Call<S>)
    requires ListsTarget(c)
    ensures Fits(w, c)
  {
    hide ScreensOf, Find, OpenAnywhere, SeesOpen, SeesPreview;
  }

  /** So listing the target's own screen is enough, with any other screens left out and previews through any handle. */
  lemma ListedTargetsKeepOnePerScreen<S>(w: World<S>, calls: seq<Call<S>>)
    requires AllClosed(w) && forall i :: 0 <= i < |calls| ==> ListsTarget(calls[i])
    ensures FittingRun(w, calls) && OnePerScreen(Run(w, calls))
  {
    hide Fits, ListsTarget, Run, OnePerScreen, AllClosed;
    forall i | 0 <= i < |calls| ensures Fits(Run(w, calls[..i]), calls[i]) {
      ListingTargetFits(Run(w, calls[..i]), calls[i]);
    }
    RunsKeepOnePerScreen(w, calls);
  }
}
