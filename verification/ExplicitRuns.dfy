/** At most one explicit exclusive surface on the seat: which calls keep it, and which runs. */
module ExplicitRuns {
  import opened SurfaceRegistry
  import opened OverlayModel
  import opened OverlayEffects
  import opened OverlayRuns

  /** No screen that an opening leaves alone shows another explicit surface. */
  ghost predicate NothingElseExplicit<S>(w: World<S>, states: seq<Handle<S>>, target: Handle<S>, flag: Flag)
    requires Addresses(w, target)
  {
    forall s, f :: s in w && s !in ScreensOf(states) && ExplicitOpen(w[s], f) ==> s == target.screen && f == flag
  }

  /** When an opening keeps the seat to one explicit surface, whatever list of screens it is given. */
  ghost predicate OpeningStaysAlone<S>(w: World<S>, states: seq<Handle<S>>, target: Handle<S>, flag: Flag) {
    || !Addresses(w, target) || !IsSettable(flag) || !IsExclusive(flag) || !w[target.screen].Writable(flag)
    || StaysPreview(w, target, flag) || NothingElseExplicit(w, states, target, flag)
  }

  lemma OpeningKeepsOneExplicitExactly<S>(w: World<S>, states: seq<Handle<S>>, target: Handle<S>, flag: Flag)
    requires Tidy(w) && OneExplicit(w)
    ensures OneExplicit(Opened(w, states, target, flag).world) <==> OpeningStaysAlone(w, states, target, flag)
  {
    hide Find, IsSettable, IsExclusive, ScreensOf, Tidy, OneExplicit, Opened, Screen.Writable, StaysPreview;
    hide NothingElseExplicit;
    if !Addresses(w, target) || !IsSettable(flag) {
      RefusedOpening(w, states, target, flag);
    } else if !IsExclusive(flag) || !w[target.screen].Writable(flag) {
      PlainOpeningKeeps(w, states, target, flag);
    } else {
      ExclusiveOpeningKeeps(w, states, target, flag);
    }
  }

  lemma PlainOpeningKeeps<S>(w: World<S>, states: seq<Handle<S>>, target: Handle<S>, flag: Flag)
    requires Tidy(w) && OneExplicit(w) && Addresses(w, target) && IsSettable(flag)
    requires !IsExclusive(flag) || !w[target.screen].Writable(flag)
    ensures OneExplicit(Opened(w, states, target, flag).world)
  {
    hide *;
    var after := Opened(w, states, target, flag).world;
    OpenedStaysTidy(w, states, target, flag);
    forall s, f | s in w ensures ExplicitOpen(after[s], f) ==> ExplicitOpen(w[s], f) {
      OpenedInvariantAt(w, states, target, flag, s, f);
    }
    FewerExplicit(w, after);
  }

  lemma FewerExplicit<S>(w: World<S>, after: World<S>)
    requires OneExplicit(w) && after.Keys == w.Keys
    requires forall s, f :: s in w && ExplicitOpen(after[s], f) ==> ExplicitOpen(w[s], f)
    ensures OneExplicit(after)
  {
    hide ExplicitOpen;
  }

  lemma ExclusiveOpeningKeeps<S>(w: World<S>, states: seq<Handle<S>>, target: Handle<S>, flag: Flag)
    requires Tidy(w) && OneExplicit(w) && Addresses(w, target)
    requires IsExclusive(flag) && w[target.screen].Writable(flag)
    ensures OneExplicit(Opened(w, states, target, flag).world) <==>
            StaysPreview(w, target, flag) || NothingElseExplicit(w, states, target, flag)
  {
    hide *;
    AddressedIsKnown(w, target);
    TidyIsComplete(w);
    ExclusiveIsSettable(flag);
    OpenedStaysTidy(w, states, target, flag);
    var after, t, listed := Opened(w, states, target, flag).world, target.screen, ScreensOf(states);
    var stays := StaysPreview(w, target, flag);
    forall s, f | s in w
      ensures ExplicitOpen(after[s], f) ==
              if s == t && f == flag then !stays else s !in listed && ExplicitOpen(w[s], f)
    {
      ExplicitOpensAt(w, states, target, flag, s, f);
    }
    OneMoreExplicit(w, after, listed, t, flag, stays);
    ElseMeans(w, states, target, flag);
  }

  lemma ElseMeans<S>(w: World<S>, states: seq<Handle<S>>, target: Handle<S>, flag: Flag)
    requires Addresses(w, target)
    ensures NothingElseExplicit(w, states, target, flag) <==>
            forall s, f :: s in w && s !in ScreensOf(states) && ExplicitOpen(w[s], f) ==>
              s == target.screen && f == flag
  {}

  lemma ExplicitOpensAt<S>(w: World<S>, states: seq<Handle<S>>, target: Handle<S>, flag: Flag, s: S, f: Flag)
    requires AllComplete(w) && Addresses(w, target) && s in w && IsExclusive(flag) && w[target.screen].Writable(flag)
    ensures Opened(w, states, target, flag).world.Keys == w.Keys
    ensures ExplicitOpen(Opened(w, states, target, flag).world[s], f) ==
            if s == target.screen && f == flag then !StaysPreview(w, target, flag)
            else s !in ScreensOf(states) && ExplicitOpen(w[s], f)
  {
    hide Opened, AllComplete, ScreensOf, ExclusiveOpen, ExplicitOpen, StaysPreview, Find;
    OpensAloneAt(w, states, target, flag, s, f);
  }

  lemma OneMoreExplicit<S>(w: World<S>, after: World<S>, listed: set<S>, t: S, flag: Flag, stays: bool)
    requires OneExplicit(w) && after.Keys == w.Keys && t in w
    requires forall s, f :: s in w ==>
               ExplicitOpen(after[s], f) == if s == t && f == flag then !stays
                 else s !in listed && ExplicitOpen(w[s], f)
    ensures OneExplicit(after) <==>
            stays || forall s, f :: s in w && s !in listed && ExplicitOpen(w[s], f) ==> s == t && f == flag
  {
    hide ExplicitOpen;
    if OneExplicit(after) && !stays {
      forall s, f | s in w && s !in listed && ExplicitOpen(w[s], f) ensures s == t && f == flag {
        assert ExplicitOpen(after[t], flag) && ExplicitOpen(after[s], f);
      }
    }
  }

  /** A preview keeps it exactly when it is safe. */
  lemma PreviewKeepsOneExplicitExactly<S>(w: World<S>, states: seq<Handle<S>>, target: Handle<S>, flag: Flag,
                                          pointer: Pointer)
    requires Tidy(w) && OneExplicit(w)
    ensures OneExplicit(PreviewOpened(w, states, target, flag, pointer).world) <==>
            PreviewSafe(w, states, target, flag, pointer)
  {
    hide Find, Tidy, OneExplicit, PreviewRefused, PreviewOpened, RecordsCauses, ExplicitOpen, Screen.Writable;
    if PreviewRefused(w, states, target, flag, pointer) {
      RefusedPreview(w, states, target, flag, pointer);
    } else {
      AcceptedPreviewIsLocal(w, states, target, flag, pointer, flag);
      if RecordsCauses(w, target) {
        RecordedPreviewKeeps(w, states, target, flag, pointer);
      } else {
        UnrecordedPreviewKeeps(w, states, target, flag, pointer);
      }
    }
  }

  lemma RecordedPreviewKeeps<S>(w: World<S>, states: seq<Handle<S>>, target: Handle<S>, flag: Flag, pointer: Pointer)
    requires Tidy(w) && OneExplicit(w) && !PreviewRefused(w, states, target, flag, pointer) && RecordsCauses(w, target)
    ensures OneExplicit(PreviewOpened(w, states, target, flag, pointer).world)
  {
    hide *;
    TidyIsComplete(w);
    PreviewStaysTidy(w, states, target, flag, pointer);
    var after := PreviewOpened(w, states, target, flag, pointer).world;
    forall s, f | s in w ensures ExplicitOpen(after[s], f) ==> ExplicitOpen(w[s], f) {
      RecordedPreviewAt(w, states, target, flag, pointer, s, f);
    }
    FewerExplicit(w, after);
  }

  lemma RecordedPreviewAt<S>(w: World<S>, states: seq<Handle<S>>, target: Handle<S>, flag: Flag, pointer: Pointer,
                             s: S, f: Flag)
    requires AllComplete(w) && !PreviewRefused(w, states, target, flag, pointer) && RecordsCauses(w, target) && s in w
    ensures PreviewOpened(w, states, target, flag, pointer).world.Keys == w.Keys
    ensures ExplicitOpen(PreviewOpened(w, states, target, flag, pointer).world[s], f) ==> ExplicitOpen(w[s], f)
  {
    hide Find, AllComplete, IsExclusive, PreviewRefused, PreviewOpened, RecordsCauses;
    hide Screen.IsOpen, Screen.Writable, Screen.OpenCause;
    AcceptedPreviewIsLocal(w, states, target, flag, pointer, flag);
    PreviewOpenedAt(w, states, target, flag, pointer, s, f);
  }

  lemma UnrecordedPreviewKeeps<S>(w: World<S>, states: seq<Handle<S>>, target: Handle<S>, flag: Flag, pointer: Pointer)
    requires Tidy(w) && OneExplicit(w) && Addresses(w, target)
    requires !PreviewRefused(w, states, target, flag, pointer) && !RecordsCauses(w, target)
    ensures OneExplicit(PreviewOpened(w, states, target, flag, pointer).world) <==>
            !w[target.screen].Writable(flag) || forall s, f :: s in w ==> !ExplicitOpen(w[s], f)
  {
    hide *;
    AddressedIsKnown(w, target);
    PreviewStaysTidy(w, states, target, flag, pointer);
    var after, t := PreviewOpened(w, states, target, flag, pointer).world, target.screen;
    forall s, f | s in w
      ensures ExplicitOpen(after[s], f) == (ExplicitOpen(w[s], f) || (s == t && f == flag && w[t].Writable(flag)))
    {
      UnrecordedPreviewAt(w, states, target, flag, pointer, s, f);
      GainsMeans(w, after, t, flag, w[t].Writable(flag), s, f);
    }
    UnrecordedTargetIsQuiet(w, states, target, flag, pointer, flag);
    GainsExplicit(w, after, t, flag, w[t].Writable(flag));
  }

  lemma GainsMeans<S>(w: World<S>, after: World<S>, t: S, flag: Flag, opens: bool, s: S, f: Flag)
    requires s in w && s in after && GainsAt(w, after, t, flag, opens, s, f)
    ensures ExplicitOpen(after[s], f) == (ExplicitOpen(w[s], f) || (s == t && f == flag && opens))
  {
    hide ExplicitOpen, ExclusiveOpen;
  }

  lemma GainsExplicit<S>(w: World<S>, after: World<S>, t: S, flag: Flag, opens: bool)
    requires OneExplicit(w) && after.Keys == w.Keys && t in w && !ExplicitOpen(w[t], flag)
    requires forall s, f :: s in w ==>
               ExplicitOpen(after[s], f) == (ExplicitOpen(w[s], f) || (s == t && f == flag && opens))
    ensures OneExplicit(after) <==> !opens || forall s, f :: s in w ==> !ExplicitOpen(w[s], f)
  {
    hide ExplicitOpen;
    if OneExplicit(after) && opens {
      assert ExplicitOpen(after[t], flag);
    }
  }

  lemma {:induction false} ClosingKeepsOneExplicit<S>(w: World<S>, states: seq<Handle<S>>, flag: Flag)
    requires Tidy(w) && OneExplicit(w)
    ensures OneExplicit(ClosedOnEach(w, states, flag))
  {
    hide Tidy, OneExplicit, ClosedOn, IsSettable, Addresses, ExplicitOpen;
    if states == [] {
    } else {
      var n := |states| - 1;
      var before := ClosedOnEach(w, states[..n], flag);
      ClosingKeepsOneExplicit(w, states[..n], flag);
      ClosingEachStaysTidy(w, states[..n], flag);
      if Addresses(before, states[n]) && IsSettable(flag) {
        TidyIsComplete(before);
        ClosingStaysTidy(before, states[n], flag);
        forall s, f | s in before
          ensures ExplicitOpen(ClosedOn(before, states[n], flag).world[s], f) ==> ExplicitOpen(before[s], f)
        {
          ClosingShrinks(before, states[n], flag, s, f);
        }
        FewerExplicit(before, ClosedOn(before, states[n], flag).world);
      } else {
        RefusedClose(before, states[n], flag);
      }
    }
  }

  /** When what a call does keeps the seat to one explicit surface. */
  ghost predicate EffectStaysAlone<S>(w: World<S>, e: Effect<S>) {
    match e
    case Opens(states, target, flag) => OpeningStaysAlone(w, states, target, flag)
    case Previews(states, target, flag, pointer) => PreviewSafe(w, states, target, flag, pointer)
    case Shuts(_, _) => true
  }

  ghost predicate StaysAlone<S>(w: World<S>, c: Call<S>) { EffectStaysAlone(w, EffectOf(w, c)) }

  lemma EffectKeepsOneExplicit<S>(w: World<S>, e: Effect<S>)
    requires Tidy(w) && OneExplicit(w)
    ensures OneExplicit(Effected(w, e)) <==> EffectStaysAlone(w, e)
  {
    hide Tidy, OneExplicit, Opened, PreviewOpened, ClosedOnEach, OpeningStaysAlone, PreviewSafe;
    match e
    case Opens(states, target, flag) => OpeningKeepsOneExplicitExactly(w, states, target, flag);
    case Previews(states, target, flag, pointer) => PreviewKeepsOneExplicitExactly(w, states, target, flag, pointer);
    case Shuts(states, flag) => ClosingKeepsOneExplicit(w, states, flag);
  }

  ghost predicate AloneRun<S>(w: World<S>, calls: seq<Call<S>>) { EachCall(w, calls, (v, c) => StaysAlone(v, c)) }

  ghost predicate TidyExplicit<S>(w: World<S>) { Tidy(w) && OneExplicit(w) }

  lemma StepKeepsOneExplicit<S>(w: World<S>, c: Call<S>)
    requires TidyExplicit(w)
    ensures TidyExplicit(Apply(w, c).world) <==> StaysAlone(w, c)
  {
    hide Tidy, OneExplicit, Apply, EffectOf, Effected, EffectStaysAlone;
    StepStaysTidy(w, c);
    CallIsEffect(w, c);
    EffectKeepsOneExplicit(w, EffectOf(w, c));
  }

  /** The runs that keep the seat to one explicit surface are exactly the runs of calls that keep it. */
  lemma RunsKeepOneExplicit<S>(w: World<S>, calls: seq<Call<S>>)
    requires AllClosed(w)
    ensures AloneRun(w, calls) <==> Throughout(w, calls, v => TidyExplicit(v))
    ensures AloneRun(w, calls) ==> TidyExplicit(Run(w, calls))
  {
    hide Apply, StaysAlone, TidyExplicit, Run;
    ClosedKeepsInvariant(w);
    InvariantIsExplicit(w);
    forall v: World<S>, c: Call<S> ensures TidyExplicit(v) ==> (TidyExplicit(Apply(v, c).world) <==> StaysAlone(v, c)) {
      if TidyExplicit(v) {
        StepKeepsOneExplicit(v, c);
      }
    }
    RunsKeepExactly(w, calls, v => TidyExplicit(v), (v, c) => StaysAlone(v, c));
  }

  lemma InvariantIsExplicit<S>(w: World<S>)
    requires Invariant(w)
    ensures TidyExplicit(w)
  {}
}
