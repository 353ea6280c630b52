/** The invariant of the overlay policy, and what each kind of call does to it. */
module OverlayEffects {
  import opened Wrappers
  import opened SurfaceRegistry
  import opened OverlayModel

  predicate ExclusiveOpen(s: Screen, flag: Flag) { IsExclusive(flag) && s.IsOpen(flag) }

  /** Open and entitled to the keyboard of the seat. */
  predicate ExplicitOpen(s: Screen, flag: Flag) { ExclusiveOpen(s, flag) && !s.IsPreview(flag) }

  ghost predicate OneExplicit<S>(w: World<S>) {
    forall a, b, f, g :: a in w && b in w && ExplicitOpen(w[a], f) && ExplicitOpen(w[b], g) ==> a == b && f == g
  }

  ghost predicate OnePerScreen<S>(w: World<S>) {
    forall a, f, g :: a in w && ExclusiveOpen(w[a], f) && ExclusiveOpen(w[a], g) ==> f == g
  }

  ghost predicate PreviewsOpenOn(s: Screen) { forall f :: s.IsPreview(f) ==> IsPreviewable(f) && s.IsOpen(f) }

  ghost predicate PreviewsAreOpen<S>(w: World<S>) { forall a :: a in w ==> PreviewsOpenOn(w[a]) }

  ghost predicate AllComplete<S>(w: World<S>) { forall a :: a in w ==> w[a].Complete() }

  /** What every call keeps, whatever its caller does: all flags declared, and previews only where they are open. */
  ghost predicate Tidy<S>(w: World<S>) { AllComplete(w) && PreviewsAreOpen(w) }

  ghost predicate Invariant<S>(w: World<S>) { Tidy(w) && OneExplicit(w) && OnePerScreen(w) }

  lemma InvariantIsTidy<S>(w: World<S>)
    requires Invariant(w)
    ensures Tidy(w)
  {}

  lemma TidyIsComplete<S>(w: World<S>)
    requires Tidy(w)
    ensures AllComplete(w)
  {}

  // ---- What one write does to one screen ----

  lemma AfterClosing(s: Screen, gone: set<Flag>, f: Flag)
    requires s.Complete()
    requires f in gone ==> IsExclusive(f)
    ensures s.WithClosed(gone).IsOpen(f) == (s.IsOpen(f) && f !in gone)
    ensures s.WithClosed(gone).OpenCause(f) == if f in gone && IsPreviewable(f) && s.IsOpen(f) then Explicit
            else s.OpenCause(f)
    ensures s.WithClosed(gone).Writable(f) == s.Writable(f)
  {}

  lemma AfterWriting(s: Screen, flag: Flag, value: bool, f: Flag)
    ensures s.WithFlag(flag, value).IsOpen(f) == if f == flag && s.Writable(flag) then value else s.IsOpen(f)
    ensures s.WithFlag(flag, value).OpenCause(f) ==
            if f == flag && s.Writable(flag) && IsPreviewable(f) && s.IsOpen(f) && !value then Explicit
              else s.OpenCause(f)
    ensures s.WithFlag(flag, value).Writable(f) == s.Writable(f)
  {
    hide Find;
  }

  lemma AfterNoting(s: Screen, flag: Flag, cause: Option<Cause>, f: Flag)
    ensures s.WithCause(flag, cause).IsOpen(f) == s.IsOpen(f)
    ensures s.WithCause(flag, cause).Writable(f) == s.Writable(f)
    ensures s.WithCause(flag, cause).OpenCause(f) ==
            if f == flag && s.causes.Some? && IsSettable(flag) && cause.Some? then cause.value
            else if f == flag && IsSettable(flag) && cause.None? then Explicit
            else s.OpenCause(f)
  {
    hide Find, IsSettable, Screen.WithCause;
    if cause.None? {
      AfterForgetting(s, flag, f);
    } else {
      AfterRecording(s, flag, cause.value, f);
    }
  }

  lemma AfterForgetting(s: Screen, flag: Flag, f: Flag)
    ensures s.WithCause(flag, None).flags == s.flags && s.WithCause(flag, None).causes.Some? == s.causes.Some?
    ensures s.WithCause(flag, None).OpenCause(f) == if f == flag && IsSettable(flag) then Explicit else s.OpenCause(f)
  {
    hide Find, IsSettable;
  }

  lemma AfterRecording(s: Screen, flag: Flag, cause: Cause, f: Flag)
    ensures s.WithCause(flag, Some(cause)).flags == s.flags
            && s.WithCause(flag, Some(cause)).causes.Some? == s.causes.Some?
    ensures s.WithCause(flag, Some(cause)).OpenCause(f) ==
            if f == flag && s.causes.Some? && IsSettable(flag) then cause else s.OpenCause(f)
  {
    hide Find, IsSettable;
  }

  /** No write undeclares a flag. */
  lemma StaysComplete(s: Screen, gone: set<Flag>, flag: Flag, value: bool, cause: Option<Cause>)
    requires s.Complete()
    ensures s.WithClosed(gone).Complete() && s.WithFlag(flag, value).Complete() && s.WithCause(flag, cause).Complete()
  {
    hide Find, IsKnown;
    assert s.flags.Keys == s.WithClosed(gone).flags.Keys == s.WithCause(flag, cause).flags.Keys;
    assert s.flags.Keys <= s.WithFlag(flag, value).flags.Keys;
  }

  lemma OpenMeansDeclared(s: Screen, flag: Flag)
    requires IsSettable(flag) && s.IsOpen(flag)
    ensures s.Writable(flag)
  {}

  // ---- Opening ----

  lemma GoneMembership(isTarget: bool, except: Flag, f: Flag)
    ensures f in Gone(isTarget, except) <==> IsExclusive(f) && !(isTarget && f == except)
  {
    hide Find, Exclusive, Previewable, CompetingWithWallpaper, IsExclusive;
    GroupMembership(f);
  }

  /** What an accepted opening of `flag` turns one screen into. */
  function OpenedScreen(s: Screen, flag: Flag, listed: bool, isTarget: bool, legacy: bool): Screen {
    var noted := if isTarget && legacy then s.WithCause(flag, Some(Explicit)) else s;
    var alone := if IsExclusive(flag) && listed then noted.WithClosed(Gone(isTarget, flag)) else noted;
    if isTarget then alone.WithFlag(flag, true) else alone
  }

  lemma OpenedScreenIs<S>(w: World<S>, states: seq<Handle<S>>, target: Handle<S>, flag: Flag, s: S)
    requires Addresses(w, target) && IsSettable(flag) && s in w
    ensures Opened(w, states, target, flag).world.Keys == w.Keys
    ensures Opened(w, states, target, flag).world[s] ==
            OpenedScreen(w[s], flag, s in ScreensOf(states), IsTarget(s, target), target.Legacy?)
  {
    hide Find, Gone, ScreensOf, IsSettable, IsExclusive, Screen.WithClosed, Screen.WithCause, Screen.WithFlag;
  }

  predicate Closes(flag: Flag, listed: bool, isTarget: bool, f: Flag) {
    IsExclusive(flag) && IsExclusive(f) && listed && !(isTarget && f == flag)
  }

  /** The screen with its cause recorded. */
  lemma NotedAt(s: Screen, noted: Screen, flag: Flag, noting: bool, f: Flag)
    requires s.Complete() && IsSettable(flag) && noted == if noting then s.WithCause(flag, Some(Explicit)) else s
    ensures noted.Complete() && noted.IsOpen(f) == s.IsOpen(f) && noted.Writable(f) == s.Writable(f)
    ensures noted.OpenCause(f) == if noting && f == flag then Explicit else s.OpenCause(f)
  {
    hide Find, IsSettable, Screen.WithCause, Screen.Complete, Screen.IsOpen, Screen.OpenCause, Screen.Writable;
    StaysComplete(s, {}, flag, true, Some(Explicit));
    AfterNoting(s, flag, Some(Explicit), f);
    WithoutTypedState(s, f);
  }

  /** The screen after an exclusive opening closed what it closes. */
  lemma ClosedAt(s: Screen, alone: Screen, flag: Flag, listed: bool, isTarget: bool, f: Flag)
    requires s.Complete() && alone == if IsExclusive(flag) && listed then s.WithClosed(Gone(isTarget, flag)) else s
    ensures alone.Complete() && alone.Writable(f) == s.Writable(f)
    ensures alone.IsOpen(f) == (s.IsOpen(f) && !Closes(flag, listed, isTarget, f))
    ensures alone.OpenCause(f) ==
            if Closes(flag, listed, isTarget, f) && IsPreviewable(f) && s.IsOpen(f) then Explicit else s.OpenCause(f)
    ensures Closes(flag, listed, isTarget, f) ==> !(isTarget && f == flag)
  {
    hide Find, Gone, IsExclusive, IsPreviewable, Screen.WithClosed, Screen.Complete, Screen.IsOpen;
    hide Screen.OpenCause, Screen.Writable;
    if IsExclusive(flag) && listed {
      GoneMembership(isTarget, flag, f);
      var gone := Gone(isTarget, flag);
      assert f in gone <==> Closes(flag, listed, isTarget, f);
      AfterClosing(s, gone, f);
      StaysComplete(s, gone, flag, true, None);
    }
  }

  /** Everything an accepted opening does to a screen, flag by flag. */
  lemma OpenedAt(s: Screen, flag: Flag, listed: bool, isTarget: bool, legacy: bool, f: Flag)
    requires s.Complete() && IsSettable(flag)
    ensures var after := OpenedScreen(s, flag, listed, isTarget, legacy);
            && after.Complete()
            && after.Writable(f) == s.Writable(f)
            && after.IsOpen(f) == ((s.IsOpen(f) && !Closes(flag, listed, isTarget, f))
                 || (isTarget && f == flag && s.Writable(flag)))
            && after.OpenCause(f) ==
               if Closes(flag, listed, isTarget, f) && IsPreviewable(f) && s.IsOpen(f) then Explicit
               else if isTarget && f == flag && legacy then Explicit
               else s.OpenCause(f)
  {
    hide Find, Gone, Closes, IsSettable, IsExclusive, IsPreviewable, Screen.WithClosed, Screen.WithCause;
    hide Screen.WithFlag;
    hide Screen.Complete, Screen.IsOpen, Screen.OpenCause, Screen.Writable;
    var noted := if isTarget && legacy then s.WithCause(flag, Some(Explicit)) else s;
    NotedAt(s, noted, flag, isTarget && legacy, f);
    var alone := if IsExclusive(flag) && listed then noted.WithClosed(Gone(isTarget, flag)) else noted;
    ClosedAt(noted, alone, flag, listed, isTarget, f);
    AfterWriting(alone, flag, true, f);
    StaysComplete(alone, {}, flag, true, None);
  }

  lemma WithoutTypedState(s: Screen, f: Flag)
    ensures s.causes.None? ==> s.OpenCause(f) == Explicit
  {}

  ghost predicate Covers<S>(w: World<S>, states: seq<Handle<S>>) { w.Keys <= ScreensOf(states) }

  /** A list covers the seat exactly if every screen is in it, through either handle. */
  lemma CoversExactly<S>(w: World<S>, states: seq<Handle<S>>)
    ensures Covers(w, states) <==> forall s :: s in w ==> Legacy(s) in states || Typed(s) in states
  {
    if forall s :: s in w ==> Legacy(s) in states || Typed(s) in states {
      forall s | s in w ensures s in ScreensOf(states) {
        assert Legacy(s).screen == s && Typed(s).screen == s;
      }
    }
  }

  /**
   * An accepted exclusive opening leaves `flag` on the target as the only exclusive surface of the
   * listed screens, and the non-exclusive flags of every screen as they were. It is explicit,
   * unless it was a preview there and was opened through the typed handle.
   */
  lemma ExclusiveOpening<S>(w: World<S>, states: seq<Handle<S>>, target: Handle<S>, flag: Flag)
    requires AllComplete(w) && Addresses(w, target) && IsExclusive(flag)
    ensures Opened(w, states, target, flag).result == w[target.screen].Writable(flag)
    ensures var after, t := Opened(w, states, target, flag).world, target.screen;
            && after.Keys == w.Keys && AllComplete(after)
            && (forall s, f :: s in w && IsExclusive(f) ==>
                 after[s].IsOpen(f) ==
                   ((s == t && f == flag && w[t].Writable(flag)) || (s !in ScreensOf(states) && w[s].IsOpen(f))))
            && (forall s, f :: s in w && !IsExclusive(f) ==> after[s].IsOpen(f) == w[s].IsOpen(f))
            && (after[t].IsPreview(flag) <==> target.Typed? && w[t].IsPreview(flag))
  {
    hide Find, ScreensOf, OpenedScreen, Screen.Complete, Screen.IsOpen, Screen.Writable, Screen.OpenCause, Opened;
    var after, t := Opened(w, states, target, flag).world, target.screen;
    ExclusiveIsSettable(flag);
    forall s, f | s in w
      ensures after.Keys == w.Keys && after[s].Complete()
      ensures IsExclusive(f) ==>
        after[s].IsOpen(f) ==
          ((s == t && f == flag && w[t].Writable(flag)) || (s !in ScreensOf(states) && w[s].IsOpen(f)))
      ensures !IsExclusive(f) ==> after[s].IsOpen(f) == w[s].IsOpen(f)
    {
      OpenedWorldAt(w, states, target, flag, s, f);
      if s == t && f == flag && w[s].IsOpen(f) {
        OpenMeansDeclared(w[s], f);
      }
    }
    OpenedWorldAt(w, states, target, flag, t, flag);
    OpenedResult(w, states, target, flag);
  }

  lemma ExclusiveIsSettable(flag: Flag)
    ensures IsExclusive(flag) ==> IsSettable(flag)
  {}

  lemma OpenedResult<S>(w: World<S>, states: seq<Handle<S>>, target: Handle<S>, flag: Flag)
    requires AllComplete(w) && Addresses(w, target) && IsSettable(flag)
    ensures Opened(w, states, target, flag).result == w[target.screen].Writable(flag)
  {
    hide Find, Gone, IsSettable, IsExclusive, Screen.WithClosed, Screen.WithCause, Screen.WithFlag;
    hide Screen.Complete, Screen.Writable;
    var s, legacy := w[target.screen], target.Legacy?;
    var noted := if legacy then s.WithCause(flag, Some(Explicit)) else s;
    NotedAt(s, noted, flag, legacy, flag);
    if IsExclusive(flag) && target.screen in ScreensOf(states) {
      ClosedAt(noted, noted.WithClosed(Gone(true, flag)), flag, true, true, flag);
    }
  }

  lemma OpenedWorldAt<S>(w: World<S>, states: seq<Handle<S>>, target: Handle<S>, flag: Flag, s: S, f: Flag)
    requires AllComplete(w) && Addresses(w, target) && IsSettable(flag) && s in w
    ensures var after := Opened(w, states, target, flag).world;
            var isTarget, listed := s == target.screen, s in ScreensOf(states);
            && after.Keys == w.Keys && after[s].Complete()
            && after[s].IsOpen(f) ==
                 ((w[s].IsOpen(f) && !Closes(flag, listed, isTarget, f))
                   || (isTarget && f == flag && w[s].Writable(flag)))
            && after[s].OpenCause(f) ==
               if Closes(flag, listed, isTarget, f) && IsPreviewable(f) && w[s].IsOpen(f) then Explicit
               else if isTarget && f == flag && target.Legacy? then Explicit
               else w[s].OpenCause(f)
  {
    hide Find, ScreensOf, OpenedScreen, Closes, IsSettable, IsPreviewable, Screen.Complete, Screen.IsOpen;
    hide Screen.Writable, Screen.OpenCause, Opened;
    OpenedScreenIs(w, states, target, flag, s);
    OpenedAt(w[s], flag, s in ScreensOf(states), IsTarget(s, target), target.Legacy?, f);
  }

  /** On a fully listed seat the opened pair is the only exclusive one left, and no other screen shows a preview. */
  lemma SeatWideOpening<S>(w: World<S>, states: seq<Handle<S>>, target: Handle<S>, flag: Flag, others: seq<Handle<S>>)
    requires Tidy(w) && Covers(w, states) && Addresses(w, target) && IsExclusive(flag)
             && w[target.screen].Writable(flag)
    ensures var after := Opened(w, states, target, flag).world;
            && (forall s, f :: s in w ==> (ExclusiveOpen(after[s], f) <==> s == target.screen && f == flag))
            && !PreviewElsewhere(after, others, target)
  {
    hide Find, ScreensOf, Opened, Previewable, Tidy, Screen.IsOpen, Screen.Writable;
    TidyIsComplete(w);
    ExclusiveIsSettable(flag);
    OpenedStaysTidy(w, states, target, flag);
    ExclusiveOpening(w, states, target, flag);
    var after := Opened(w, states, target, flag).world;
    forall h, f | h in others && SeesPreview(after, h, f) ensures h.screen == target.screen {
      PreviewNeedsOpen(after, h.screen, f);
    }
  }

  /** One exclusive opening that is given every screen puts the whole seat in order, whatever it showed before. */
  lemma FullOpeningRepairs<S>(w: World<S>, states: seq<Handle<S>>, target: Handle<S>, flag: Flag)
    requires Tidy(w) && Covers(w, states) && Addresses(w, target) && IsExclusive(flag)
    ensures Invariant(Opened(w, states, target, flag).world)
  {
    hide Find, IsExclusive, ScreensOf, Opened, Tidy, Screen.IsOpen, Screen.Writable, Screen.IsPreview;
    TidyIsComplete(w);
    ExclusiveIsSettable(flag);
    OpenedStaysTidy(w, states, target, flag);
    ExclusiveOpening(w, states, target, flag);
    AloneKeepsInvariant(Opened(w, states, target, flag).world, target.screen, flag);
  }

  lemma PreviewNeedsOpen<S>(w: World<S>, s: S, f: Flag)
    requires Tidy(w) && s in w && w[s].IsPreview(f)
    ensures ExclusiveOpen(w[s], f)
  {
    hide Find, Screen.IsOpen;
    PreviewIsOpen(w, s, f);
    PreviewableIsExclusive(f);
  }

  lemma PreviewableIsExclusive(f: Flag)
    ensures IsPreviewable(f) ==> IsExclusive(f) && IsSettable(f) && !IsRetained(f)
  {}

  /** No exclusive surface opened, none turned explicit: the invariant stays. */
  lemma ShrinkingKeepsInvariant<S>(w: World<S>, after: World<S>)
    requires Invariant(w) && after.Keys == w.Keys && Tidy(after)
    requires forall s, f :: s in w && ExclusiveOpen(after[s], f) ==> ExclusiveOpen(w[s], f)
    requires forall s, f :: s in w && ExplicitOpen(after[s], f) ==> ExplicitOpen(w[s], f)
    ensures Invariant(after)
  {
    hide Tidy, ExclusiveOpen, ExplicitOpen, Screen.IsPreview, Screen.IsOpen;
  }

  /** A single exclusive surface on the seat satisfies the invariant. */
  lemma AloneKeepsInvariant<S>(after: World<S>, t: S, flag: Flag)
    requires Tidy(after)
    requires forall s, f :: s in after && ExclusiveOpen(after[s], f) ==> s == t && f == flag
    ensures Invariant(after)
  {
    hide Tidy, ExclusiveOpen, Screen.IsPreview, Screen.IsOpen;
  }

  /** Whether an opening leaves nothing exclusive beside `flag` on the target's screen. */
  ghost predicate AloneOnTarget<S>(w: World<S>, states: seq<Handle<S>>, target: Handle<S>, flag: Flag)
    requires Addresses(w, target)
  {
    target.screen in ScreensOf(states) || forall f :: ExclusiveOpen(w[target.screen], f) ==> f == flag
  }

  /** Whether the opened surface stays a preview: a typed handle records no cause. */
  predicate StaysPreview<S(==)>(w: World<S>, target: Handle<S>, flag: Flag)
    requires Addresses(w, target)
  {
    target.Typed? && w[target.screen].IsPreview(flag)
  }

  /** Whether no other screen that an opening leaves alone shows something explicit. */
  ghost predicate NothingExplicitUnlisted<S>(w: World<S>, states: seq<Handle<S>>, target: Handle<S>)
    requires Addresses(w, target)
  {
    forall s, f :: s in w && s !in ScreensOf(states) && s != target.screen ==> !ExplicitOpen(w[s], f)
  }

  /** When opening `flag` keeps the invariant, whatever list of screens it is given. */
  ghost predicate OpeningSafe<S>(w: World<S>, states: seq<Handle<S>>, target: Handle<S>, flag: Flag) {
    || !Addresses(w, target) || !IsSettable(flag) || !IsExclusive(flag) || !w[target.screen].Writable(flag)
    || (&& AloneOnTarget(w, states, target, flag)
        && (StaysPreview(w, target, flag) || NothingExplicitUnlisted(w, states, target)))
  }

  lemma OpeningKeepsInvariantExactly<S>(w: World<S>, states: seq<Handle<S>>, target: Handle<S>, flag: Flag)
    requires Invariant(w)
    ensures Invariant(Opened(w, states, target, flag).world) <==> OpeningSafe(w, states, target, flag)
  {
    hide Find, IsSettable, IsExclusive, ScreensOf, Invariant, Opened, Screen.Writable, AloneOnTarget, StaysPreview;
    if !Addresses(w, target) || !IsSettable(flag) {
      RefusedOpening(w, states, target, flag);
    } else if !IsExclusive(flag) || !w[target.screen].Writable(flag) {
      ShrinkingOpening(w, states, target, flag);
    } else {
      ExclusiveOpeningExactly(w, states, target, flag);
    }
  }

  lemma RefusedOpening<S>(w: World<S>, states: seq<Handle<S>>, target: Handle<S>, flag: Flag)
    requires !Addresses(w, target) || !IsSettable(flag)
    ensures Opened(w, states, target, flag).world == w
  {}

  /** An opening that opens nothing exclusive leaves no more exclusive surfaces than there were. */
  lemma ShrinkingOpening<S>(w: World<S>, states: seq<Handle<S>>, target: Handle<S>, flag: Flag)
    requires Invariant(w) && Addresses(w, target) && IsSettable(flag)
    requires !IsExclusive(flag) || !w[target.screen].Writable(flag)
    ensures Invariant(Opened(w, states, target, flag).world)
  {
    hide *;
    var after := Opened(w, states, target, flag).world;
    InvariantIsTidy(w);
    OpenedStaysTidy(w, states, target, flag);
    forall s, f | s in w ensures ExclusiveOpen(after[s], f) ==> ExclusiveOpen(w[s], f) {
      OpenedInvariantAt(w, states, target, flag, s, f);
    }
    forall s, f | s in w ensures ExplicitOpen(after[s], f) ==> ExplicitOpen(w[s], f) {
      OpenedInvariantAt(w, states, target, flag, s, f);
    }
    ShrinkingKeepsInvariant(w, after);
  }

  lemma ExclusiveOpeningExactly<S>(w: World<S>, states: seq<Handle<S>>, target: Handle<S>, flag: Flag)
    requires Invariant(w) && Addresses(w, target) && IsExclusive(flag) && w[target.screen].Writable(flag)
    ensures Invariant(Opened(w, states, target, flag).world) <==>
            && AloneOnTarget(w, states, target, flag)
            && (StaysPreview(w, target, flag) || NothingExplicitUnlisted(w, states, target))
  {
    hide *;
    AddressedIsKnown(w, target);
    var after, t := Opened(w, states, target, flag).world, target.screen;
    ExclusiveIsSettable(flag);
    InvariantIsTidy(w);
    TidyIsComplete(w);
    OpenedStaysTidy(w, states, target, flag);
    forall s, f | s in w ensures OpensAlone(w, after, ScreensOf(states), t, flag, StaysPreview(w, target, flag), s, f) {
      OpensAloneAt(w, states, target, flag, s, f);
    }
    OpensAloneExactly(w, after, ScreensOf(states), t, flag, StaysPreview(w, target, flag));
    OpeningConditions(w, states, target, flag);
  }

  lemma AddressedIsKnown<S>(w: World<S>, target: Handle<S>)
    requires Addresses(w, target)
    ensures !target.Null? && target.screen in w
  {}

  lemma OpeningConditions<S>(w: World<S>, states: seq<Handle<S>>, target: Handle<S>, flag: Flag)
    requires Addresses(w, target)
    ensures AloneOnTarget(w, states, target, flag) <==>
              (target.screen in ScreensOf(states) || forall f :: ExclusiveOpen(w[target.screen], f) ==> f == flag)
    ensures NothingExplicitUnlisted(w, states, target) <==>
              forall s, f :: s in w && s !in ScreensOf(states) && s != target.screen ==> !ExplicitOpen(w[s], f)
  {}

  /** What an exclusive opening on screen `t` makes of one flag of one screen. */
  predicate OpensAlone<S(==)>(w: World<S>, after: World<S>, listed: set<S>, t: S, flag: Flag, stays: bool, s: S,
                              f: Flag)
    requires s in w && s in after
  {
    && ExclusiveOpen(after[s], f) == ((s == t && f == flag) || (s !in listed && ExclusiveOpen(w[s], f)))
    && ExplicitOpen(after[s], f) == if s == t && f == flag then !stays else s !in listed && ExplicitOpen(w[s], f)
  }

  lemma OpensAloneExactly<S>(w: World<S>, after: World<S>, listed: set<S>, t: S, flag: Flag, stays: bool)
    requires Invariant(w) && after.Keys == w.Keys && Tidy(after) && t in w
    requires forall s, f :: s in w ==> OpensAlone(w, after, listed, t, flag, stays, s, f)
    ensures Invariant(after) <==>
            && (t in listed || forall f :: ExclusiveOpen(w[t], f) ==> f == flag)
            && (stays || forall s, f :: s in w && s !in listed && s != t ==> !ExplicitOpen(w[s], f))
  {
    hide Tidy, Screen.IsPreview, Screen.IsOpen, IsExclusive;
    forall s, f | s in w
      ensures ExclusiveOpen(after[s], f) == ((s == t && f == flag) || (s !in listed && ExclusiveOpen(w[s], f)))
      ensures ExplicitOpen(after[s], f) == if s == t && f == flag then !stays else s !in listed && ExplicitOpen(w[s], f)
      ensures ExplicitOpen(w[s], f) ==> ExclusiveOpen(w[s], f)
    {
      assert OpensAlone(w, after, listed, t, flag, stays, s, f);
    }
    hide OpensAlone, ExclusiveOpen, ExplicitOpen;
    if && (t in listed || forall f :: ExclusiveOpen(w[t], f) ==> f == flag)
       && (stays || forall s, f :: s in w && s !in listed && s != t ==> !ExplicitOpen(w[s], f)) {
      assert OnePerScreen(after) && OneExplicit(after);
    }
    if Invariant(after) {
      forall f | t !in listed && ExclusiveOpen(w[t], f) ensures f == flag {
        assert ExclusiveOpen(after[t], f) && ExclusiveOpen(after[t], flag);
      }
      forall s, f | !stays && s in w && s !in listed && s != t ensures !ExplicitOpen(w[s], f) {
        assert ExplicitOpen(after[t], flag) && ExplicitOpen(after[s], f) == ExplicitOpen(w[s], f);
      }
    }
  }

  /** An opening keeps every flag declared and every preview open. */
  lemma OpenedStaysTidy<S>(w: World<S>, states: seq<Handle<S>>, target: Handle<S>, flag: Flag)
    requires Tidy(w) && Addresses(w, target) && IsSettable(flag)
    ensures var after := Opened(w, states, target, flag).world; after.Keys == w.Keys && Tidy(after)
  {
    hide Find, IsSettable, IsPreviewable, Opened, ExclusiveOpen, ExplicitOpen, OpensAlone, StaysPreview;
    hide Screen.IsOpen, Screen.IsPreview, Screen.Complete;
    var after := Opened(w, states, target, flag).world;
    OpenedInvariantAt(w, states, target, flag, target.screen, flag);
    assert after.Keys == w.Keys;
    forall s | s in after ensures after[s].Complete() { OpenedInvariantAt(w, states, target, flag, s, flag); }
    forall s | s in after ensures PreviewsOpenOn(after[s]) {
      forall f | after[s].IsPreview(f) ensures IsPreviewable(f) && after[s].IsOpen(f) {
        OpenedInvariantAt(w, states, target, flag, s, f);
      }
    }
    assert AllComplete(after) && PreviewsAreOpen(after);
  }

  lemma OpenedInvariantAt<S>(w: World<S>, states: seq<Handle<S>>, target: Handle<S>, flag: Flag, s: S, f: Flag)
    requires Tidy(w) && Addresses(w, target) && IsSettable(flag) && s in w
    ensures var after, opens := Opened(w, states, target, flag).world, w[target.screen].Writable(flag);
            && after.Keys == w.Keys && after[s].Complete()
            && (after[s].IsPreview(f) ==> IsPreviewable(f) && after[s].IsOpen(f))
            && (!IsExclusive(flag) || !opens ==> ExclusiveOpen(after[s], f) ==> ExclusiveOpen(w[s], f))
            && (!IsExclusive(flag) || !opens ==> ExplicitOpen(after[s], f) ==> ExplicitOpen(w[s], f))
  {
    hide Find, IsSettable, IsPreviewable, IsExclusive, ScreensOf, Opened;
    hide Screen.IsOpen, Screen.Writable, Screen.OpenCause, Screen.Complete;
    hide Tidy, AllComplete;
    TidyIsComplete(w);
    PreviewIsOpen(w, s, f);
    OpenedWorldAt(w, states, target, flag, s, f);
    if w[s].IsOpen(f) && f == flag {
      OpenMeansDeclared(w[s], f);
    }
  }

  lemma OpensAloneAt<S>(w: World<S>, states: seq<Handle<S>>, target: Handle<S>, flag: Flag, s: S, f: Flag)
    requires AllComplete(w) && Addresses(w, target) && IsExclusive(flag) && w[target.screen].Writable(flag) && s in w
    ensures var after := Opened(w, states, target, flag).world;
            && after.Keys == w.Keys
            && OpensAlone(w, after, ScreensOf(states), target.screen, flag, StaysPreview(w, target, flag), s, f)
  {
    hide Find, IsSettable, IsPreviewable, IsExclusive, ScreensOf, Opened;
    hide Screen.IsOpen, Screen.Writable, Screen.OpenCause, Screen.Complete;
    hide AllComplete;
    ExclusiveIsSettable(flag);
    OpenedWorldAt(w, states, target, flag, s, f);
  }

  /** The documented list of all screens is enough. */
  lemma OpeningKeepsInvariant<S>(w: World<S>, states: seq<Handle<S>>, target: Handle<S>, flag: Flag)
    requires Invariant(w) && Covers(w, states)
    ensures OpeningSafe(w, states, target, flag) && Invariant(Opened(w, states, target, flag).world)
  {
    hide Invariant, Opened, ScreensOf, ExclusiveOpen, ExplicitOpen;
    OpeningKeepsInvariantExactly(w, states, target, flag);
  }

  lemma PreviewIsOpen<S>(w: World<S>, s: S, f: Flag)
    requires Tidy(w) && s in w
    ensures w[s].IsPreview(f) ==> IsPreviewable(f) && w[s].IsOpen(f)
  {}

  // ---- Closing ----

  /** Closing one flag on one screen, flag by flag. */
  lemma ClosedOnAt<S>(w: World<S>, target: Handle<S>, flag: Flag, s: S, f: Flag)
    requires AllComplete(w) && Addresses(w, target) && IsSettable(flag) && s in w
    ensures ClosedOn(w, target, flag).world.Keys == w.Keys
    ensures ClosedOn(w, target, flag).world[s].Complete()
    ensures ClosedOn(w, target, flag).world[s].IsOpen(f) == (w[s].IsOpen(f) && !(s == target.screen && f == flag))
    ensures ClosedOn(w, target, flag).world[s].IsPreview(f) ==>
              w[s].IsPreview(f) && !(s == target.screen && f == flag && IsPreviewable(f) && w[s].IsOpen(f))
    ensures s != target.screen || f != flag ==> ClosedOn(w, target, flag).world[s].OpenCause(f) == w[s].OpenCause(f)
  {
    hide Find, IsSettable, IsPreviewable, Screen.WithFlag, Screen.WithCause, Screen.IsOpen, Screen.Writable;
    hide Screen.OpenCause, Screen.Complete;
    var t := w[target.screen];
    var noted := if target.Legacy? then t.WithCause(flag, None) else t;
    AfterNoting(t, flag, None, f);
    StaysComplete(t, {}, flag, false, None);
    AfterWriting(noted, flag, false, f);
    StaysComplete(noted, {}, flag, false, None);
    if t.IsOpen(flag) {
      OpenMeansDeclared(t, flag);
    }
  }

  lemma ClosingStaysTidy<S>(w: World<S>, target: Handle<S>, flag: Flag)
    requires Tidy(w)
    ensures var after := ClosedOn(w, target, flag).world; after.Keys == w.Keys && Tidy(after)
  {
    hide Find, IsSettable, IsPreviewable, ClosedOn, Screen.IsOpen, Screen.Complete, Screen.IsPreview;
    if Addresses(w, target) && IsSettable(flag) {
      var after := ClosedOn(w, target, flag).world;
      ClosedOnAt(w, target, flag, target.screen, flag);
      assert after.Keys == w.Keys;
      forall s | s in after ensures after[s].Complete() { ClosedOnAt(w, target, flag, s, flag); }
      forall s | s in after ensures PreviewsOpenOn(after[s]) {
        forall f | after[s].IsPreview(f) ensures IsPreviewable(f) && after[s].IsOpen(f) {
          ClosedOnAt(w, target, flag, s, f);
          PreviewIsOpen(w, s, f);
        }
      }
      assert AllComplete(after) && PreviewsAreOpen(after);
    } else {
      RefusedClose(w, target, flag);
    }
  }

  lemma ClosingKeepsInvariant<S>(w: World<S>, target: Handle<S>, flag: Flag)
    requires Invariant(w)
    ensures Invariant(ClosedOn(w, target, flag).world)
  {
    hide *;
    InvariantIsTidy(w);
    TidyIsComplete(w);
    if Addresses(w, target) && IsSettable(flag) {
      var after := ClosedOn(w, target, flag).world;
      ClosingStaysTidy(w, target, flag);
      forall s, f | s in w
        ensures ExclusiveOpen(after[s], f) ==> ExclusiveOpen(w[s], f)
        ensures ExplicitOpen(after[s], f) ==> ExplicitOpen(w[s], f)
      {
        ClosingShrinks(w, target, flag, s, f);
      }
      ShrinkingKeepsInvariant(w, after);
    } else {
      RefusedClose(w, target, flag);
    }
  }

  lemma ClosingShrinks<S>(w: World<S>, target: Handle<S>, flag: Flag, s: S, f: Flag)
    requires AllComplete(w) && Addresses(w, target) && IsSettable(flag) && s in w
    ensures ClosedOn(w, target, flag).world.Keys == w.Keys
    ensures ExclusiveOpen(ClosedOn(w, target, flag).world[s], f) ==> ExclusiveOpen(w[s], f)
    ensures ExplicitOpen(ClosedOn(w, target, flag).world[s], f) ==> ExplicitOpen(w[s], f)
  {
    hide Find, IsSettable, IsExclusive, IsPreviewable, ClosedOn, AllComplete, Screen.IsOpen, Screen.OpenCause;
    ClosedOnAt(w, target, flag, s, f);
  }

  /** Closing on every listed screen closes exactly the listed occurrences of the flag. */
  lemma {:induction false} ClosedOnEachAt<S>(w: World<S>, states: seq<Handle<S>>, flag: Flag)
    requires AllComplete(w) && IsSettable(flag)
    ensures var after := ClosedOnEach(w, states, flag);
            && AllComplete(after) && after.Keys == w.Keys
            && forall s, f :: s in w ==>
                 after[s].IsOpen(f) == (w[s].IsOpen(f) && !(f == flag && s in ScreensOf(states)))
  {
    hide Find, IsSettable, ClosedOn, ScreensOf, Screen.IsOpen, Screen.Complete;
    if states == [] {
      NoneListed<S>();
    } else {
      var n := |states| - 1;
      var before := ClosedOnEach(w, states[..n], flag);
      ClosedOnEachAt(w, states[..n], flag);
      ListedOneMore(states, n);
      if Addresses(before, states[n]) {
        var after := ClosedOn(before, states[n], flag).world;
        ClosedOnAt(before, states[n], flag, states[n].screen, flag);
        forall s | s in after ensures after[s].Complete() { ClosedOnAt(before, states[n], flag, s, flag); }
        forall s, f | s in w
          ensures after[s].IsOpen(f) == (before[s].IsOpen(f) && !(s == states[n].screen && f == flag))
        {
          ClosedOnAt(before, states[n], flag, s, f);
        }
      } else {
        RefusedClose(before, states[n], flag);
      }
    }
  }

  lemma NoneListed<S>()
    ensures ScreensOf<S>([]) == {}
  {}

  lemma {:induction false} ClosingEachStaysTidy<S>(w: World<S>, states: seq<Handle<S>>, flag: Flag)
    requires Tidy(w)
    ensures var after := ClosedOnEach(w, states, flag);
            && after.Keys == w.Keys && Tidy(after) && (Invariant(w) ==> Invariant(after))
  {
    hide Tidy, Invariant, ClosedOn;
    if states == [] {
    } else {
      var n := |states| - 1;
      var before := ClosedOnEach(w, states[..n], flag);
      ClosingEachStaysTidy(w, states[..n], flag);
      ClosingStaysTidy(before, states[n], flag);
      if Invariant(before) {
        ClosingKeepsInvariant(before, states[n], flag);
      }
    }
  }

  lemma InvariantIsComplete<S>(w: World<S>)
    requires Invariant(w)
    ensures AllComplete(w)
  {}

  lemma RefusedClose<S>(w: World<S>, target: Handle<S>, flag: Flag)
    requires !Addresses(w, target) || !IsSettable(flag)
    ensures ClosedOn(w, target, flag).world == w
  {}

  lemma ListedOneMore<S>(states: seq<Handle<S>>, n: nat)
    requires n == |states| - 1
    ensures ScreensOf(states) == ScreensOf(states[..n]) + if states[n].Null? then {} else {states[n].screen}
  {
    assert states == states[..n] + [states[n]];
  }

  // ---- Previews ----

  /** Whether a preview request can record its cause: only a legacy handle with a typed state can. */
  predicate RecordsCauses<S(==)>(w: World<S>, target: Handle<S>) {
    target.Legacy? && Addresses(w, target) && w[target.screen].causes.Some?
  }

  /** An accepted preview, flag by flag. */
  lemma PreviewOpenedAt<S>(w: World<S>, states: seq<Handle<S>>, target: Handle<S>, flag: Flag, pointer: Pointer, s: S,
                           f: Flag)
    requires AllComplete(w) && !PreviewRefused(w, states, target, flag, pointer) && s in w
    ensures PreviewOpened(w, states, target, flag, pointer).world.Keys == w.Keys
    ensures PreviewOpened(w, states, target, flag, pointer).world[s].Complete()
    ensures PreviewOpened(w, states, target, flag, pointer).world[s].IsOpen(f) ==
            (w[s].IsOpen(f) || (s == target.screen && f == flag && w[s].Writable(flag)))
    ensures PreviewOpened(w, states, target, flag, pointer).world[s].OpenCause(f) ==
            if s == target.screen && f == flag && RecordsCauses(w, target) then PreviewCause(pointer)
              else w[s].OpenCause(f)
  {
    hide Find, IsPreviewable, PreviewRefused, PreviewOpened, PreviewedScreen;
    hide Screen.IsOpen, Screen.Writable, Screen.OpenCause, Screen.Complete;
    PreviewedScreenIs(w, states, target, flag, pointer, s);
    PreviewedAt(w[target.screen], flag, PreviewCause(pointer), target.Legacy?, f);
  }

  /**
   * What an accepted preview request answers, and which cause it records: a hover and a drag each their own.
   * Repeating the gesture changes nothing. A refused request answers false and changes nothing.
   */
  lemma PreviewRecordsItsGesture<S>(w: World<S>, states: seq<Handle<S>>, target: Handle<S>, flag: Flag,
                                    pointer: Pointer)
    requires AllComplete(w)
    ensures var o := PreviewOpened(w, states, target, flag, pointer);
            if PreviewRefused(w, states, target, flag, pointer) then o == Outcome(w, false)
            else
              && Addresses(w, target) && o.world.Keys == w.Keys && o.result == w[target.screen].Writable(flag)
              && (RecordsCauses(w, target) ==>
                    var gesture := if pointer == Hover then HoverPreview else DragPreview;
                    var before, after := w[target.screen], o.world[target.screen];
                    && (pointer != Hover ==> pointer == Drag)
                    && after.IsOpen(flag) && after.OpenCause(flag) == gesture
                    && (before.IsOpen(flag) && before.OpenCause(flag) == gesture ==> o == Outcome(w, true)))
  {
    hide Find, IsPreviewable, PreviewRefused, RecordsCauses, PreviewCause, PreviewOpened;
    hide Screen.IsOpen, Screen.Writable, Screen.OpenCause, Screen.Complete;
    PreviewAnswers(w, states, target, flag, pointer);
    if !PreviewRefused(w, states, target, flag, pointer) {
      var t := target.screen;
      GestureCause(pointer);
      PreviewedScreenIs(w, states, target, flag, pointer, t);
      PreviewOpenedAt(w, states, target, flag, pointer, t, flag);
      if RecordsCauses(w, target) {
        RecordingIsWritable(w, target, flag);
      }
    }
  }

  lemma GestureCause(pointer: Pointer)
    ensures pointer == Hover ==> PreviewCause(pointer) == HoverPreview
    ensures pointer == Drag ==> PreviewCause(pointer) == DragPreview
  {}

  lemma RecordingIsWritable<S>(w: World<S>, target: Handle<S>, flag: Flag)
    requires AllComplete(w) && RecordsCauses(w, target) && IsPreviewable(flag)
    ensures w[target.screen].Writable(flag)
  {
    PreviewableIsExclusive(flag);
    DeclaredIsWritable(w[target.screen], flag);
  }

  lemma PreviewAnswers<S>(w: World<S>, states: seq<Handle<S>>, target: Handle<S>, flag: Flag, pointer: Pointer)
    requires AllComplete(w)
    ensures var o := PreviewOpened(w, states, target, flag, pointer);
            if PreviewRefused(w, states, target, flag, pointer) then o == Outcome(w, false)
            else
              && Addresses(w, target) && (pointer == Hover || pointer == Drag) && IsPreviewable(flag)
              && o.result == w[target.screen].Writable(flag)
              && (RecordsCauses(w, target) && w[target.screen].IsOpen(flag)
                  && w[target.screen].OpenCause(flag) == PreviewCause(pointer)
                  ==> o == Outcome(w, true))
  {
    hide Find, HasLocalExclusive, PreviewCause, IsPreviewable, IsSettable;
    hide Screen.IsOpen, Screen.OpenCause, Screen.Writable, Screen.WithFlag, Screen.WithCause, Screen.Complete;
    if !PreviewRefused(w, states, target, flag, pointer) {
      AfterNoting(w[target.screen], flag, Some(PreviewCause(pointer)), flag);
      if RecordsCauses(w, target) {
        RecordingIsWritable(w, target, flag);
      }
    }
  }

  /** What an accepted preview of `flag` turns its target's screen into. */
  function PreviewedScreen(s: Screen, flag: Flag, cause: Cause, legacy: bool): Screen {
    if s.IsOpen(flag) && legacy && s.causes.Some? && s.OpenCause(flag) == cause then s
    else (if legacy then s.WithCause(flag, Some(cause)) else s).WithFlag(flag, true)
  }

  lemma PreviewedScreenIs<S>(w: World<S>, states: seq<Handle<S>>, target: Handle<S>, flag: Flag, pointer: Pointer, s: S)
    requires !PreviewRefused(w, states, target, flag, pointer) && s in w
    ensures Addresses(w, target) && IsPreviewable(flag) && (pointer == Hover || pointer == Drag)
    ensures PreviewOpened(w, states, target, flag, pointer).world.Keys == w.Keys
    ensures PreviewOpened(w, states, target, flag, pointer).world[s] ==
            if s == target.screen then PreviewedScreen(w[s], flag, PreviewCause(pointer), target.Legacy?) else w[s]
  {
    hide Find, IsPreviewable, HasLocalExclusive, Screen.WithFlag, Screen.WithCause, Screen.IsOpen, Screen.OpenCause;
  }

  lemma PreviewedAt(s: Screen, flag: Flag, cause: Cause, legacy: bool, f: Flag)
    requires s.Complete() && IsPreviewable(flag)
    ensures var after := PreviewedScreen(s, flag, cause, legacy);
            && after.Complete()
            && after.IsOpen(f) == (s.IsOpen(f) || (f == flag && s.Writable(flag)))
            && after.OpenCause(f) == if f == flag && legacy && s.causes.Some? then cause else s.OpenCause(f)
  {
    hide Find, IsPreviewable, IsSettable, Screen.WithFlag, Screen.WithCause, Screen.IsOpen, Screen.Writable;
    hide Screen.OpenCause, Screen.Complete;
    PreviewableIsExclusive(flag);
    var noted := if legacy then s.WithCause(flag, Some(cause)) else s;
    AfterNoting(s, flag, Some(cause), f);
    WithoutTypedState(s, f);
    StaysComplete(s, {}, flag, true, Some(cause));
    AfterWriting(noted, flag, true, f);
    StaysComplete(noted, {}, flag, true, Some(cause));
  }

  /**
   * When a preview request keeps the invariant: it is turned down, or its cause can be recorded,
   * or it writes nothing, or nothing else on the seat is explicit.
   */
  ghost predicate PreviewSafe<S>(w: World<S>, states: seq<Handle<S>>, target: Handle<S>, flag: Flag, pointer: Pointer) {
    || PreviewRefused(w, states, target, flag, pointer)
    || RecordsCauses(w, target)
    || !w[target.screen].Writable(flag)
    || forall s, f :: s in w ==> !ExplicitOpen(w[s], f)
  }

  lemma PreviewKeepsInvariantExactly<S>(w: World<S>, states: seq<Handle<S>>, target: Handle<S>, flag: Flag,
                                        pointer: Pointer)
    requires Invariant(w)
    ensures Invariant(PreviewOpened(w, states, target, flag, pointer).world) <==>
            PreviewSafe(w, states, target, flag, pointer)
  {
    hide Find, HasLocalExclusive;
    if !PreviewRefused(w, states, target, flag, pointer) {
      if RecordsCauses(w, target) {
        RecordedPreviewKeepsInvariant(w, states, target, flag, pointer);
      } else {
        UnrecordedPreviewExactly(w, states, target, flag, pointer);
      }
    }
  }

  /** Nothing exclusive is open on the target of an accepted preview except the previewed flag itself. */
  lemma AcceptedPreviewIsLocal<S>(w: World<S>, states: seq<Handle<S>>, target: Handle<S>, flag: Flag, pointer: Pointer,
                                  f: Flag)
    requires !PreviewRefused(w, states, target, flag, pointer)
    ensures IsPreviewable(flag) && Addresses(w, target)
    ensures ExclusiveOpen(w[target.screen], f) ==> f == flag
    ensures w[target.screen].IsOpen(flag) ==> SeesPreview(w, target, flag)
  {
    hide Find, Exclusive, Previewable, CompetingWithWallpaper, Screen.IsOpen;
    GroupMembership(f);
  }

  lemma PreviewStaysTidy<S>(w: World<S>, states: seq<Handle<S>>, target: Handle<S>, flag: Flag, pointer: Pointer)
    requires Tidy(w) && !PreviewRefused(w, states, target, flag, pointer)
    ensures var after := PreviewOpened(w, states, target, flag, pointer).world; after.Keys == w.Keys && Tidy(after)
  {
    hide Find, IsPreviewable, PreviewRefused, PreviewOpened, RecordsCauses;
    hide Screen.IsOpen, Screen.IsPreview, Screen.Complete;
    var after := PreviewOpened(w, states, target, flag, pointer).world;
    AcceptedPreviewIsLocal(w, states, target, flag, pointer, flag);
    PreviewOpenedAt(w, states, target, flag, pointer, target.screen, flag);
    assert after.Keys == w.Keys;
    forall s | s in after ensures after[s].Complete() { PreviewOpenedAt(w, states, target, flag, pointer, s, flag); }
    forall s | s in after ensures PreviewsOpenOn(after[s]) {
      forall f | after[s].IsPreview(f) ensures IsPreviewable(f) && after[s].IsOpen(f) {
        PreviewTidyAt(w, states, target, flag, pointer, s, f);
      }
    }
    assert AllComplete(after) && PreviewsAreOpen(after);
  }

  lemma PreviewTidyAt<S>(w: World<S>, states: seq<Handle<S>>, target: Handle<S>, flag: Flag, pointer: Pointer,
                         s: S, f: Flag)
    requires Tidy(w) && !PreviewRefused(w, states, target, flag, pointer) && s in w
    ensures var after := PreviewOpened(w, states, target, flag, pointer).world;
            after.Keys == w.Keys && (after[s].IsPreview(f) ==> IsPreviewable(f) && after[s].IsOpen(f))
  {
    hide Find, IsPreviewable, IsSettable, Tidy, PreviewRefused, PreviewOpened;
    hide Screen.IsOpen, Screen.Writable, Screen.OpenCause, Screen.Complete;
    TidyIsComplete(w);
    PreviewIsOpen(w, s, f);
    AcceptedPreviewIsLocal(w, states, target, flag, pointer, flag);
    PreviewOpenedAt(w, states, target, flag, pointer, s, f);
    PreviewableIsExclusive(flag);
    if RecordsCauses(w, target) {
      DeclaredIsWritable(w[target.screen], flag);
    }
  }

  lemma RecordedPreviewKeepsInvariant<S>(w: World<S>, states: seq<Handle<S>>, target: Handle<S>, flag: Flag,
                                         pointer: Pointer)
    requires Invariant(w) && !PreviewRefused(w, states, target, flag, pointer) && RecordsCauses(w, target)
    ensures Invariant(PreviewOpened(w, states, target, flag, pointer).world)
  {
    hide Find, PreviewRefused, PreviewOpened, Screen.IsOpen, Screen.Writable, Screen.OpenCause, Screen.Complete;
    var after, t := PreviewOpened(w, states, target, flag, pointer).world, target.screen;
    PreviewOpenedAt(w, states, target, flag, pointer, t, flag);
    PreviewableIsExclusive(flag);
    AcceptedPreviewIsLocal(w, states, target, flag, pointer, flag);
    DeclaredIsWritable(w[t], flag);
    PreviewStaysTidy(w, states, target, flag, pointer);
    forall s, f | s in w && ExplicitOpen(after[s], f) ensures ExplicitOpen(w[s], f) {
      PreviewOpenedAt(w, states, target, flag, pointer, s, f);
    }
    forall s, f | s in w && ExclusiveOpen(after[s], f)
      ensures if s == t then f == flag else ExclusiveOpen(w[s], f)
    {
      PreviewOpenedAt(w, states, target, flag, pointer, s, f);
      AcceptedPreviewIsLocal(w, states, target, flag, pointer, f);
    }
    hide ExclusiveOpen, ExplicitOpen;
    assert OnePerScreen(after);
    assert OneExplicit(after);
  }

  lemma DeclaredIsWritable(s: Screen, flag: Flag)
    requires s.Complete() && s.causes.Some? && IsSettable(flag)
    ensures s.Writable(flag)
  {}

  lemma UnrecordedPreviewExactly<S>(w: World<S>, states: seq<Handle<S>>, target: Handle<S>, flag: Flag,
                                    pointer: Pointer)
    requires Invariant(w) && !PreviewRefused(w, states, target, flag, pointer) && !RecordsCauses(w, target)
    ensures Invariant(PreviewOpened(w, states, target, flag, pointer).world) <==>
            !w[target.screen].Writable(flag) || forall s, f :: s in w ==> !ExplicitOpen(w[s], f)
  {
    hide *;
    AcceptedPreviewIsLocal(w, states, target, flag, pointer, flag);
    AddressedIsKnown(w, target);
    InvariantIsTidy(w);
    TidyIsComplete(w);
    PreviewStaysTidy(w, states, target, flag, pointer);
    var after, t := PreviewOpened(w, states, target, flag, pointer).world, target.screen;
    forall s, f | s in w ensures GainsAt(w, after, t, flag, w[t].Writable(flag), s, f) {
      UnrecordedPreviewAt(w, states, target, flag, pointer, s, f);
    }
    forall f ensures !ExplicitOpen(w[t], f) {
      UnrecordedTargetIsQuiet(w, states, target, flag, pointer, f);
    }
    GainsOneExactly(w, after, t, flag, w[t].Writable(flag));
  }

  /** What a preview without a recorded cause makes of one flag of one screen: it opens as explicit on screen `t`. */
  predicate GainsAt<S(==)>(w: World<S>, after: World<S>, t: S, flag: Flag, opens: bool, s: S, f: Flag)
    requires s in w && s in after
  {
    && ExplicitOpen(after[s], f) == (ExplicitOpen(w[s], f) || (s == t && f == flag && opens))
    && (ExclusiveOpen(after[s], f) ==> if s == t then f == flag else ExclusiveOpen(w[s], f))
  }

  lemma UnrecordedPreviewAt<S>(w: World<S>, states: seq<Handle<S>>, target: Handle<S>, flag: Flag, pointer: Pointer,
                               s: S, f: Flag)
    requires Tidy(w) && !PreviewRefused(w, states, target, flag, pointer) && !RecordsCauses(w, target)
    requires Addresses(w, target) && s in w
    ensures var after := PreviewOpened(w, states, target, flag, pointer).world;
            && after.Keys == w.Keys
            && GainsAt(w, after, target.screen, flag, w[target.screen].Writable(flag), s, f)
  {
    hide Find, IsExclusive, IsPreviewable, PreviewRefused, PreviewOpened, AllComplete, Tidy;
    hide Screen.IsOpen, Screen.Writable, Screen.OpenCause;
    TidyIsComplete(w);
    AcceptedPreviewIsLocal(w, states, target, flag, pointer, f);
    AcceptedPreviewIsLocal(w, states, target, flag, pointer, flag);
    PreviewOpenedAt(w, states, target, flag, pointer, s, f);
    PreviewableIsExclusive(flag);
    UnrecordedIsExplicit(w, states, target, flag, pointer);
  }

  lemma UnrecordedIsExplicit<S>(w: World<S>, states: seq<Handle<S>>, target: Handle<S>, flag: Flag, pointer: Pointer)
    requires Tidy(w) && Addresses(w, target)
    requires !PreviewRefused(w, states, target, flag, pointer) && !RecordsCauses(w, target)
    ensures !w[target.screen].IsPreview(flag)
  {
    hide Find, Tidy, PreviewRefused, Screen.IsOpen, Screen.OpenCause;
    PreviewIsOpen(w, target.screen, flag);
    AcceptedPreviewIsLocal(w, states, target, flag, pointer, flag);
    WithoutTypedState(w[target.screen], flag);
  }

  lemma UnrecordedTargetIsQuiet<S>(w: World<S>, states: seq<Handle<S>>, target: Handle<S>, flag: Flag,
                                   pointer: Pointer, f: Flag)
    requires !PreviewRefused(w, states, target, flag, pointer) && Addresses(w, target)
    ensures !ExplicitOpen(w[target.screen], f)
  {
    hide Find, IsExclusive, PreviewRefused, Screen.IsOpen, Screen.OpenCause;
    AcceptedPreviewIsLocal(w, states, target, flag, pointer, f);
  }

  lemma GainsOneExactly<S>(w: World<S>, after: World<S>, t: S, flag: Flag, opens: bool)
    requires Invariant(w) && after.Keys == w.Keys && Tidy(after) && t in w
    requires forall s, f :: s in w ==> GainsAt(w, after, t, flag, opens, s, f)
    requires forall f :: !ExplicitOpen(w[t], f)
    ensures Invariant(after) <==> !opens || forall s, f :: s in w ==> !ExplicitOpen(w[s], f)
  {
    hide Tidy, ExclusiveOpen, ExplicitOpen;
    assert OnePerScreen(after) by {
      forall s, f | s in w && ExclusiveOpen(after[s], f)
        ensures if s == t then f == flag else ExclusiveOpen(w[s], f)
      {
        assert GainsAt(w, after, t, flag, opens, s, f);
      }
    }
    assert GainsAt(w, after, t, flag, opens, t, flag);
    forall s, f | s in w
      ensures ExplicitOpen(after[s], f) == (ExplicitOpen(w[s], f) || (s == t && f == flag && opens))
    {
      assert GainsAt(w, after, t, flag, opens, s, f);
    }
  }
}
