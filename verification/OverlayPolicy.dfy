/** The overlay policy: opens, closes, toggles and previews surfaces by writing the screens' flags. */
module OverlayPolicy {
  import opened Wrappers
  import opened SurfaceRegistry
  import opened OverlayModel
  import opened ScreenStates

  method SetFlag(state: Ref, flag: Flag, value: bool, ghost seat: Seat) returns (ok: bool)
    requires seat.Valid() && seat.Has(state)
    modifies seat.screens`flags, seat.typed`openCauses
    ensures seat.Valid()
    ensures seat.Snapshot() == if state.NullRef? then old(seat.Snapshot())
            else Written(old(seat.Snapshot()), Abstract(state), flag, value).world
    ensures ok == (!state.NullRef? && Written(old(seat.Snapshot()), Abstract(state), flag, value).result)
  {
    if state.NullRef? {
      return false;
    }
    hide Screen.WithFlag, Screen.Writable, Find;
    ghost var w := seat.Snapshot();
    ok := WriteFlag(state, flag, value);
    forall o | o in seat.screens && o != Target(state) ensures o.View() == w[o] {}
    OnlyOneChanged(seat, w, Target(state));
  }

  lemma OnlyOneChanged(seat: Seat, w: World<ScreenState>, s: ScreenState)
    requires seat.Valid() && s in seat.screens && w.Keys == seat.screens
    requires forall o :: o in seat.screens && o != s ==> o.View() == w[o]
    ensures seat.Snapshot() == w[s := s.View()]
  {
    hide Find;
  }

  lemma SeatShowsTarget(seat: Seat, r: Ref)
    requires seat.Valid() && seat.Has(r)
    ensures Abstract(r).Null? <==> r.NullRef?
    ensures !r.NullRef? ==> Addresses(seat.Snapshot(), Abstract(r)) && seat.Snapshot()[Abstract(r).screen].Complete()
  {}

  lemma ListingOneFlag(flags: seq<Flag>, i: nat)
    requires i < |flags|
    ensures Listed(flags[..i + 1]) == Listed(flags[..i]) + {flags[i]} && Listed(flags[..0]) == {}
  {
    assert flags[..i + 1] == flags[..i] + [flags[i]];
  }

  method CloseFlags(state: Ref, flags: seq<Flag>, ghost seat: Seat)
    requires seat.Valid() && seat.Has(state)
    modifies seat.screens`flags, seat.typed`openCauses
    ensures seat.Valid()
    ensures seat.Snapshot() == Cleared(old(seat.Snapshot()), Abstract(state), Listed(flags))
  {
    SeatShowsTarget(seat, state);
    if state.NullRef? {
      return;
    }
    hide Screen.WithClosed, Screen.WithFlag, Screen.Complete, Listed, Cleared, Written;
    ghost var w, h := seat.Snapshot(), Abstract(state);
    ClearingNothing(w, h);
    for i := 0 to |flags|
      invariant seat.Valid()
      invariant seat.Snapshot() == if i == 0 then w else Cleared(w, h, Listed(flags[..i]))
    {
      ListingOneFlag(flags, i);
      ClearingOneMore(w, h, Listed(flags[..i]), flags[i]);
      var _ := SetFlag(state, flags[i], false, seat);
    }
    assert flags[..|flags|] == flags;
    NothingListed();
  }

  lemma NothingListed()
    ensures Listed([]) == {}
  {}

  method CloseOtherPanels(state: Ref, ghost seat: Seat)
    requires seat.Valid() && seat.Has(state)
    modifies seat.screens`flags, seat.typed`openCauses
    ensures seat.Valid()
    ensures seat.Snapshot() == Cleared(old(seat.Snapshot()), Abstract(state), ExclusiveFlags())
  {
    CloseFlags(state, Exclusive(), seat);
  }

  method CloseForWallpaper(state: Ref, ghost seat: Seat)
    requires seat.Valid() && seat.Has(state)
    modifies seat.screens`flags, seat.typed`openCauses
    ensures seat.Valid()
    ensures seat.Snapshot() == Cleared(old(seat.Snapshot()), Abstract(state), Listed(CompetingWithWallpaper()))
  {
    CloseFlags(state, CompetingWithWallpaper(), seat);
  }

  /** Two references of one seat are the same state exactly when they lead to the same screen. */
  lemma CanonicalIsScreen(seat: Seat, left: Ref, right: Ref)
    requires seat.Valid() && seat.Has(left) && seat.Has(right)
    ensures Canonical(left) == Canonical(right) <==>
            if left.NullRef? then right.NullRef? else IsTarget(Abstract(left).screen, Abstract(right))
  {}

  /** What an exclusive opening closes on one listed screen. */
  method CloseExclusiveOn(state: Ref, exceptTarget: Ref, exceptFlag: Flag, ghost seat: Seat)
    requires seat.Valid() && seat.Has(state) && seat.Has(exceptTarget)
    modifies seat.screens`flags, seat.typed`openCauses
    ensures seat.Valid()
    ensures seat.Snapshot() == Visited(old(seat.Snapshot()), Abstract(state), Abstract(exceptTarget), exceptFlag)
  {
    hide Cleared, Exclusive, Screen.Complete, IsTarget, ExclusiveFlags, Listed, Filter, Find;
    hide Seat.Snapshot, Seat.Valid, ScreenState.View, ScreenState.Valid;
    SeatShowsTarget(seat, state);
    CanonicalIsScreen(seat, state, exceptTarget);
    NothingCleared(seat.Snapshot());
    if Canonical(state) != Canonical(exceptTarget) {
      CloseOtherPanels(state, seat);
    } else {
      var others := Filter(Exclusive(), f => f != exceptFlag);
      OthersListed(exceptFlag);
      CloseFlags(state, others, seat);
    }
  }

  lemma NothingCleared<S>(w: World<S>)
    ensures forall gone :: Cleared(w, Null, gone) == w
  {}

  lemma OthersListed(except: Flag)
    ensures Listed(Filter(Exclusive(), f => f != except)) == ExclusiveFlags() - {except}
  {
    hide Exclusive;
  }

  lemma HasListed(seat: Seat, states: seq<Ref>, i: nat)
    requires seat.HasAll(states) && i < |states|
    ensures seat.Has(states[i])
  {}

  /** Every exclusive flag of every listed screen closed, except `exceptFlag` on `exceptTarget`. */
  method CloseExclusiveEverywhere(states: seq<Ref>, exceptTarget: Ref, exceptFlag: Flag, ghost seat: Seat)
    requires seat.Valid() && seat.HasAll(states) && seat.Has(exceptTarget)
    modifies seat.screens`flags, seat.typed`openCauses
    ensures seat.Valid()
    ensures seat.Snapshot() ==
            ClosedEverywhere(old(seat.Snapshot()), ScreensOf(AbstractAll(states)), Abstract(exceptTarget), exceptFlag)
  {
    hide Visited, ClosedEverywhere, ScreensOf, VisitedFirst, Abstract, AbstractAll, Screen.Complete, Addresses, Find;
    hide Seat.Snapshot, Seat.Valid, ScreenState.View, ScreenState.Valid;
    ghost var w, target := seat.Snapshot(), Abstract(exceptTarget);
    VisitingNone(w, AbstractAll(states), target, exceptFlag);
    for i := 0 to |states|
      invariant seat.Valid() && seat.HasAll(states) && seat.Has(exceptTarget)
      invariant seat.Snapshot() == VisitedFirst(w, AbstractAll(states), i, target, exceptFlag)
    {
      HasListed(seat, states, i);
      SeatShowsTarget(seat, states[i]);
      VisitingOneMore(w, AbstractAll(states), i, target, exceptFlag);
      CloseExclusiveOn(states[i], exceptTarget, exceptFlag, seat);
    }
  }

  /** The seat after the first `n` handles were visited. */
  function VisitedFirst<S(==)>(w: World<S>, handles: seq<Handle<S>>, n: nat, target: Handle<S>, except: Flag): World<S>
    requires n <= |handles|
  {
    ClosedEverywhere(w, ScreensOf(handles[..n]), target, except)
  }

  lemma VisitingNone<S>(w: World<S>, handles: seq<Handle<S>>, target: Handle<S>, except: Flag)
    ensures VisitedFirst(w, handles, 0, target, except) == w
    ensures VisitedFirst(w, handles, |handles|, target, except) ==
            ClosedEverywhere(w, ScreensOf(handles), target, except)
  {
    assert handles[..|handles|] == handles;
    NoneListed<S>();
    hide ScreensOf, Screen.WithClosed;
    assert ClosedEverywhere(w, {}, target, except) == w;
  }

  lemma NoneListed<S>()
    ensures ScreensOf<S>([]) == {}
  {}

  lemma ListingOneMore<S>(handles: seq<Handle<S>>, n: nat)
    requires n < |handles|
    ensures ScreensOf(handles[..n + 1]) == ScreensOf(handles[..n]) + if handles[n].Null? then {}
            else {handles[n].screen}
  {
    assert handles[..n + 1] == handles[..n] + [handles[n]];
  }

  /** One more screen visited, whether or not an alias of it was visited before. */
  lemma VisitingOneMore<S>(w: World<S>, handles: seq<Handle<S>>, n: nat, target: Handle<S>, except: Flag)
    requires n < |handles|
    requires handles[n].Null? || Addresses(VisitedFirst(w, handles, n, target, except), handles[n])
    ensures VisitedFirst(w, handles, n + 1, target, except) ==
            Visited(VisitedFirst(w, handles, n, target, except), handles[n], target, except)
  {
    hide ScreensOf, ClosedEverywhere, Gone, IsTarget, Screen.WithClosed;
    ListingOneMore(handles, n);
    var h, screens := handles[n], ScreensOf(handles[..n]);
    if h.Null? {
      assert screens + {} == screens;
    } else {
      VisitingScreen(w, screens, h, target, except);
    }
  }

  lemma VisitingScreen<S>(w: World<S>, screens: set<S>, h: Handle<S>, target: Handle<S>, except: Flag)
    requires Addresses(ClosedEverywhere(w, screens, target, except), h)
    ensures ClosedEverywhere(w, screens + {h.screen}, target, except) ==
            Visited(ClosedEverywhere(w, screens, target, except), h, target, except)
  {
    hide Screen.WithClosed, Gone, IsTarget;
    ClosingTwice(w[h.screen], Gone(IsTarget(h.screen, target), except));
    var before := ClosedEverywhere(w, screens, target, except);
    var after, visited := ClosedEverywhere(w, screens + {h.screen}, target, except), Visited(before, h, target, except);
    assert after.Keys == w.Keys == visited.Keys;
    forall s | s in w ensures after[s] == visited[s] {
      if s != h.screen {
        assert after[s] == before[s];
      }
    }
  }

  predicate IsOpen(state: Ref, flag: Flag)
    reads if state.NullRef? then {} else {Target(state)}
  {
    !state.NullRef? && flag in Target(state).flags && Target(state).flags[flag]
  }

  function OpenAnywhereIn(states: seq<Ref>, flag: Flag): bool
    reads set r | r in states && !r.NullRef? :: Target(r)
  {
    exists r :: r in states && IsOpen(r, flag)
  }

  /** Only a legacy reference has a `cortetsuState` to ask. */
  predicate IsPreview(target: Ref, flag: Flag)
    reads if target.LegacyRef? then {target.legacy} + CausesOf(target.legacy) else {}
  {
    target.LegacyRef? && target.legacy.cortetsuState != null && target.legacy.View().IsPreview(flag)
  }

  /** The queries see what the handle shows of the seat. */
  lemma QueriesReadTheSeat(seat: Seat, r: Ref, flag: Flag)
    requires seat.Valid() && seat.Has(r)
    ensures IsOpen(r, flag) == SeesOpen(seat.Snapshot(), Abstract(r), flag)
    ensures IsPreview(r, flag) == SeesPreview(seat.Snapshot(), Abstract(r), flag)
  {
    if !r.NullRef? {
      assert seat.Snapshot()[Target(r)] == Target(r).View();
    }
  }

  lemma NothingNoted<S>(w: World<S>, target: Handle<S>, flag: Flag, cause: Option<Cause>)
    requires Addresses(w, target) && (target.Legacy? ==> w[target.screen].causes.None?)
    ensures Noted(w, target, flag, cause) == w
  {}

  /** `target.cortetsuState?.setOpenCause(flag, cause)`. */
  method NoteCause(target: Ref, flag: Flag, cause: Option<Cause>, ghost seat: Seat)
    requires seat.Valid() && seat.Has(target) && !target.NullRef?
    modifies seat.typed`openCauses
    ensures seat.Valid()
    ensures seat.Snapshot() == Noted(old(seat.Snapshot()), Abstract(target), flag, cause)
  {
    hide Screen.WithClosed, Screen.WithFlag, Find;
    ghost var w := seat.Snapshot();
    if target.LegacyRef? && target.legacy.cortetsuState != null {
      var _ := target.legacy.cortetsuState.SetOpenCause(flag, cause);
      assert target.legacy.View() == old(target.legacy.View()).WithCause(flag, cause);
      forall o | o in seat.screens && o != target.legacy ensures o.View() == w[o] {}
      OnlyOneChanged(seat, w, target.legacy);
    } else {
      NothingNoted(seat.Snapshot(), Abstract(target), flag, cause);
    }
  }

  method Open(states: seq<Ref>, target: Ref, flag: Flag, ghost seat: Seat) returns (ok: bool)
    requires seat.Valid() && seat.HasAll(states) && seat.Has(target)
    modifies seat.screens`flags, seat.typed`openCauses
    ensures seat.Valid()
    ensures Outcome(seat.Snapshot(), ok) == Opened(old(seat.Snapshot()), AbstractAll(states), Abstract(target), flag)
  {
    hide ClosedEverywhere, Noted, Written, ScreensOf, Abstract, AbstractAll, Screen.Complete, IsSettable, IsExclusive;
    hide Seat.Snapshot, Seat.Valid, ScreenState.View, ScreenState.Valid, Find, Screen.WithCause, Target;
    SeatShowsTarget(seat, target);
    if target.NullRef? || !IsSettable(flag) {
      return false;
    }
    NoteCause(target, flag, Some(Explicit), seat);
    if IsExclusive(flag) {
      CloseExclusiveEverywhere(states, target, flag, seat);
    }
    ok := SetFlag(target, flag, true, seat);
  }

  method CloseOn(target: Ref, flag: Flag, ghost seat: Seat) returns (ok: bool)
    requires seat.Valid() && seat.Has(target)
    modifies seat.screens`flags, seat.typed`openCauses
    ensures seat.Valid()
    ensures Outcome(seat.Snapshot(), ok) == ClosedOn(old(seat.Snapshot()), Abstract(target), flag)
  {
    hide Screen.WithFlag, Screen.WithCause;
    if target.NullRef? || !IsSettable(flag) {
      return false;
    }
    NoteCause(target, flag, None, seat);
    ok := SetFlag(target, flag, false, seat);
  }

  method PromotePreview(states: seq<Ref>, target: Ref, flag: Flag, ghost seat: Seat) returns (ok: bool)
    requires seat.Valid() && seat.HasAll(states) && seat.Has(target)
    modifies seat.screens`flags, seat.typed`openCauses
    ensures seat.Valid()
    ensures Outcome(seat.Snapshot(), ok) == Promoted(old(seat.Snapshot()), AbstractAll(states), Abstract(target), flag)
  {
    QueriesReadTheSeat(seat, target, flag);
    if !IsPreview(target, flag) {
      return false;
    }
    ok := Open(states, target, flag, seat);
  }

  method ClosePreview(target: Ref, flag: Flag, ghost seat: Seat) returns (ok: bool)
    requires seat.Valid() && seat.Has(target)
    modifies seat.screens`flags, seat.typed`openCauses
    ensures seat.Valid()
    ensures Outcome(seat.Snapshot(), ok) == PreviewClosed(old(seat.Snapshot()), Abstract(target), flag)
  {
    QueriesReadTheSeat(seat, target, flag);
    if !IsPreview(target, flag) {
      return false;
    }
    ok := CloseOn(target, flag, seat);
  }

  method Close(states: seq<Ref>, flag: Flag, ghost seat: Seat) returns (ok: bool)
    requires seat.Valid() && seat.HasAll(states)
    modifies seat.screens`flags, seat.typed`openCauses
    ensures seat.Valid()
    ensures Outcome(seat.Snapshot(), ok) == ClosedAll(old(seat.Snapshot()), AbstractAll(states), flag)
  {
    if !IsSettable(flag) {
      return false;
    }
    hide ClosedOnEach, ClosedOn, Abstract, AbstractAll, Screen.Complete, Addresses, Find, IsSettable;
    hide Seat.Snapshot, Seat.Valid, ScreenState.View, ScreenState.Valid;
    ghost var w, handles := seat.Snapshot(), AbstractAll(states);
    ClosingNone(w, handles, flag);
    for i := 0 to |states|
      invariant seat.Valid() && seat.HasAll(states)
      invariant seat.Snapshot() == ClosedOnEach(w, handles[..i], flag)
    {
      HasListed(seat, states, i);
      ClosingOneMoreScreen(w, handles, i, flag);
      var _ := CloseOn(states[i], flag, seat);
    }
    ok := true;
  }

  lemma ClosingNone<S>(w: World<S>, handles: seq<Handle<S>>, flag: Flag)
    ensures ClosedOnEach(w, handles[..0], flag) == w && handles[..|handles|] == handles
  {}

  lemma ClosingOneMoreScreen<S>(w: World<S>, handles: seq<Handle<S>>, i: nat, flag: Flag)
    requires i < |handles|
    ensures ClosedOnEach(w, handles[..i + 1], flag) ==
            ClosedOn(ClosedOnEach(w, handles[..i], flag), handles[i], flag).world
  {
    hide ClosedOn;
    assert handles[..i + 1][..i] == handles[..i];
  }

  method ToggleOn(states: seq<Ref>, target: Ref, flag: Flag, ghost seat: Seat) returns (ok: bool)
    requires seat.Valid() && seat.HasAll(states) && seat.Has(target)
    modifies seat.screens`flags, seat.typed`openCauses
    ensures seat.Valid()
    ensures Outcome(seat.Snapshot(), ok) == ToggledOn(old(seat.Snapshot()), AbstractAll(states), Abstract(target), flag)
  {
    hide Opened, ClosedOn, Find, IsSettable;
    if target.NullRef? || !IsSettable(flag) {
      return false;
    }
    SeatShowsTarget(seat, target);
    QueriesReadTheSeat(seat, target, flag);
    if IsOpen(target, flag) {
      if IsPreview(target, flag) {
        ok := PromotePreview(states, target, flag, seat);
        return;
      }
      var _ := CloseOn(target, flag, seat);
      return false;
    }
    ok := Open(states, target, flag, seat);
  }

  method Toggle(states: seq<Ref>, target: Ref, flag: Flag, ghost seat: Seat) returns (ok: bool)
    requires seat.Valid() && seat.HasAll(states) && seat.Has(target)
    modifies seat.screens`flags, seat.typed`openCauses
    ensures seat.Valid()
    ensures Outcome(seat.Snapshot(), ok) == Toggled(old(seat.Snapshot()), AbstractAll(states), Abstract(target), flag)
  {
    hide ToggledOn, ClosedAll, Find, IsRetained;
    hide Seat.Snapshot, Seat.Valid, ScreenState.View, ScreenState.Valid;
    forall r | r in states ensures IsOpen(r, flag) == SeesOpen(seat.Snapshot(), Abstract(r), flag) {
      QueriesReadTheSeat(seat, r, flag);
    }
    assert OpenAnywhereIn(states, flag) == OpenAnywhere(seat.Snapshot(), AbstractAll(states), flag);
    if IsRetained(flag) && OpenAnywhereIn(states, flag) {
      var _ := Close(states, flag, seat);
      return false;
    }
    ok := ToggleOn(states, target, flag, seat);
  }

  method ToggleGuarded(states: seq<Ref>, target: Ref, flag: Flag, fullscreen: bool, ghost seat: Seat) returns (ok: bool)
    requires seat.Valid() && seat.HasAll(states) && seat.Has(target)
    modifies seat.screens`flags, seat.typed`openCauses
    ensures seat.Valid()
    ensures Outcome(seat.Snapshot(), ok) ==
            ToggledGuarded(old(seat.Snapshot()), AbstractAll(states), Abstract(target), flag, fullscreen)
  {
    hide Toggled;
    QueriesReadTheSeat(seat, target, flag);
    if fullscreen && IsFullscreenGuarded(flag) && !IsOpen(target, flag) {
      return false;
    }
    ok := Toggle(states, target, flag, seat);
  }

  predicate OtherExclusiveOpen(target: Ref, flag: Flag)
    reads if target.NullRef? then {} else {Target(target)}
  {
    exists f :: f in Exclusive() && f != flag && IsOpen(target, f)
  }

  lemma RefusalsReadTheSeat(seat: Seat, states: seq<Ref>, target: Ref, flag: Flag, pointer: Pointer)
    requires seat.Valid() && seat.HasAll(states) && seat.Has(target)
    ensures PreviewRefused(seat.Snapshot(), AbstractAll(states), Abstract(target), flag, pointer) <==>
              || target.NullRef? || !IsPreviewable(flag) || !(pointer == Hover || pointer == Drag)
              || (|states| > 0 && target !in states)
              || OtherExclusiveOpen(target, flag)
              || (IsOpen(target, flag) && !IsPreview(target, flag))
  {
    hide Exclusive;
    var w, h := seat.Snapshot(), Abstract(target);
    QueriesReadTheSeat(seat, target, flag);
    if !target.NullRef? {
      assert w[h.screen] == Target(target).View();
      assert HasLocalExclusive(w[h.screen], flag) == OtherExclusiveOpen(target, flag);
      assert target in states <==> h in AbstractAll(states) by { SameHandleSameRef(seat, states, target); }
    }
  }

  /** Within one seat, a reference is listed exactly when its handle is. */
  lemma SameHandleSameRef(seat: Seat, states: seq<Ref>, target: Ref)
    requires seat.HasAll(states) && seat.Has(target)
    ensures target in states <==> Abstract(target) in AbstractAll(states)
  {
    var handles := AbstractAll(states);
    if target in states {
      var i :| 0 <= i < |states| && states[i] == target;
      assert handles[i] == Abstract(target);
    }
    if Abstract(target) in handles {
      var i :| 0 <= i < |handles| && handles[i] == Abstract(target);
      assert seat.Has(states[i]);
    }
  }

  /** Whether the preview is open already, for the same cause. */
  lemma RepeatsReadTheSeat(seat: Seat, target: Ref, flag: Flag, cause: Cause)
    requires seat.Valid() && seat.Has(target) && !target.NullRef?
    ensures Addresses(seat.Snapshot(), Abstract(target))
    ensures var h, s := Abstract(target), seat.Snapshot()[Abstract(target).screen];
            (s.IsOpen(flag) && h.Legacy? && s.causes.Some? && s.OpenCause(flag) == cause) <==>
            (IsOpen(target, flag) && target.LegacyRef? && target.legacy.cortetsuState != null
              && target.legacy.View().OpenCause(flag) == cause)
  {
    assert seat.Snapshot()[Target(target)] == Target(target).View();
  }

  method OpenPreview(states: seq<Ref>, target: Ref, flag: Flag, pointer: Pointer, ghost seat: Seat) returns (ok: bool)
    requires seat.Valid() && seat.HasAll(states) && seat.Has(target)
    modifies seat.screens`flags, seat.typed`openCauses
    ensures seat.Valid()
    ensures Outcome(seat.Snapshot(), ok) ==
            PreviewOpened(old(seat.Snapshot()), AbstractAll(states), Abstract(target), flag, pointer)
  {
    hide PreviewRefused, Noted, Written, IsPreviewable, OtherExclusiveOpen, IsOpen, IsPreview, Abstract;
    hide AbstractAll, Target;
    hide Screen.Complete, Screen.IsOpen, Screen.OpenCause, Seat.Snapshot, Seat.Valid, ScreenState.View;
    hide ScreenState.Valid;
    RefusalsReadTheSeat(seat, states, target, flag, pointer);
    SeatShowsTarget(seat, target);
    if target.NullRef? || !IsPreviewable(flag) || !(pointer == Hover || pointer == Drag) {
      return false;
    }
    if |states| > 0 && target !in states {
      return false;
    }
    if OtherExclusiveOpen(target, flag) || (IsOpen(target, flag) && !IsPreview(target, flag)) {
      return false;
    }
    var cause := PreviewCause(pointer);
    RepeatsReadTheSeat(seat, target, flag, cause);
    if IsOpen(target, flag) && target.LegacyRef? && target.legacy.cortetsuState != null
       && target.legacy.View().OpenCause(flag) == cause {
      return true;
    }
    NoteCause(target, flag, Some(cause), seat);
    ok := SetFlag(target, flag, true, seat);
  }

  /** Whether some other screen shows a preview, as far as the listed references can tell. */
  method HasPreviewOnOtherScreen(states: seq<Ref>, target: Ref, ghost seat: Seat) returns (found: bool)
    requires seat.Valid() && seat.HasAll(states) && seat.Has(target)
    ensures found == PreviewElsewhere(seat.Snapshot(), AbstractAll(states), Abstract(target))
  {
    hide Previewable, Screen.IsPreview, PreviewElsewhere, IsPreview, Canonical;
    found := exists r, f :: r in states && f in Previewable() && Canonical(r) != Canonical(target) && IsPreview(r, f);
    if found {
      ghost var r, f :| r in states && f in Previewable() && Canonical(r) != Canonical(target) && IsPreview(r, f);
      SeenElsewhere(seat, states, target, r, f);
    }
    if PreviewElsewhere(seat.Snapshot(), AbstractAll(states), Abstract(target)) {
      ghost var r, f := ElsewhereIsSeen(seat, states, target);
    }
  }

  lemma SeenElsewhere(seat: Seat, states: seq<Ref>, target: Ref, r: Ref, f: Flag)
    requires seat.Valid() && seat.HasAll(states) && seat.Has(target)
    requires r in states && f in Previewable() && Canonical(r) != Canonical(target) && IsPreview(r, f)
    ensures PreviewElsewhere(seat.Snapshot(), AbstractAll(states), Abstract(target))
  {
    hide Previewable;
    assert seat.Has(r);
    SameHandleSameRef(seat, states, r);
    QueriesReadTheSeat(seat, r, f);
    CanonicalIsScreen(seat, r, target);
  }

  lemma ElsewhereIsSeen(seat: Seat, states: seq<Ref>, target: Ref) returns (r: Ref, f: Flag)
    requires seat.Valid() && seat.HasAll(states) && seat.Has(target)
    requires PreviewElsewhere(seat.Snapshot(), AbstractAll(states), Abstract(target))
    ensures r in states && f in Previewable() && Canonical(r) != Canonical(target) && IsPreview(r, f)
  {
    hide Previewable, IsPreview, Canonical;
    var handles := AbstractAll(states);
    var h, g :| h in handles && g in Previewable() && SeesPreview(seat.Snapshot(), h, g)
      && (Abstract(target).Null? || h.screen != Abstract(target).screen);
    var i :| 0 <= i < |states| && handles[i] == h;
    r, f := states[i], g;
    QueriesReadTheSeat(seat, r, f);
    CanonicalIsScreen(seat, r, target);
    SeatShowsTarget(seat, target);
  }
}
