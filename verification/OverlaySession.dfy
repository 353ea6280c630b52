/** Sequences of policy calls on the screen objects themselves. */
module OverlaySession {
  import opened Wrappers
  import opened SurfaceRegistry
  import opened OverlayModel
  import opened ScreenStates
  import opened OverlayEffects
  import opened OverlayRuns
  import Policy = OverlayPolicy

  /** One policy call as a caller makes it, with the objects it holds. */
  datatype Request =
    | OpenRef(states: seq<Ref>, target: Ref, flag: Flag)
    | OpenPreviewRef(states: seq<Ref>, target: Ref, flag: Flag, pointer: Pointer)
    | PromotePreviewRef(states: seq<Ref>, target: Ref, flag: Flag)
    | CloseOnRef(target: Ref, flag: Flag)
    | ClosePreviewRef(target: Ref, flag: Flag)
    | CloseRef(states: seq<Ref>, flag: Flag)
    | ToggleOnRef(states: seq<Ref>, target: Ref, flag: Flag)
    | ToggleRef(states: seq<Ref>, target: Ref, flag: Flag)
    | ToggleGuardedRef(states: seq<Ref>, target: Ref, flag: Flag, fullscreen: bool)

  function CallOf(r: Request): Call<ScreenState> {
    match r
    case OpenRef(states, target, flag) => Call.Open(AbstractAll(states), Abstract(target), flag)
    case OpenPreviewRef(states, target, flag, pointer) =>
      Call.OpenPreview(AbstractAll(states), Abstract(target), flag, pointer)
    case PromotePreviewRef(states, target, flag) => Call.PromotePreview(AbstractAll(states), Abstract(target), flag)
    case CloseOnRef(target, flag) => Call.CloseOn(Abstract(target), flag)
    case ClosePreviewRef(target, flag) => Call.ClosePreview(Abstract(target), flag)
    case CloseRef(states, flag) => Call.Close(AbstractAll(states), flag)
    case ToggleOnRef(states, target, flag) => Call.ToggleOn(AbstractAll(states), Abstract(target), flag)
    case ToggleRef(states, target, flag) => Call.Toggle(AbstractAll(states), Abstract(target), flag)
    case ToggleGuardedRef(states, target, flag, fullscreen) =>
      Call.ToggleGuarded(AbstractAll(states), Abstract(target), flag, fullscreen)
  }

  function CallsOf(requests: seq<Request>): (calls: seq<Call<ScreenState>>)
    ensures |calls| == |requests| && forall i :: 0 <= i < |calls| ==> calls[i] == CallOf(requests[i])
  {
    seq(|requests|, i requires 0 <= i < |requests| => CallOf(requests[i]))
  }

  /** Whether a request is about screens of the seat. */
  ghost predicate Knows(seat: Seat, r: Request)
    reads seat.screens
  {
    && (!r.CloseOnRef? && !r.ClosePreviewRef? ==> seat.HasAll(r.states))
    && (!r.CloseRef? ==> seat.Has(r.target))
  }

  ghost predicate KnowsAll(seat: Seat, requests: seq<Request>)
    reads seat.screens
  {
    forall i :: 0 <= i < |requests| ==> Knows(seat, requests[i])
  }

  /** Each request does to the objects what its call does to the seat. */
  method Perform(r: Request, ghost seat: Seat) returns (ok: bool)
    requires seat.Valid() && Knows(seat, r)
    modifies seat.screens`flags, seat.typed`openCauses
    ensures seat.Valid()
    ensures Outcome(seat.Snapshot(), ok) == Apply(old(seat.Snapshot()), CallOf(r))
  {
    hide Abstract, AbstractAll, Opened, PreviewOpened, Promoted, ClosedOn, PreviewClosed, ClosedAll, ToggledOn;
    hide Toggled, ToggledGuarded, Seat.Snapshot, Seat.Valid, Seat.Has, Seat.HasAll, ScreenState.View, ScreenState.Valid;
    match r
    case OpenRef(states, target, flag) => ok := Policy.Open(states, target, flag, seat);
    case OpenPreviewRef(states, target, flag, pointer) =>
      ok := Policy.OpenPreview(states, target, flag, pointer, seat);
    case PromotePreviewRef(states, target, flag) => ok := Policy.PromotePreview(states, target, flag, seat);
    case CloseOnRef(target, flag) => ok := Policy.CloseOn(target, flag, seat);
    case ClosePreviewRef(target, flag) => ok := Policy.ClosePreview(target, flag, seat);
    case CloseRef(states, flag) => ok := Policy.Close(states, flag, seat);
    case ToggleOnRef(states, target, flag) => ok := Policy.ToggleOn(states, target, flag, seat);
    case ToggleRef(states, target, flag) => ok := Policy.Toggle(states, target, flag, seat);
    case ToggleGuardedRef(states, target, flag, fullscreen) =>
      ok := Policy.ToggleGuarded(states, target, flag, fullscreen, seat);
  }

  /**
   * Requests made one after the other on the objects are a run of the seat. On registered screens, lawful
   * ones leave the invariant in force, and any of them leave a seat that one full opening repairs.
   */
  method PerformAll(requests: seq<Request>, ghost seat: Seat)
    requires seat.Valid() && KnowsAll(seat, requests)
    modifies seat.screens`flags, seat.typed`openCauses
    ensures seat.Valid()
    ensures seat.Snapshot() == Run(old(seat.Snapshot()), CallsOf(requests))
    ensures Fresh(old(seat.Snapshot())) ==> Tidy(seat.Snapshot())
    ensures Fresh(old(seat.Snapshot())) && LawfulRun(old(seat.Snapshot()), CallsOf(requests)) ==>
            Invariant(seat.Snapshot())
  {
    hide Apply, Run, LawfulRun, Fresh, Tidy, Invariant, CallOf, CallsOf, Seat.Snapshot, Seat.Valid, ScreenState.View;
    hide ScreenState.Valid;
    ghost var w := seat.Snapshot();
    RunsOfFresh(w, CallsOf(requests));
    RunStarts(w, requests);
    for n := 0 to |requests|
      invariant seat.Valid() && KnowsAll(seat, requests)
      invariant seat.Snapshot() == Run(w, CallsOf(requests)[..n])
    {
      RunGoesOn(w, requests, n);
      var _ := Perform(requests[n], seat);
    }
  }

  lemma RunsOfFresh<S>(w: World<S>, calls: seq<Call<S>>)
    ensures Fresh(w) ==> Tidy(Run(w, calls))
    ensures Fresh(w) && LawfulRun(w, calls) ==> Invariant(Run(w, calls))
  {
    hide *;
    if Fresh(w) {
      RegisteredSeatIsClosed(w);
      ClosedIsTidy(w);
      RunsStayTidy(w, calls);
      RunsKeepInvariant(w, calls);
    }
  }

  lemma RunStarts(w: World<ScreenState>, requests: seq<Request>)
    ensures Run(w, CallsOf(requests)[..0]) == w
    ensures CallsOf(requests)[..|requests|] == CallsOf(requests)
  {}

  lemma RunGoesOn(w: World<ScreenState>, requests: seq<Request>, n: nat)
    requires n < |requests|
    ensures Run(w, CallsOf(requests)[..n + 1]) == Apply(Run(w, CallsOf(requests)[..n]), CallOf(requests[n])).world
  {
    hide Apply, CallOf;
    var calls := CallsOf(requests);
    assert calls[..n + 1][..n] == calls[..n];
  }

  /** Screens that were just registered make a fresh seat. */
  lemma RegisteredSeatIsFresh(seat: Seat)
    requires seat.Valid()
    requires forall s :: s in seat.screens ==> s.View() == Screen(map f | f in NAMES :: false, Some(map[]))
    ensures Fresh(seat.Snapshot())
  {}
}
