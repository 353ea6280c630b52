/**
 * The state the overlay policy works on, as values: what each screen shows, and what each
 * policy call turns a whole seat into. The imperative policy is proved against these
 * functions; the properties of the policy are proved about them.
 */
module OverlayModel {
  import opened Wrappers
  import opened SurfaceRegistry

  /** Why a surface is open. A flag without a recorded cause is explicit. */
  datatype Cause = Explicit | HoverPreview | DragPreview

  /** The pointer gesture a preview is asked for with. */
  datatype Pointer = Hover | Drag | OtherPointer(text: string)

  /** One screen: its declared flags and, if it has a typed state, the recorded causes. */
  datatype Screen = Screen(flags: map<Flag, bool>, causes: Option<map<Flag, Cause>>) {

    predicate IsOpen(flag: Flag) { flag in flags && flags[flag] }

    function OpenCause(flag: Flag): Cause {
      if causes.Some? && flag in causes.value then causes.value[flag] else Explicit
    }

    predicate IsPreview(flag: Flag) { OpenCause(flag) != Explicit }

    /** A screen with a typed state declares every flag of the registry. */
    ghost predicate Complete() { causes.Some? ==> forall f :: IsKnown(f) ==> f in flags }

    /** `legacy[flag] = value`: closing a previewable flag makes the typed state forget its cause. */
    function Assigned(flag: Flag, value: bool): Screen {
      Screen(flags[flag := value],
             if causes.Some? && IsPreviewable(flag) && IsOpen(flag) && !value then Some(causes.value - {flag})
               else causes)
    }

    predicate Writable(flag: Flag) {
      if causes.Some? then IsRetained(flag) || (IsSettable(flag) && flag in flags)
      else IsKnown(flag) && flag in flags
    }

    function WithFlag(flag: Flag, value: bool): Screen {
      if Writable(flag) then Assigned(flag, value) else this
    }

    /** `setOpenCause`; `None` is "closed". A screen without typed state records nothing. */
    function WithCause(flag: Flag, cause: Option<Cause>): Screen {
      if causes.None? || !IsSettable(flag) then this
      else if cause.None? then Screen(flags, Some(causes.value - {flag}))
      else Screen(flags, Some(causes.value[flag := cause.value]))
    }

    /** Every writable flag of `gone` closed, and the causes of those previewable flags that were open forgotten. */
    function WithClosed(gone: set<Flag>): Screen {
      Screen(map f | f in flags :: if f in gone && Writable(f) then false else flags[f],
             if causes.None? then None
             else Some(map f | f in causes.value && !(f in gone && Writable(f) && IsPreviewable(f) && IsOpen(f)) ::
               causes.value[f]))
    }
  }

  lemma SameScreen(a: Screen, b: Screen)
    requires a.flags == b.flags && a.causes.Some? == b.causes.Some?
    requires a.causes.Some? ==> a.causes.value == b.causes.value
    ensures a == b
  {}

  lemma ClosingNothing(s: Screen)
    ensures s.WithClosed({}) == s
  {
    SameScreen(s.WithClosed({}), s);
  }

  lemma ClosingOneMore(s: Screen, gone: set<Flag>, flag: Flag)
    requires s.Complete()
    ensures s.WithClosed(gone).WithFlag(flag, false) == s.WithClosed(gone + {flag})
    ensures s.WithClosed(gone).Complete()
  {
    hide Find, Screen.Writable, Screen.WithClosed;
    var once, more := s.WithClosed(gone), s.WithClosed(gone + {flag});
    ClosedKeys(s, gone);
    ClosedKeys(s, gone + {flag});
    SameWritable(once, s, flag);
    ClosedFlagsGrow(s, gone, flag);
    if s.causes.Some? {
      ClosedCausesGrow(s, gone, flag);
    }
    SameScreen(once.WithFlag(flag, false), more);
  }

  lemma ClosedKeys(s: Screen, gone: set<Flag>)
    ensures s.WithClosed(gone).flags.Keys == s.flags.Keys && s.WithClosed(gone).causes.Some? == s.causes.Some?
  {
    hide Find, Screen.Writable;
  }

  lemma ClosedFlagsGrow(s: Screen, gone: set<Flag>, flag: Flag)
    requires s.Complete()
    ensures s.WithClosed(gone + {flag}).flags ==
            if s.Writable(flag) then s.WithClosed(gone).flags[flag := false] else s.WithClosed(gone).flags
  {
    if s.Writable(flag) {
      WritableIsDeclared(s, flag);
    }
    hide Find, Screen.Writable;
  }

  lemma ClosedCausesGrow(s: Screen, gone: set<Flag>, flag: Flag)
    requires s.Complete() && s.causes.Some?
    ensures s.WithClosed(gone + {flag}).causes.value ==
            if s.Writable(flag) && IsPreviewable(flag) && s.WithClosed(gone).IsOpen(flag)
              then s.WithClosed(gone).causes.value - {flag}
            else s.WithClosed(gone).causes.value
  {
    if s.Writable(flag) {
      WritableIsDeclared(s, flag);
    }
    hide Find, Screen.Writable, IsPreviewable;
  }

  lemma WritableIsDeclared(s: Screen, flag: Flag)
    requires s.Complete() && s.Writable(flag)
    ensures flag in s.flags
  {}

  lemma SameWritable(a: Screen, b: Screen, flag: Flag)
    requires a.flags.Keys == b.flags.Keys && a.causes.Some? == b.causes.Some?
    ensures a.Writable(flag) == b.Writable(flag)
  {
    hide Find;
  }

  lemma ClosingTwice(s: Screen, gone: set<Flag>)
    ensures s.WithClosed(gone).WithClosed(gone) == s.WithClosed(gone)
  {
    SameScreen(s.WithClosed(gone).WithClosed(gone), s.WithClosed(gone));
  }

  /** A screen as policy callers hold it: nothing, its legacy state, or its typed state. */
  datatype Handle<S> = Null | Legacy(screen: S) | Typed(screen: S)

  /** Every screen of the seat. */
  type World<S> = map<S, Screen>

  function ScreensOf<S(==)>(states: seq<Handle<S>>): (screens: set<S>)
    ensures forall h :: h in states && !h.Null? ==> h.screen in screens
    ensures forall s :: s in screens ==> Legacy(s) in states || Typed(s) in states
  {
    set h | h in states && !h.Null? :: h.screen
  }

  function Listed(flags: seq<Flag>): set<Flag> { set f | f in flags }

  function ExclusiveFlags(): set<Flag> { Listed(Exclusive()) }

  /** What a preview query sees: only a legacy handle reaches the recorded causes. */
  predicate SeesPreview<S(==)>(w: World<S>, h: Handle<S>, flag: Flag) {
    h.Legacy? && h.screen in w && w[h.screen].IsPreview(flag)
  }

  predicate SeesOpen<S(==)>(w: World<S>, h: Handle<S>, flag: Flag) {
    !h.Null? && h.screen in w && w[h.screen].IsOpen(flag)
  }

  /** Some flags of one screen closed. */
  function Cleared<S(==)>(w: World<S>, h: Handle<S>, gone: set<Flag>): World<S> {
    if Addresses(w, h) then w[h.screen := w[h.screen].WithClosed(gone)] else w
  }

  lemma ClearingNothing<S>(w: World<S>, h: Handle<S>)
    ensures Cleared(w, h, {}) == w
  {
    if Addresses(w, h) {
      ClosingNothing(w[h.screen]);
    }
  }

  lemma ClearingOneMore<S>(w: World<S>, h: Handle<S>, gone: set<Flag>, flag: Flag)
    requires Addresses(w, h) && w[h.screen].Complete()
    ensures Addresses(Cleared(w, h, gone), h)
    ensures Written(Cleared(w, h, gone), h, flag, false).world == Cleared(w, h, gone + {flag})
  {
    hide Screen.WithClosed, Screen.WithFlag, Screen.Complete, Screen.Writable;
    ClosingOneMore(w[h.screen], gone, flag);
  }

  /** The flags an exclusive opening closes on one screen: all exclusive ones, but `except` stays on the target. */
  function Gone(isTarget: bool, except: Flag): set<Flag> {
    if isTarget then ExclusiveFlags() - {except} else ExclusiveFlags()
  }

  predicate IsTarget<S(==)>(screen: S, target: Handle<S>) { !target.Null? && target.screen == screen }

  /** What an exclusive opening does to one listed screen. */
  function Visited<S(==)>(w: World<S>, h: Handle<S>, target: Handle<S>, except: Flag): World<S> {
    if h.Null? then w else Cleared(w, h, Gone(IsTarget(h.screen, target), except))
  }

  function ClosedEverywhere<S(==)>(w: World<S>, screens: set<S>, target: Handle<S>, except: Flag): (after: World<S>) {
    map s | s in w :: if s in screens then w[s].WithClosed(Gone(IsTarget(s, target), except)) else w[s]
  }

  datatype Outcome<S> = Outcome(world: World<S>, result: bool)

  predicate Addresses<S(==)>(w: World<S>, h: Handle<S>) { !h.Null? && h.screen in w }

  /** Records a cause through the handle: only a legacy handle leads to `cortetsuState`. */
  function Noted<S(==)>(w: World<S>, target: Handle<S>, flag: Flag, cause: Option<Cause>): World<S>
    requires Addresses(w, target)
  {
    if target.Legacy? then w[target.screen := w[target.screen].WithCause(flag, cause)] else w
  }

  function Written<S(==)>(w: World<S>, target: Handle<S>, flag: Flag, value: bool): Outcome<S>
    requires Addresses(w, target)
  {
    var s := w[target.screen];
    Outcome(w[target.screen := s.WithFlag(flag, value)], s.Writable(flag))
  }

  function Opened<S(==)>(w: World<S>, states: seq<Handle<S>>, target: Handle<S>, flag: Flag): Outcome<S> {
    if !Addresses(w, target) || !IsSettable(flag) then Outcome(w, false)
    else
      var noted := Noted(w, target, flag, Some(Explicit));
      var alone := if IsExclusive(flag) then ClosedEverywhere(noted, ScreensOf(states), target, flag) else noted;
      Written(alone, target, flag, true)
  }

  predicate HasLocalExclusive(s: Screen, flag: Flag) {
    exists f :: f in Exclusive() && f != flag && s.IsOpen(f)
  }

  function PreviewCause(pointer: Pointer): (cause: Cause)
    requires pointer == Hover || pointer == Drag
  {
    if pointer == Hover then HoverPreview else DragPreview
  }

  /** Whether a preview request is turned down. */
  predicate PreviewRefused<S(==)>(w: World<S>, states: seq<Handle<S>>, target: Handle<S>, flag: Flag,
                                  pointer: Pointer) {
    || !Addresses(w, target) || !IsPreviewable(flag) || !(pointer == Hover || pointer == Drag)
    || (|states| > 0 && target !in states)
    || HasLocalExclusive(w[target.screen], flag)
    || (w[target.screen].IsOpen(flag) && !SeesPreview(w, target, flag))
  }

  function PreviewOpened<S(==)>(w: World<S>, states: seq<Handle<S>>, target: Handle<S>, flag: Flag,
                                pointer: Pointer): Outcome<S> {
    if PreviewRefused(w, states, target, flag, pointer) then Outcome(w, false)
    else
      var cause := PreviewCause(pointer);
      var s := w[target.screen];
      if s.IsOpen(flag) && target.Legacy? && s.causes.Some? && s.OpenCause(flag) == cause then Outcome(w, true)
      else Written(Noted(w, target, flag, Some(cause)), target, flag, true)
  }

  function Promoted<S(==)>(w: World<S>, states: seq<Handle<S>>, target: Handle<S>, flag: Flag): Outcome<S> {
    if SeesPreview(w, target, flag) then Opened(w, states, target, flag) else Outcome(w, false)
  }

  function ClosedOn<S(==)>(w: World<S>, target: Handle<S>, flag: Flag): Outcome<S> {
    if !Addresses(w, target) || !IsSettable(flag) then Outcome(w, false)
    else Written(Noted(w, target, flag, None), target, flag, false)
  }

  function PreviewClosed<S(==)>(w: World<S>, target: Handle<S>, flag: Flag): Outcome<S> {
    if SeesPreview(w, target, flag) then ClosedOn(w, target, flag) else Outcome(w, false)
  }

  /** `closeOn` on every handle in turn. */
  function ClosedOnEach<S(==)>(w: World<S>, states: seq<Handle<S>>, flag: Flag): World<S> {
    if states == [] then w
    else ClosedOn(ClosedOnEach(w, states[..|states| - 1], flag), states[|states| - 1], flag).world
  }

  function ClosedAll<S(==)>(w: World<S>, states: seq<Handle<S>>, flag: Flag): Outcome<S> {
    if IsSettable(flag) then Outcome(ClosedOnEach(w, states, flag), true) else Outcome(w, false)
  }

  function ToggledOn<S(==)>(w: World<S>, states: seq<Handle<S>>, target: Handle<S>, flag: Flag): Outcome<S> {
    if !Addresses(w, target) || !IsSettable(flag) then Outcome(w, false)
    else if SeesOpen(w, target, flag) then
      if SeesPreview(w, target, flag) then Promoted(w, states, target, flag)
      else Outcome(ClosedOn(w, target, flag).world, false)
    else Opened(w, states, target, flag)
  }

  predicate OpenAnywhere<S(==)>(w: World<S>, states: seq<Handle<S>>, flag: Flag) {
    exists h :: h in states && SeesOpen(w, h, flag)
  }

  function Toggled<S(==)>(w: World<S>, states: seq<Handle<S>>, target: Handle<S>, flag: Flag): Outcome<S> {
    if IsRetained(flag) && OpenAnywhere(w, states, flag) then Outcome(ClosedAll(w, states, flag).world, false)
    else ToggledOn(w, states, target, flag)
  }

  function ToggledGuarded<S(==)>(w: World<S>, states: seq<Handle<S>>, target: Handle<S>, flag: Flag,
                                 fullscreen: bool): Outcome<S> {
    if fullscreen && IsFullscreenGuarded(flag) && !SeesOpen(w, target, flag) then Outcome(w, false)
    else Toggled(w, states, target, flag)
  }

  predicate PreviewElsewhere<S(==)>(w: World<S>, states: seq<Handle<S>>, target: Handle<S>) {
    exists h, f :: h in states && f in Previewable() && SeesPreview(w, h, f)
      && (target.Null? || h.screen != target.screen)
  }
}
