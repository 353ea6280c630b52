/** The mutable per-screen objects: the legacy flag object and its typed state, which alias each other. */
module ScreenStates {
  import opened Wrappers
  import opened SurfaceRegistry
  import opened OverlayModel

  class TypedState {
    const legacyState: ScreenState
    var openCauses: map<Flag, Cause>

    constructor (legacy: ScreenState)
      ensures legacyState == legacy && openCauses == map[]
    {
      legacyState, openCauses := legacy, map[];
    }

    /** `None` is the cause "closed". */
    method SetOpenCause(flag: Flag, cause: Option<Cause>) returns (ok: bool)
      modifies this`openCauses
      ensures ok == IsSettable(flag)
      ensures openCauses ==
              if !ok then old(openCauses) else if cause.None? then old(openCauses) - {flag}
                else old(openCauses)[flag := cause.value]
    {
      if !IsSettable(flag) {
        return false;
      }
      openCauses := if cause.None? then openCauses - {flag} else openCauses[flag := cause.value];
      return true;
    }

    method SetFlag(flag: Flag, value: bool) returns (ok: bool)
      requires legacyState.Valid() && legacyState.cortetsuState == this
      modifies legacyState`flags, this`openCauses
      ensures legacyState.View() == old(legacyState.View()).WithFlag(flag, value)
      ensures ok == old(legacyState.View()).Writable(flag)
    {
      if IsRetained(flag) {
        ok := SetRetained(flag, value);
        return;
      }
      if !IsSettable(flag) || flag !in legacyState.flags {
        return false;
      }
      legacyState.Assign(flag, value);
      return true;
    }

    method SetRetained(flag: Flag, value: bool) returns (ok: bool)
      requires legacyState.Valid() && legacyState.cortetsuState == this
      modifies legacyState`flags, this`openCauses
      ensures legacyState.View() == if IsRetained(flag) then old(legacyState.View()).Assigned(flag, value)
              else old(legacyState.View())
      ensures ok == IsRetained(flag)
    {
      if !IsRetained(flag) {
        return false;
      }
      legacyState.Assign(flag, value);
      return true;
    }
  }

  /** A legacy screen state, or a plain object when it has no typed state. */
  class ScreenState {
    var flags: map<Flag, bool>
    var cortetsuState: TypedState?

    ghost predicate Valid()
      reads this, cortetsuState
    {
      cortetsuState != null ==> cortetsuState.legacyState == this && forall f :: IsKnown(f) ==> f in flags
    }

    function View(): Screen
      reads this, cortetsuState
    {
      Screen(flags, if cortetsuState == null then None else Some(cortetsuState.openCauses))
    }

    /** A plain object with the given properties. */
    constructor Plain(properties: map<Flag, bool>)
      ensures Valid() && View() == Screen(properties, None)
    {
      flags, cortetsuState := properties, null;
    }

    /** A registered screen: every flag declared and reset, with its typed state. */
    constructor Registered()
      ensures Valid() && cortetsuState != null && fresh(cortetsuState)
      ensures View() == Screen(map f | f in NAMES :: false, Some(map[]))
    {
      flags, cortetsuState := map f | f in NAMES :: false, null;
      new;
      cortetsuState := new TypedState(this);
      forall f ensures f in NAMES <==> IsKnown(f) { NamesAreTheKnownFlags(f); }
    }

    /** A property write. A write that changes a flag notifies the typed state's observer. */
    method Assign(flag: Flag, value: bool)
      requires Valid()
      modifies this`flags, CausesOf(this)`openCauses
      ensures View() == old(View()).Assigned(flag, value)
    {
      var was := flag in flags && flags[flag];
      flags := flags[flag := value];
      if was != value && IsPreviewable(flag) && !value && cortetsuState != null {
        var _ := cortetsuState.SetOpenCause(flag, None);
      }
    }
  }

  /** What policy callers pass around. */
  datatype Ref = NullRef | LegacyRef(legacy: ScreenState) | TypedRef(typed: TypedState)

  function Abstract(r: Ref): Handle<ScreenState> {
    match r
    case NullRef => Null
    case LegacyRef(s) => Legacy(s)
    case TypedRef(t) => Typed(t.legacyState)
  }

  function AbstractAll(refs: seq<Ref>): (handles: seq<Handle<ScreenState>>)
    ensures |handles| == |refs| && forall i :: 0 <= i < |refs| ==> handles[i] == Abstract(refs[i])
  {
    seq(|refs|, i requires 0 <= i < |refs| => Abstract(refs[i]))
  }

  /** The screen a reference leads to. */
  function Target(r: Ref): ScreenState
    requires !r.NullRef?
  {
    if r.LegacyRef? then r.legacy else r.typed.legacyState
  }

  function CausesOf(s: ScreenState): set<TypedState>
    reads s
  {
    if s.cortetsuState == null then {} else {s.cortetsuState}
  }

  /** The object two references are compared by. */
  function Canonical(r: Ref): ScreenState?
    reads if r.LegacyRef? then {r.legacy} else {}
  {
    match r
    case NullRef => null
    case LegacyRef(s) => if s.cortetsuState != null then s.cortetsuState.legacyState else s
    case TypedRef(t) => t.legacyState
  }

  /** A flag write through whichever object the caller holds; plain objects are written directly. */
  method WriteFlag(r: Ref, flag: Flag, value: bool) returns (ok: bool)
    requires !r.NullRef? && Target(r).Valid() && (r.TypedRef? ==> Target(r).cortetsuState == r.typed)
    modifies Target(r)`flags, CausesOf(Target(r))`openCauses
    ensures Target(r).View() == old(Target(r).View()).WithFlag(flag, value)
    ensures ok == old(Target(r).View()).Writable(flag)
    ensures Target(r).Valid()
  {
    if !IsKnown(flag) {
      return false;
    }
    var typed := if r.TypedRef? then r.typed else r.legacy.cortetsuState;
    if typed != null {
      ok := typed.SetFlag(flag, value);
      return;
    }
    if flag !in r.legacy.flags {
      return false;
    }
    r.legacy.Assign(flag, value);
    return true;
  }

  /** The screens of the seat and their typed states. */
  datatype Seat = Seat(screens: set<ScreenState>, typed: set<TypedState>) {
    ghost predicate Valid()
      reads screens, typed
    {
      forall s :: s in screens ==> (s.cortetsuState != null ==> s.cortetsuState in typed) && s.Valid()
    }

    /** Whether `r` is one of these screens, or nothing. */
    ghost predicate Has(r: Ref)
      reads screens
    {
      match r
      case NullRef => true
      case LegacyRef(s) => s in screens
      case TypedRef(t) => t.legacyState in screens && t.legacyState.cortetsuState == t
    }

    ghost predicate HasAll(refs: seq<Ref>)
      reads screens
    {
      forall r :: r in refs ==> Has(r)
    }

    function Snapshot(): (w: World<ScreenState>)
      requires Valid()
      reads screens, typed
    {
      map s | s in screens :: s.View()
    }
  }
}
