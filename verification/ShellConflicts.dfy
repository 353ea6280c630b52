/** When the shell's inspection of a seat run by the overlay policy reports no conflict. */
module ShellConflicts {
  import opened Wrappers
  import opened SurfaceRegistry
  import opened OverlayModel
  import opened OverlayEffects
  import opened OverlayRuns
  import opened ScreenRuns
  import opened ShellInspect

  /** What the lifecycle reports about one screen: its monitor's name and every surface of the table. */
  function Inspected(name: string, s: Screen): (input: ScreenInput)
    ensures |input.surfaces| == |NAMES| && input.name == Some(name)
    ensures forall m :: 0 <= m < |NAMES| ==> input.surfaces[m] == InspectedSurface(s, NAMES[m])
  {
    ScreenInput(Some(name), seq(|NAMES|, m requires 0 <= m < |NAMES| => InspectedSurface(s, NAMES[m])))
  }

  function InspectedSurface(s: Screen, flag: Flag): SurfaceInput {
    var entry := Find(flag);
    SurfaceInput(flag, if entry.Some? then Some(entry.value.kind) else None, IsExclusive(flag),
                 entry.Some? && entry.value.ownsKeyboard, s.IsOpen(flag),
                 if s.IsOpen(flag) then Some(s.OpenCause(flag)) else None)
  }

  function InspectedSeat<S(==)>(w: World<S>, screens: seq<S>, names: seq<string>): (inputs: seq<ScreenInput>)
    requires |names| == |screens| && forall s :: s in screens ==> s in w
    ensures |inputs| == |screens|
    ensures forall n :: 0 <= n < |screens| ==> inputs[n] == Inspected(names[n], w[screens[n]])
  {
    seq(|screens|, n requires 0 <= n < |screens| => Inspected(names[n], w[screens[n]]))
  }

  /** The flattened entries, addressed by screen and by position in the table. */
  lemma {:induction false} EntryAt(screens: seq<ScreenInput>, n: nat, m: nat)
    requires forall s :: s in screens ==> |s.surfaces| == |NAMES|
    ensures |Entries(screens)| == |NAMES| * |screens|
    ensures n < |screens| && m < |NAMES| ==>
      |NAMES| * n + m < |Entries(screens)|
        && Entries(screens)[|NAMES| * n + m] == EntryOf(Monitor(screens[n]), screens[n].surfaces[m])
  {
    hide EntryOf, Monitor;
    if screens == [] {
    } else {
      var last := |screens| - 1;
      EntryAt(screens[..last], n, m);
    }
  }

  /** What the inspection lists about one flag of one screen: the policy's state, and the table's columns. */
  ghost predicate Shows(e: Entry, name: string, s: Screen, f: Flag)
    requires IsKnown(f)
  {
    && e.monitor == name && e.surface == f && e.open == s.IsOpen(f)
    && e.exclusive == IsExclusive(f) && e.ownsKeyboard == Find(f).value.ownsKeyboard
         && e.kind == Some(Find(f).value.kind)
    && (e.host == RetainedSurfaces <==> IsRetained(f)) && (e.host == Drawers <==> Find(f).value.kind == Transient)
    && e.activationCause == if s.IsOpen(f) then Some(s.OpenCause(f)) else None
  }

  /** The inspected list holds every flag of every screen at its place, as the policy's seat has it. */
  lemma InspectedAt<S>(w: World<S>, screens: seq<S>, names: seq<string>, i: nat, f: Flag)
    requires |names| == |screens| && forall s :: s in screens ==> s in w
    requires i < |screens| && IsKnown(f)
    ensures var entries, p := Entries(InspectedSeat(w, screens, names)), |NAMES| * i + Position(f);
            && |entries| == |NAMES| * |screens| && p < |entries|
            && Shows(entries[p], names[i], w[screens[i]], f)
  {
    hide Entries, EntryOf, InspectedSurface, Position, Find, IsExclusive, IsRetained, Screen.IsOpen, Screen.OpenCause;
    NamesAreTheKnownFlags(f);
    EntryAt(InspectedSeat(w, screens, names), i, Position(f));
    EntryShows(names[i], w[screens[i]], f);
  }

  /** Whether the inspection lists `flag` of the i-th screen as open, for this cause. */
  predicate IsListedFor(entries: seq<Entry>, i: nat, name: string, flag: Flag, cause: Cause) {
    IsKnown(flag) &&
    var p := |NAMES| * i + Position(flag);
    p < |entries| && entries[p].monitor == name && entries[p].surface == flag && entries[p].open
    && entries[p].activationCause == Some(cause)
  }

  /** The inspection reports an accepted hover as `hover_preview` and a drag as `drag_preview`. */
  lemma GestureIsInspected<S>(w: World<S>, states: seq<Handle<S>>, flag: Flag, pointer: Pointer, after: World<S>,
                              screens: seq<S>, names: seq<string>, i: nat)
    requires |names| == |screens| && (forall s :: s in screens ==> s in w && s in after) && i < |screens|
    requires AllComplete(w) && RecordsCauses(w, Legacy(screens[i]))
    requires PreviewOpened(w, states, Legacy(screens[i]), flag, pointer) == Outcome(after, true)
    ensures IsListedFor(Entries(InspectedSeat(after, screens, names)), i, names[i], flag,
                       if pointer == Hover then HoverPreview else DragPreview)
  {
    hide PreviewRefused, PreviewOpened, Entries, Find, Position, Screen.IsOpen, Screen.OpenCause, Screen.Writable;
    PreviewRecordsItsGesture(w, states, Legacy(screens[i]), flag, pointer);
    AcceptedPreviewIsLocal(w, states, Legacy(screens[i]), flag, pointer, flag);
    InspectedAt(after, screens, names, i, flag);
  }

  lemma EntryShows(name: string, s: Screen, f: Flag)
    requires IsKnown(f)
    ensures Shows(EntryOf(name, InspectedSurface(s, f)), name, s, f)
  {}

  ghost predicate ShowsExclusive(s: Screen) { exists f :: ExclusiveOpen(s, f) }

  /** Two listed screens under one monitor name, both showing an exclusive surface. */
  ghost predicate SharedMonitor<S>(w: World<S>, screens: seq<S>, names: seq<string>)
    requires |names| == |screens| && forall s :: s in screens ==> s in w
  {
    exists i, j :: 0 <= i < j < |screens| && names[i] == names[j] && ShowsExclusive(w[screens[i]])
      && ShowsExclusive(w[screens[j]])
  }

  /** Two flattened entries collide exactly when both show an exclusive surface under one monitor name. */
  lemma CollisionAt<S>(w: World<S>, screens: seq<S>, names: seq<string>, i: nat, f: Flag, j: nat, g: Flag)
    requires |names| == |screens| && forall s :: s in screens ==> s in w
    requires i < |screens| && j < |screens| && IsKnown(f) && IsKnown(g)
    ensures var entries := Entries(InspectedSeat(w, screens, names));
            var p, q := |NAMES| * i + Position(f), |NAMES| * j + Position(g);
            && p < |entries| && q < |entries|
            && (Collide(entries[p], entries[q]) <==>
                ExclusiveOpen(w[screens[i]], f) && ExclusiveOpen(w[screens[j]], g) && names[i] == names[j])
  {
    hide Find, Entries, Screen.IsOpen, Screen.OpenCause;
    hide Position;
    NamesAreTheKnownFlags(f);
    NamesAreTheKnownFlags(g);
    var inputs := InspectedSeat(w, screens, names);
    EntryAt(inputs, i, Position(f));
    EntryAt(inputs, j, Position(g));
  }

  /** Every flattened index belongs to one screen and one flag of the table. */
  lemma IndexSplits(entries: nat, k: nat) returns (n: nat, f: Flag)
    requires k < |NAMES| * entries
    ensures n < entries && IsKnown(f) && k == |NAMES| * n + Position(f)
  {
    n := k / |NAMES|;
    f := NAMES[k % |NAMES|];
    PositionOf(k % |NAMES|);
  }

  lemma PositionOf(m: nat)
    requires m < |NAMES|
    ensures IsKnown(NAMES[m]) && Position(NAMES[m]) == m
  {}

  /** Two exclusive surfaces on one screen. */
  ghost predicate ShowsTwo(s: Screen) { exists f, g :: f != g && ExclusiveOpen(s, f) && ExclusiveOpen(s, g) }

  ghost predicate Crowded<S>(w: World<S>, screens: seq<S>)
    requires forall s :: s in screens ==> s in w
  {
    exists s :: s in screens && ShowsTwo(w[s])
  }

  lemma ConflictHasReason<S>(w: World<S>, screens: seq<S>, names: seq<string>, p: Indices)
    requires |names| == |screens| && forall s :: s in screens ==> s in w
    requires var entries := Entries(InspectedSeat(w, screens, names));
             p.left < p.right < |entries| && Collide(entries[p.left], entries[p.right])
    ensures SharedMonitor(w, screens, names) || Crowded(w, screens)
  {
    hide Find, IsKnown, Position, Entries, Collide, Screen.IsOpen, Screen.OpenCause, ExclusiveOpen;
    hide Inspected, InspectedSurface;
    var inputs := InspectedSeat(w, screens, names);
    EntryAt(inputs, 0, 0);
    var i, f := IndexSplits(|inputs|, p.left);
    var j, g := IndexSplits(|inputs|, p.right);
    CollisionAt(w, screens, names, i, f, j, g);
    PositionBelow(f);
    PositionBelow(g);
    if i == j {
      assert f != g && screens[i] in screens && ShowsTwo(w[screens[i]]);
    }
  }

  lemma CrowdedMeansConflict<S>(w: World<S>, screens: seq<S>, names: seq<string>)
    requires |names| == |screens| && (forall s :: s in screens ==> s in w) && Crowded(w, screens)
    ensures var entries := Entries(InspectedSeat(w, screens, names));
            exists p: Indices :: p.left < p.right < |entries| && Collide(entries[p.left], entries[p.right])
  {
    hide Find, IsKnown, Entries, InspectedSeat, Collide, ExclusiveOpen, Position;
    var s :| s in screens && ShowsTwo(w[s]);
    var i :| 0 <= i < |screens| && screens[i] == s;
    var f, g :| f != g && ExclusiveOpen(w[s], f) && ExclusiveOpen(w[s], g);
    ExclusiveIsKnown(w[s], f);
    ExclusiveIsKnown(w[s], g);
    NamesAreTheKnownFlags(f);
    NamesAreTheKnownFlags(g);
    if Position(f) < Position(g) {
      PairOn(w, screens, names, i, f, g);
    } else {
      PairOn(w, screens, names, i, g, f);
    }
  }

  lemma PairOn<S>(w: World<S>, screens: seq<S>, names: seq<string>, i: nat, f: Flag, g: Flag)
    requires |names| == |screens| && i < |screens| && forall s :: s in screens ==> s in w
    requires IsKnown(f) && IsKnown(g) && Position(f) < Position(g)
    requires ExclusiveOpen(w[screens[i]], f) && ExclusiveOpen(w[screens[i]], g)
    ensures var entries := Entries(InspectedSeat(w, screens, names));
            exists p: Indices :: p.left < p.right < |entries| && Collide(entries[p.left], entries[p.right])
  {
    hide *;
    CollisionAt(w, screens, names, i, f, i, g);
    var p := Indices(|NAMES| * i + Position(f), |NAMES| * i + Position(g));
    assert p.left < p.right;
  }

  lemma PositionBelow(f: Flag)
    requires IsKnown(f)
    ensures Position(f) < |NAMES|
  {}

  lemma Later(size: nat, i: nat, a: nat, j: nat)
    requires i < j && a < size
    ensures size * i + a < size * j
  {
    var d := j - i - 1;
    assert size * (i + 1 + d) == size * i + size + size * d;
    assert size * d >= 0;
  }

  lemma SharedMeansConflict<S>(w: World<S>, screens: seq<S>, names: seq<string>)
    requires |names| == |screens| && (forall s :: s in screens ==> s in w) && SharedMonitor(w, screens, names)
    ensures var entries := Entries(InspectedSeat(w, screens, names));
            exists p: Indices :: p.left < p.right < |entries| && Collide(entries[p.left], entries[p.right])
  {
    hide Find, Entries, InspectedSeat, Collide, ExclusiveOpen;
    var i, j :| 0 <= i < j < |screens| && names[i] == names[j] && ShowsExclusive(w[screens[i]])
      && ShowsExclusive(w[screens[j]]);
    var f :| ExclusiveOpen(w[screens[i]], f);
    var g :| ExclusiveOpen(w[screens[j]], g);
    SharedAt(w, screens, names, i, f, j, g);
  }

  lemma SharedAt<S>(w: World<S>, screens: seq<S>, names: seq<string>, i: nat, f: Flag, j: nat, g: Flag)
    requires |names| == |screens| && forall s :: s in screens ==> s in w
    requires i < j < |screens| && names[i] == names[j] && ExclusiveOpen(w[screens[i]], f)
             && ExclusiveOpen(w[screens[j]], g)
    ensures var entries := Entries(InspectedSeat(w, screens, names));
            exists p: Indices :: p.left < p.right < |entries| && Collide(entries[p.left], entries[p.right])
  {
    hide *;
    ExclusiveIsKnown(w[screens[i]], f);
    ExclusiveIsKnown(w[screens[j]], g);
    CollisionAt(w, screens, names, i, f, j, g);
    var p := Indices(|NAMES| * i + Position(f), |NAMES| * j + Position(g));
    Later(|NAMES|, i, Position(f), j);
    assert p.left < p.right;
  }

  /**
   * Conflicts are reported exactly when a listed screen shows two exclusive surfaces, or two listed screens
   * that show one share a monitor name.
   */
  lemma ConflictsExactly<S>(w: World<S>, screens: seq<S>, names: seq<string>)
    requires |names| == |screens| && forall s :: s in screens ==> s in w
    ensures var entries := Entries(InspectedSeat(w, screens, names));
            Pairs(entries, |entries|) == [] <==> !SharedMonitor(w, screens, names) && !Crowded(w, screens)
  {
    hide Find, Entries, Pairs, Collide, SharedMonitor, Crowded, InspectedSeat;
    var entries := Entries(InspectedSeat(w, screens, names));
    PairsAreTheCollisions(entries, |entries|);
    var pairs := Pairs(entries, |entries|);
    if pairs != [] {
      assert pairs[0] in pairs;
      ConflictHasReason(w, screens, names, pairs[0]);
    }
    if SharedMonitor(w, screens, names) || Crowded(w, screens) {
      if SharedMonitor(w, screens, names) {
        SharedMeansConflict(w, screens, names);
      } else {
        CrowdedMeansConflict(w, screens, names);
      }
      var p: Indices :| p.left < p.right < |entries| && Collide(entries[p.left], entries[p.right]);
      assert p in pairs;
    }
  }

  lemma ExclusiveIsKnown(s: Screen, f: Flag)
    requires ExclusiveOpen(s, f)
    ensures IsKnown(f) && Position(f) < |NAMES|
  {}

  /** Whether the inspection of the listed screens reports no conflict. */
  ghost predicate NoConflict<S>(w: World<S>, screens: seq<S>, names: seq<string>) {
    && |names| == |screens| && (forall s :: s in screens ==> s in w)
    && var entries := Entries(InspectedSeat(w, screens, names));
       ConflictsOf(entries, Pairs(entries, |entries|)) == []
  }

  ghost predicate Distinct(names: seq<string>) { forall i, j :: 0 <= i < j < |names| ==> names[i] != names[j] }

  /** Under distinct names, no conflict is reported exactly when no listed screen shows two exclusive surfaces. */
  lemma NoConflictExactly<S>(w: World<S>, screens: seq<S>, names: seq<string>)
    requires |names| == |screens| && Distinct(names) && forall s :: s in screens ==> s in w
    ensures NoConflict(w, screens, names) <==> !Crowded(w, screens)
  {
    hide Find, Entries, Pairs, InspectedSeat, Crowded, ShowsExclusive;
    ConflictsExactly(w, screens, names);
  }

  lemma CrowdedExactly<S>(w: World<S>, screens: seq<S>)
    requires forall s :: s in w <==> s in screens
    ensures OnePerScreen(w) <==> !Crowded(w, screens)
  {
    hide ExclusiveOpen;
    if !OnePerScreen(w) {
      var s, f, g :| s in w && ExclusiveOpen(w[s], f) && ExclusiveOpen(w[s], g) && f != g;
      assert ShowsTwo(w[s]);
    }
  }

  /**
   * Over runs on a seat whose screens are all inspected, under distinct names: no conflict is ever reported
   * exactly if every call fits, that is, opens no second exclusive surface on the screen of an opening.
   */
  lemma RunsAreConflictFreeExactly<S>(w: World<S>, calls: seq<Call<S>>, screens: seq<S>, names: seq<string>)
    requires AllClosed(w) && |names| == |screens| && Distinct(names) && forall s :: s in w <==> s in screens
    ensures FittingRun(w, calls) <==> Throughout(w, calls, v => NoConflict(v, screens, names))
  {
    hide AllClosed, Fits, Run, Tidy, NoConflict, Distinct, OnePerScreen, Apply;
    RunsKeepOnePerScreen(w, calls);
    forall i | 0 <= i <= |calls|
      ensures TidyScreens(Run(w, calls[..i])) <==> NoConflict(Run(w, calls[..i]), screens, names)
    {
      ScreensShowNoConflict(w, calls[..i], screens, names);
    }
    hide TidyScreens;
  }

  lemma ScreensShowNoConflict<S>(w: World<S>, calls: seq<Call<S>>, screens: seq<S>, names: seq<string>)
    requires AllClosed(w) && |names| == |screens| && Distinct(names) && forall s :: s in w <==> s in screens
    ensures TidyScreens(Run(w, calls)) <==> NoConflict(Run(w, calls), screens, names)
  {
    hide AllClosed, Run, Tidy, NoConflict, Distinct, OnePerScreen, Crowded;
    ClosedIsTidy(w);
    RunsStayTidy(w, calls);
    var v := Run(w, calls);
    assert forall s :: s in v <==> s in w;
    CrowdedExactly(v, screens);
    NoConflictExactly(v, screens, names);
  }

  /**
   * So no state reachable through the overlay policy is reported when monitor names are distinct and every
   * opening lists its own target, with previews and closings of any kind between.
   */
  lemma RunsAreConflictFree<S>(w: World<S>, calls: seq<Call<S>>, screens: seq<S>, names: seq<string>)
    requires AllClosed(w) && forall i :: 0 <= i < |calls| ==> ListsTarget(calls[i])
    requires |names| == |screens| && Distinct(names) && forall s :: s in screens ==> s in w
    ensures NoConflict(Run(w, calls), screens, names)
  {
    hide AllClosed, ListsTarget, Run, Tidy, NoConflict, Distinct, OnePerScreen, Crowded;
    ClosedIsTidy(w);
    RunsStayTidy(w, calls);
    ListedTargetsKeepOnePerScreen(w, calls);
    NoneCrowded(Run(w, calls), screens);
    NoConflictExactly(Run(w, calls), screens, names);
  }

  lemma NoneCrowded<S>(w: World<S>, screens: seq<S>)
    requires OnePerScreen(w) && forall s :: s in screens ==> s in w
    ensures !Crowded(w, screens)
  {
    hide ExclusiveOpen;
  }
}
