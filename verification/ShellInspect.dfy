/** The shell's self-inspection: it flattens every screen's surfaces and reports exclusive surfaces that collide. */
module ShellInspect {
  import opened Wrappers
  import opened SurfaceRegistry
  import opened OverlayModel

  datatype SurfaceInput = SurfaceInput(name: Flag, kind: Option<Kind>, exclusive: bool, ownsKeyboard: bool,
                                       open: bool, openCause: Option<Cause>)

  datatype ScreenInput = ScreenInput(name: Option<string>, surfaces: seq<SurfaceInput>)

  datatype Host = RetainedSurfaces | BarHost | Drawers

  datatype Entry = Entry(monitor: string, surface: Flag, kind: Option<Kind>, host: Host, open: bool,
                         exclusive: bool, ownsKeyboard: bool, activationCause: Option<Cause>)

  datatype OpenState = OpenState(monitor: string, surface: Flag)

  datatype Conflict = Conflict(left: OpenState, right: OpenState)

  datatype Snapshot = Snapshot(surfaces: seq<Entry>, openStates: seq<OpenState>, overlays: seq<OpenState>,
    conflicts: seq<Conflict>)

  function Monitor(screen: ScreenInput): string { if screen.name.Some? then screen.name.value else "" }

  function EntryOf(monitor: string, s: SurfaceInput): Entry {
    Entry(monitor, s.name, s.kind,
          if s.kind == Some(Retained) then RetainedSurfaces else if s.kind == Some(Chrome) then BarHost else Drawers,
          s.open, s.exclusive, s.ownsKeyboard,
          if !s.open then None else if s.openCause.Some? then s.openCause else Some(Explicit))
  }

  function ScreenEntries(screen: ScreenInput): (entries: seq<Entry>)
    ensures |entries| == |screen.surfaces|
    ensures forall i :: 0 <= i < |entries| ==> entries[i] == EntryOf(Monitor(screen), screen.surfaces[i])
  {
    seq(|screen.surfaces|, i requires 0 <= i < |screen.surfaces| => EntryOf(Monitor(screen), screen.surfaces[i]))
  }

  function Entries(screens: seq<ScreenInput>): seq<Entry> {
    if screens == [] then [] else Entries(screens[..|screens| - 1]) + ScreenEntries(screens[|screens| - 1])
  }

  /** Whether an entry belongs into the list of open states, or into that of overlays. */
  predicate IsReported(e: Entry, retainedOnly: bool) { e.open && (retainedOnly ==> e.kind == Some(Retained)) }

  function Opened(entries: seq<Entry>, retainedOnly: bool): seq<OpenState> {
    if entries == [] then []
    else
      var e := entries[|entries| - 1];
      Opened(entries[..|entries| - 1], retainedOnly)
      + if IsReported(e, retainedOnly) then [OpenState(e.monitor, e.surface)] else []
  }

  /** Every reported entry stands in the list, after those of exactly the reported entries before it. */
  lemma {:induction false} OpenedKeepsPlace(entries: seq<Entry>, retainedOnly: bool, k: nat)
    requires k < |entries| && IsReported(entries[k], retainedOnly)
    ensures var all, before := Opened(entries, retainedOnly), Opened(entries[..k], retainedOnly);
            && |before| < |all| && all[..|before|] == before
            && all[|before|] == OpenState(entries[k].monitor, entries[k].surface)
  {
    hide IsReported;
    var n := |entries| - 1;
    if k == n {
    } else {
      assert entries[..n][..k] == entries[..k];
      OpenedKeepsPlace(entries[..n], retainedOnly, k);
    }
  }

  function ReportedPlaces(entries: seq<Entry>, retainedOnly: bool): set<nat> {
    set k: nat | k < |entries| && IsReported(entries[k], retainedOnly)
  }

  /** Nothing else is in the list. */
  lemma {:induction false} OpenedAddsNothing(entries: seq<Entry>, retainedOnly: bool)
    ensures |Opened(entries, retainedOnly)| == |ReportedPlaces(entries, retainedOnly)|
  {
    hide IsReported, ReportedPlaces;
    if entries == [] {
      NoPlaces(retainedOnly);
    } else {
      OpenedAddsNothing(entries[..|entries| - 1], retainedOnly);
      OneMorePlace(entries, retainedOnly);
    }
  }

  lemma NoPlaces(retainedOnly: bool)
    ensures ReportedPlaces([], retainedOnly) == {}
  {}

  lemma OneMorePlace(entries: seq<Entry>, retainedOnly: bool)
    requires entries != []
    ensures var n := |entries| - 1;
            |ReportedPlaces(entries, retainedOnly)| ==
            |ReportedPlaces(entries[..n], retainedOnly)| + if IsReported(entries[n], retainedOnly) then 1 else 0
  {
    hide IsReported;
    var n := |entries| - 1;
    assert ReportedPlaces(entries, retainedOnly) ==
           ReportedPlaces(entries[..n], retainedOnly) + if IsReported(entries[n], retainedOnly) then {n} else {};
  }

  /** Two places in the list of entries. */
  datatype Indices = Indices(left: nat, right: nat)

  /** Whether two entries collide: both open, both exclusive, on the same monitor. */
  predicate Collide(left: Entry, right: Entry) {
    left.open && left.exclusive && right.open && right.exclusive && right.monitor == left.monitor
  }

  ghost predicate InRange(pairs: seq<Indices>, n: nat) {
    forall k :: 0 <= k < |pairs| ==> pairs[k].left < n && pairs[k].right < n
  }

  /** The colliding pairs (i, j) with j below `bound`, for one i, in order. */
  function PairsFrom(entries: seq<Entry>, i: nat, bound: nat): (pairs: seq<Indices>)
    requires i < bound <= |entries|
    ensures forall k :: 0 <= k < |pairs| ==> pairs[k].left == i && i < pairs[k].right < bound
  {
    if bound == i + 1 then []
    else PairsFrom(entries, i, bound - 1) + if Collide(entries[i], entries[bound - 1]) then [Indices(i, bound - 1)]
      else []
  }

  /** All colliding pairs whose first index is below `rows`, row by row. */
  function Pairs(entries: seq<Entry>, rows: nat): (pairs: seq<Indices>)
    requires rows <= |entries|
    ensures forall k :: 0 <= k < |pairs| ==> pairs[k].left < rows && pairs[k].right < |entries|
  {
    if rows == 0 then [] else Pairs(entries, rows - 1) + PairsFrom(entries, rows - 1, |entries|)
  }

  function ConflictOf(left: Entry, right: Entry): Conflict {
    Conflict(OpenState(left.monitor, left.surface), OpenState(right.monitor, right.surface))
  }

  function ConflictsOf(entries: seq<Entry>, pairs: seq<Indices>): (conflicts: seq<Conflict>)
    requires InRange(pairs, |entries|)
    ensures |conflicts| == |pairs|
    ensures forall k :: 0 <= k < |pairs| ==> conflicts[k] == ConflictOf(entries[pairs[k].left], entries[pairs[k].right])
  {
    if pairs == [] then []
    else
      var n := |pairs| - 1;
      ConflictsOf(entries, pairs[..n]) + [ConflictOf(entries[pairs[n].left], entries[pairs[n].right])]
  }

  /** Strictly increasing first by left index, then by right index: no pair twice. */
  ghost predicate Ordered(pairs: seq<Indices>) {
    forall a, b :: 0 <= a < b < |pairs| ==>
      pairs[a].left < pairs[b].left || (pairs[a].left == pairs[b].left && pairs[a].right < pairs[b].right)
  }

  lemma NothingIsOrdered()
    ensures Ordered([])
  {}

  lemma OrderedAppends(row: seq<Indices>, i: nat, j: nat)
    requires Ordered(row) && forall k :: 0 <= k < |row| ==> row[k].left == i && row[k].right < j
    ensures Ordered(row + [Indices(i, j)])
    ensures forall p :: p in row + [Indices(i, j)] <==> p in row || p == Indices(i, j)
  {}

  lemma PairsFromStep(entries: seq<Entry>, i: nat, bound: nat)
    requires i < bound <= |entries|
    ensures PairsFrom(entries, i, bound) ==
            if bound == i + 1 then []
            else if Collide(entries[i], entries[bound - 1])
              then PairsFrom(entries, i, bound - 1) + [Indices(i, bound - 1)]
            else PairsFrom(entries, i, bound - 1)
  {}

  lemma {:induction false} PairsFromAreTheCollisions(entries: seq<Entry>, i: nat, bound: nat)
    requires i < bound <= |entries|
    ensures Ordered(PairsFrom(entries, i, bound))
    ensures forall p :: p in PairsFrom(entries, i, bound) <==>
            p.left == i && i < p.right < bound && Collide(entries[i], entries[p.right])
  {
    hide Collide, Ordered, PairsFrom;
    PairsFromStep(entries, i, bound);
    if bound > i + 1 {
      PairsFromAreTheCollisions(entries, i, bound - 1);
      var row := PairsFrom(entries, i, bound - 1);
      OrderedAppends(row, i, bound - 1);
      CollidesNext(row, entries, i, bound - 1);
    } else {
      NothingIsOrdered();
    }
  }

  /** What a row holds once its next place was looked at. */
  lemma CollidesNext(row: seq<Indices>, entries: seq<Entry>, i: nat, j: nat)
    requires i < j < |entries|
    requires forall p :: p in row <==> p.left == i && i < p.right < j && Collide(entries[i], entries[p.right])
    ensures var more := if Collide(entries[i], entries[j]) then row + [Indices(i, j)] else row;
            forall p :: p in more <==> p.left == i && i < p.right < j + 1 && Collide(entries[i], entries[p.right])
  {
    hide Collide;
  }

  /** The pairs reported are the colliding pairs, each exactly once, and nothing else. */
  lemma {:induction false} PairsAreTheCollisions(entries: seq<Entry>, rows: nat)
    requires rows <= |entries|
    ensures Ordered(Pairs(entries, rows))
    ensures forall p :: p in Pairs(entries, rows) <==>
            p.left < p.right < |entries| && p.left < rows && Collide(entries[p.left], entries[p.right])
  {
    hide Collide, PairsFrom;
    if rows == 0 {
    } else {
      PairsAreTheCollisions(entries, rows - 1);
      PairsFromAreTheCollisions(entries, rows - 1, |entries|);
      var before, row := Pairs(entries, rows - 1), PairsFrom(entries, rows - 1, |entries|);
      forall p ensures p in before + row <==> p in before || p in row {}
    }
  }

  lemma OpenedGrows(entries: seq<Entry>, e: Entry, retainedOnly: bool)
    ensures Opened(entries + [e], retainedOnly) ==
            Opened(entries, retainedOnly)
            + if e.open && (retainedOnly ==> e.kind == Some(Retained)) then [OpenState(e.monitor, e.surface)] else []
  {
    assert (entries + [e])[..|entries|] == entries;
  }

  method BuildSnapshot(screens: seq<ScreenInput>) returns (snapshot: Snapshot)
    ensures snapshot.surfaces == Entries(screens)
    ensures snapshot.openStates == Opened(snapshot.surfaces, false)
    ensures snapshot.overlays == Opened(snapshot.surfaces, true)
    ensures snapshot.conflicts == ConflictsOf(snapshot.surfaces, Pairs(snapshot.surfaces, |snapshot.surfaces|))
  {
    var surfaces, openStates, overlays := [], [], [];
    for n := 0 to |screens|
      invariant surfaces == Entries(screens[..n])
      invariant openStates == Opened(surfaces, false)
      invariant overlays == Opened(surfaces, true)
    {
      hide Opened, EntryOf, ScreenEntries;
      var screen := screens[n];
      var monitor := Monitor(screen);
      ghost var before := surfaces;
      for m := 0 to |screen.surfaces|
        invariant surfaces == before + ScreenEntries(screen)[..m]
        invariant openStates == Opened(surfaces, false)
        invariant overlays == Opened(surfaces, true)
      {
        var entry := EntryOf(monitor, screen.surfaces[m]);
        EntryKeeps(monitor, screen.surfaces[m]);
        OpenedGrows(surfaces, entry, false);
        OpenedGrows(surfaces, entry, true);
        EntryGrows(before, screen, m);
        surfaces := surfaces + [entry];
        if entry.open {
          openStates := openStates + [OpenState(monitor, entry.surface)];
          if entry.kind == Some(Retained) {
            overlays := overlays + [OpenState(monitor, entry.surface)];
          }
        }
      }
      assert ScreenEntries(screen)[..|screen.surfaces|] == ScreenEntries(screen);
      assert screens[..n + 1][..n] == screens[..n];
    }
    assert screens[..|screens|] == screens;
    var conflicts := FindConflicts(surfaces);
    snapshot := Snapshot(surfaces, openStates, overlays, conflicts);
  }

  lemma EntryGrows(before: seq<Entry>, screen: ScreenInput, m: nat)
    requires m < |screen.surfaces|
    ensures before + ScreenEntries(screen)[..m + 1] ==
            before + ScreenEntries(screen)[..m] + [EntryOf(Monitor(screen), screen.surfaces[m])]
  {
    assert ScreenEntries(screen)[..m + 1] == ScreenEntries(screen)[..m] + [ScreenEntries(screen)[m]];
  }

  lemma EntryKeeps(monitor: string, s: SurfaceInput)
    ensures EntryOf(monitor, s).monitor == monitor
  {}

  lemma ConflictsGrow(entries: seq<Entry>, pairs: seq<Indices>, p: Indices)
    requires InRange(pairs, |entries|) && p.left < |entries| && p.right < |entries|
    ensures ConflictsOf(entries, pairs + [p]) ==
            ConflictsOf(entries, pairs) + [ConflictOf(entries[p.left], entries[p.right])]
  {
    assert (pairs + [p])[..|pairs|] == pairs;
  }

  /** The conflicts of the rows below `rows`. */
  function Rows(entries: seq<Entry>, rows: nat): seq<Conflict>
    requires rows <= |entries|
  {
    ConflictsOf(entries, Pairs(entries, rows))
  }

  /** The conflicts of the rows below `i` and of row `i` up to `bound`. */
  function RowsAndPart(entries: seq<Entry>, i: nat, bound: nat): seq<Conflict>
    requires i < bound <= |entries|
  {
    ConflictsOf(entries, Pairs(entries, i) + PairsFrom(entries, i, bound))
  }

  lemma RowsInAll(entries: seq<Entry>)
    ensures Rows(entries, 0) == [] && Rows(entries, |entries|) == ConflictsOf(entries, Pairs(entries, |entries|))
  {}

  lemma RowStartsAndEnds(entries: seq<Entry>, i: nat)
    requires i < |entries|
    ensures RowsAndPart(entries, i, i + 1) == Rows(entries, i)
    ensures RowsAndPart(entries, i, |entries|) == Rows(entries, i + 1)
  {
    assert Pairs(entries, i) + [] == Pairs(entries, i);
  }

  lemma RowGrows(entries: seq<Entry>, i: nat, j: nat)
    requires i < j < |entries|
    ensures RowsAndPart(entries, i, j + 1) ==
            RowsAndPart(entries, i, j) + if Collide(entries[i], entries[j]) then [ConflictOf(entries[i], entries[j])]
              else []
  {
    hide ConflictsOf, Collide, ConflictOf, Pairs;
    var pairs := Pairs(entries, i) + PairsFrom(entries, i, j);
    if Collide(entries[i], entries[j]) {
      ConflictsGrow(entries, pairs, Indices(i, j));
      assert Pairs(entries, i) + PairsFrom(entries, i, j + 1) == pairs + [Indices(i, j)];
    } else {
      assert PairsFrom(entries, i, j) + [] == PairsFrom(entries, i, j);
    }
  }

  lemma CollideMeans(left: Entry, right: Entry)
    ensures Collide(left, right) <==>
            left.open && left.exclusive && right.open && right.exclusive && right.monitor == left.monitor
  {}

  lemma RowIsSkipped(entries: seq<Entry>, i: nat)
    requires i < |entries| && !(entries[i].open && entries[i].exclusive)
    ensures Rows(entries, i + 1) == Rows(entries, i)
  {
    EmptyRow(entries, i, |entries|);
    assert Pairs(entries, i) + [] == Pairs(entries, i);
  }

  method FindConflicts(surfaces: seq<Entry>) returns (conflicts: seq<Conflict>)
    ensures conflicts == ConflictsOf(surfaces, Pairs(surfaces, |surfaces|))
  {
    hide *;
    conflicts := [];
    RowsInAll(surfaces);
    for i := 0 to |surfaces|
      invariant conflicts == Rows(surfaces, i)
    {
      var left := surfaces[i];
      if !left.open || !left.exclusive {
        RowIsSkipped(surfaces, i);
        continue;
      }
      RowStartsAndEnds(surfaces, i);
      for j := i + 1 to |surfaces|
        invariant conflicts == RowsAndPart(surfaces, i, j)
      {
        var right := surfaces[j];
        RowGrows(surfaces, i, j);
        CollideMeans(left, right);
        if right.open && right.exclusive && right.monitor == left.monitor {
          conflicts := conflicts + [ConflictOf(left, right)];
        }
      }
    }
  }

  lemma {:induction false} EmptyRow(entries: seq<Entry>, i: nat, bound: nat)
    requires i < bound <= |entries| && !(entries[i].open && entries[i].exclusive)
    ensures PairsFrom(entries, i, bound) == []
  {
    if bound == i + 1 {
    } else {
      EmptyRow(entries, i, bound - 1);
    }
  }

  /** A conflict names the two surfaces that collide, the one listed first on its left. */
  lemma ConflictsNameTheCollisions(entries: seq<Entry>, k: nat)
    requires k < |Pairs(entries, |entries|)|
    ensures var p, c := Pairs(entries, |entries|)[k], ConflictsOf(entries, Pairs(entries, |entries|))[k];
            && p.left < p.right < |entries|
            && c.left.monitor == entries[p.left].monitor && c.left.surface == entries[p.left].surface
            && c.right.monitor == entries[p.right].monitor && c.right.surface == entries[p.right].surface
            && c.left.monitor == c.right.monitor
  {
    hide Pairs, ConflictsOf;
    PairsAreTheCollisions(entries, |entries|);
    assert Pairs(entries, |entries|)[k] in Pairs(entries, |entries|);
  }
}
