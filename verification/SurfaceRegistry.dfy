/** The inventory of per-screen surface flags and the groups derived from it. */
module SurfaceRegistry {
  import opened Wrappers

  /** A surface name; `Unknown` is any text that is not in the table. */
  datatype Flag =
    | Launcher | Session | Dashboard | Utilities | Settings | Sidebar
    | Overview | Calendar | WallpaperManager | Clipboard | Hardware | DisplayManager | Keyboards
    | Osd | Bar
    | Unknown(name: string)

  datatype Kind = Retained | Transient | Chrome

  datatype Surface = Surface(kind: Kind, exclusive: bool, ownsKeyboard: bool,
                             fullscreenGuard: bool, previewable: bool)

  function Find(flag: Flag): Option<Surface> {
    match flag
    case Launcher | Session => Some(Surface(Transient, true, true, true, true))
    case Dashboard => Some(Surface(Transient, true, false, true, true))
    case Utilities | Settings | Sidebar => Some(Surface(Transient, true, false, true, false))
    case Overview | Calendar | WallpaperManager | Clipboard | Hardware | DisplayManager | Keyboards =>
      Some(Surface(Retained, true, true, false, false))
    case Osd => Some(Surface(Transient, false, true, true, false))
    case Bar => Some(Surface(Chrome, false, false, false, false))
    case Unknown(_) => None
  }

  /** Every flag of the table, in closing order. */
  const NAMES: seq<Flag> := [
    Launcher, Session, Dashboard, Utilities, Settings, Sidebar,
    Overview, Calendar, WallpaperManager, Clipboard, Hardware, DisplayManager, Keyboards, Osd, Bar]

  predicate IsKnown(flag: Flag) { Find(flag).Some? }

  predicate IsRetained(flag: Flag) { Find(flag).Some? && Find(flag).value.kind == Retained }

  predicate IsSettable(flag: Flag) { Find(flag).Some? && Find(flag).value.kind != Chrome }

  predicate IsExclusive(flag: Flag) { Find(flag).Some? && Find(flag).value.exclusive }

  predicate IsFullscreenGuarded(flag: Flag) { Find(flag).Some? && Find(flag).value.fullscreenGuard }

  predicate IsPreviewable(flag: Flag) { Find(flag).Some? && Find(flag).value.previewable }

  predicate CompetesWithWallpaper(flag: Flag) { IsExclusive(flag) && flag != WallpaperManager }

  function Filter(flags: seq<Flag>, keep: Flag -> bool): (kept: seq<Flag>)
    ensures forall f :: f in kept <==> f in flags && keep(f)
  {
    if flags == [] then []
    else if keep(flags[0]) then [flags[0]] + Filter(flags[1..], keep)
    else Filter(flags[1..], keep)
  }

  function Exclusive(): (flags: seq<Flag>) { Filter(NAMES, IsExclusive) }

  function Previewable(): (flags: seq<Flag>) { Filter(NAMES, IsPreviewable) }

  function CompetingWithWallpaper(): (flags: seq<Flag>) { Filter(NAMES, CompetesWithWallpaper) }

  /** Where a known flag stands in the table. */
  function Position(flag: Flag): nat
    requires IsKnown(flag)
  {
    match flag
    case Launcher => 0 case Session => 1 case Dashboard => 2 case Utilities => 3 case Settings => 4
    case Sidebar => 5 case Overview => 6 case Calendar => 7 case WallpaperManager => 8 case Clipboard => 9
    case Hardware => 10 case DisplayManager => 11 case Keyboards => 12 case Osd => 13 case Bar => 14
  }

  /** The table lists exactly the known flags, each at its own position, hence once. */
  lemma NamesAreTheKnownFlags(flag: Flag)
    ensures flag in NAMES <==> IsKnown(flag)
    ensures IsKnown(flag) ==> Position(flag) < |NAMES| && NAMES[Position(flag)] == flag
  {
    hide Find, Position;
    if IsKnown(flag) {
      StandsAtPosition(flag);
    }
    if flag in NAMES {
      var i :| 0 <= i < |NAMES| && NAMES[i] == flag;
      ListedIsKnown(i);
    }
  }

  lemma StandsAtPosition(flag: Flag)
    requires IsKnown(flag)
    ensures Position(flag) < |NAMES| && NAMES[Position(flag)] == flag
  {
    hide IsKnown;
    KnownHasName(flag);
  }

  lemma KnownHasName(flag: Flag)
    ensures IsKnown(flag) <==> !flag.Unknown?
  {}

  lemma ListedIsKnown(i: nat)
    requires i < |NAMES|
    ensures IsKnown(NAMES[i])
  {}

  /** Each derived group holds exactly the flags its column of the table says. */
  lemma GroupMembership(flag: Flag)
    ensures flag in Exclusive() <==> IsExclusive(flag)
    ensures flag in Previewable() <==> IsPreviewable(flag)
    ensures flag in CompetingWithWallpaper() <==> CompetesWithWallpaper(flag)
  {
    NamesAreTheKnownFlags(flag);
  }

  lemma GroupsFollowTheTable()
    ensures forall f :: f in Exclusive() <==> IsExclusive(f)
    ensures forall f :: f in Previewable() <==> IsPreviewable(f)
    ensures forall f :: f in CompetingWithWallpaper() <==> CompetesWithWallpaper(f)
  {
    forall f
      ensures f in Exclusive() <==> IsExclusive(f)
      ensures f in Previewable() <==> IsPreviewable(f)
      ensures f in CompetingWithWallpaper() <==> CompetesWithWallpaper(f)
    {
      GroupMembership(f);
    }
  }

  /** The six panels of the drawers. */
  const PANELS: set<Flag> := {Launcher, Session, Dashboard, Utilities, Settings, Sidebar}

  /** The seven overlays with one instance for the seat. */
  const OVERLAYS: set<Flag> := {Overview, Calendar, WallpaperManager, Clipboard, Hardware, DisplayManager, Keyboards}

  /** The groups, surface by surface. */
  lemma GroupsAre(flag: Flag)
    ensures IsExclusive(flag) <==> flag in PANELS || flag in OVERLAYS
    ensures CompetesWithWallpaper(flag) <==> flag in PANELS || (flag in OVERLAYS && flag != WallpaperManager)
    ensures IsPreviewable(flag) <==> flag in {Launcher, Session, Dashboard}
    ensures IsFullscreenGuarded(flag) <==> flag in PANELS || flag == Osd
  {}

  lemma KindsAre(flag: Flag)
    ensures IsRetained(flag) <==> flag in OVERLAYS
    ensures IsSettable(flag) <==> flag in PANELS || flag in OVERLAYS || flag == Osd
    ensures Find(flag).Some? && Find(flag).value.ownsKeyboard <==> flag in {Launcher, Session, Osd} || flag in OVERLAYS
    ensures IsKnown(flag) <==> flag in PANELS || flag in OVERLAYS || flag == Osd || flag == Bar
  {}
}
