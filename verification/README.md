# Cortetsu policy proofs

Cortetsu is a desktop shell. Its decisions live in small libraries without side effects on the
desktop: which surface may be open on which screen, what text is sent to the compositor, what the
notification list becomes when its owner answers, how a search or a window grouping is computed. This
project models those libraries in Dafny and proves what they are for, over every input and every run.

The model keeps the form of the code. The overlay policy is a set of methods over heap objects (a
legacy screen state and its typed state alias the same flags), each proved against a function on the
whole seat; the runs of the policy are then studied on those functions. Loops stay loops, proved
against a declarative specification. Code that only computes stays a function with lemmas about it.

Text is a sequence of UTF-16 code units where the source is JavaScript (`Unicode.Text`), since lone
surrogates matter there, and a `string` where the source is Python. Numbers are unbounded, with the
64-bit, 32-bit and safe-integer limits of the source written out.

## Parts

| files | subject |
|---|---|
| `SurfaceRegistry`, `OverlayModel`, `ScreenStates`, `OverlayPolicy` | the surface table, the seat as a value, the screen state objects, the policy methods over them |
| `OverlayEffects`, `OverlayRuns`, `ScreenRuns`, `ExplicitRuns`, `RetainedRuns`, `KeyboardOwners`, `OverlayGaps`, `OverlaySession` | the invariant of the seat, what each call does to it, runs of any length, each part of the invariant by itself, who asks for the keyboard, where the policy breaks its own rules, sequences of calls on the objects |
| `ShellInspect`, `ShellConflicts` | the inspection snapshot, and that reachable policy states show no conflict |
| `Unicode`, `Decimals`, `WhiteSpace`, `Splitting`, `Sequences` | UTF-16 text and its UTF-8 encoding, decimal numerals, `trim`, `split` and `join`, first occurrences |
| `PolicyModel`, `Utf8Reader`, `LuaText`, `HyprActions`, `HyprCommands`, `HyprReader`, `LegacyReader` | byte lengths, a decoder, Lua string literals, window-move commands, templates of all commands, readers of their two texts |
| `NotificationModel`, `ClearMarker`, `NotificationRuns` | the reducer, the clear revision, the service around them |
| `BalancedQml`, `WallpaperSearch` | the bracket matcher, the subsequence search |
| `TerseFields`, `TerseProperties`, `Ipv4`, `HiddenNetwork` | nmcli output, IPv4 settings, hidden SSIDs |
| `BottomHubGroups`, `WorkspaceIcons`, `DesktopEntries`, `DesktopMeaning` | window groups, workspace icons, desktop entries and what they mean |
| `RealmInput`, `Schemes` | pointer events of a realm, colour arithmetic |

## Where the code is not what it is said to be

For each of these a lemma gives an input on which the statement fails, and another says when exactly
it holds.

- **Previews through a typed handle.** The policy says a state may be given as its legacy object, its
  typed state or a plain object (`CortetsuOverlayPolicy.js:8-10`). `openPreview` records the cause
  through `target.cortetsuState`, which only a legacy object has, so through any other handle the
  preview opens as an explicit surface without closing anything. `TypedPreviewBreaksTheSeat` gives
  the run; `PreviewKeepsInvariantExactly` says when a preview request keeps the seat in order.
- **Opening through a typed handle.** For the same reason `open` through a typed handle leaves a
  preview a preview (`TypedOpeningStaysPreview`). `ExclusiveOpening` says when the opened surface is
  explicit.
- **Looking for previews through typed handles.** `hasPreviewOnOtherScreen` misses a preview on a
  screen that is listed by its typed handle (`TypedListingHidesPreview`). `SeesLegacyPreviewsOnly`
  says what it finds.
- **A single keyboard owner.** The policy's comments speak of one keyboard owner on the seat
  (`CortetsuOverlayPolicy.js:94-95`). The OSD owns the keyboard and is not exclusive, so an OSD on one
  screen and a surface on another both ask for it (`OsdAndCalendarBothAsk`). So do two explicit
  surfaces, which a typed-handle preview can leave (`TypedHoverAsksToo`). `SingleOwnerExactly` says
  that on a seat with one explicit surface the OSD is the only way, and `RunsKeepOneExplicit` which
  runs keep one.
- **Every screen in `states`.** An exclusive opening closes the surfaces of the screens it is given.
  The header says these are all screens (`CortetsuOverlayPolicy.js:8`), and nothing checks it: with one
  screen left out, two explicit surfaces stay open (`UnlistedScreenBreaksTheSeat`). One opening that is
  given every screen repairs the seat after any run (`AnyRunIsRepaired`).
  `OpeningKeepsInvariantExactly` says for which lists an opening is safe; runs are lawful by that
  condition, and the documented list always satisfies it (`DocumentedIsLawful`).
- **One instance of a retained surface.** The policy says a retained surface is one instance for the
  seat (`CortetsuOverlayPolicy.js:138-140`). Opened on two screens, each listing only itself, it is
  open on both (`UnlistedOpeningLeavesTwo`). `OpeningLeavesOneExactly` says when an opening leaves one,
  and `RunsKeepOneInstance` which runs do.
- **What toggles report.** A toggle is said to return whether the flag ends open on its target
  (`CortetsuOverlayPolicy.js:123-125`). Closing a retained surface only on the listed screens, it can
  answer that the flag is closed while its target still shows it (`UnlistedToggleMisreports`).
  `TogglesReportExactly` says that this is the only case.
- **Workspaces with a number for a name.** The legacy text of a move does not tell the workspace number 5
  from the workspace named 5 (`FiveAndItsName`), while the Lua text does. `LegacyIsInjective` says which
  moves share a legacy text.
- **`properties` and inherited names.** The result object starts as `{}`, so a key such as
  `constructor` finds an inherited value, and `push` fails on it (`ConstructorFails`,
  `InheritedKeyFails`). `Properties` fails exactly when some row's base key is such a name.
- **The order of desktop entries.** Two entries can swap the result of `desktopEntryForWindow`
  (`TwinsDependOnOrder`), exactly when the first two phases find nothing and two different pinned
  entries match the Steam id (`OrderIndependentExactly`).
- **Keys of windows.** A window whose class spells the key of an anonymous window joins its group
  (`ClassJoinsAnonymous`), and so does one whose address is a position (`AddressJoinsPosition`).
  `ClientsShareKeyExactly` says when two clients share a key.
- **Drags that leave the desktop.** A drag whose start is in bounds and whose end is not presses the
  button and never releases it (`LeavingDragStops`, `DragButtons`). `DragCompletesExactly` says when
  all 24 points are sent.
- **Quotes across lines.** The bracket matcher carries an open quote over the line break
  (`QuoteCrossesLines`), and a trailing backslash inside it too (`EscapeCrossesLines`), and does not
  report a quote that is never closed (`OpenQuoteIsAccepted`). `AcceptsExactlyDyck` is the exact reading.
- **Reported conflicts.** Conflicts are reported by monitor name, so two screens with one name are
  reported although the policy lets each show an exclusive surface as long as at most one of them is
  explicit (`SharedNameIsReported`). One screen is reported as well after two openings that do not list
  it (`UnlistedTargetIsReported`). `ConflictsExactly` says that these two kinds are all, and
  `RunsAreConflictFreeExactly` which runs are never reported under distinct names.
- **Wide desktops.** A pointer motion is sent in 32 bits although its bounds are checked in 64
  (`WideMotionIsSentOutside`). `MotionIsSentExactly` says when it is sent as asked for.

## Model

| member | source | states |
|---|---|---|
| SurfaceRegistry.NamesAreTheKnownFlags | cortetsu/modules/SurfaceRegistry.js:27-67 | The table lists exactly the known flags, each once. |
| SurfaceRegistry.GroupMembership | cortetsu/modules/SurfaceRegistry.js:47-59 | A flag is in a derived group exactly when its column of the table says so. |
| SurfaceRegistry.GroupsFollowTheTable | cortetsu/modules/SurfaceRegistry.js:27-59 | The same for all flags at once, for the exclusive, previewable and wallpaper-competing groups. |
| SurfaceRegistry.GroupsAre | cortetsu/tests/qml/surfaces/tst_SurfaceRegistry.qml:60-76 | The exclusive, wallpaper-competing, previewable and fullscreen-guarded surfaces, one by one. |
| SurfaceRegistry.KindsAre | cortetsu/tests/qml/surfaces/tst_SurfaceRegistry.qml:60-76 | The retained, settable, keyboard-owning and known surfaces, one by one. |
| ScreenStates.TypedState.SetOpenCause | cortetsu/modules/CortetsuScreenState.qml:44-54 | Records or forgets the cause of a settable flag, refuses any other flag, and touches no flag. |
| ScreenStates.TypedState.SetFlag | cortetsu/modules/CortetsuScreenState.qml:60-67 | Writes the legacy flag if it is writable; a previewable flag that closes loses its cause. |
| ScreenStates.TypedState.SetRetained | cortetsu/modules/CortetsuScreenState.qml:81-86 | Writes retained flags and refuses the others. |
| ScreenStates.ScreenState.Assign | cortetsu/modules/CortetsuScreenState.qml:90-104 | A legacy write with the observers of the typed state: closing an open previewable flag forgets its cause. |
| ScreenStates.ScreenState.Registered | cortetsu/components/ScreenState.qml:10-46 | A registered screen declares every flag of the table, all closed, with no cause recorded. |
| ScreenStates.ScreenState.Plain | cortetsu/modules/CortetsuOverlayPolicy.js:8-10 | A plain object shows its own properties and records no cause. |
| ScreenStates.WriteFlag | cortetsu/modules/OverlayPolicy.js:11-21 | The dispatch between typed, legacy and plain states writes the same screen for every alias. |
| OverlayPolicy.SetFlag | cortetsu/modules/OverlayPolicy.js:11-21 | On the seat: only the target's flag changes, the result says whether it was writable, nothing happens for a missing state. |
| OverlayPolicy.CloseFlags | cortetsu/modules/OverlayPolicy.js:23-28 | The loop closes the listed flags of one screen at once, whatever their order or repetition, and nothing elsewhere. |
| OverlayPolicy.CloseOtherPanels | cortetsu/modules/OverlayPolicy.js:30-32 | Every exclusive flag of the screen is closed, whichever alias is given. |
| OverlayPolicy.CloseForWallpaper | cortetsu/modules/OverlayPolicy.js:34-36 | Every exclusive flag except the wallpaper manager is closed. |
| OverlayModel.ClosingOneMore | cortetsu/modules/OverlayPolicy.js:23-28 | Writing false to one more flag equals closing the larger set, causes included. |
| OverlayModel.ClosingTwice | cortetsu/modules/CortetsuOverlayPolicy.js:39-49 | Closing a screen again through another alias changes nothing. |
| OverlayPolicy.QueriesReadTheSeat | cortetsu/modules/CortetsuOverlayPolicy.js:17-33 | isOpen and isPreview on a heap reference say what the seat shows through that handle. |
| OverlayPolicy.NoteCause | cortetsu/modules/CortetsuOverlayPolicy.js:57 | A cause is recorded through a legacy handle with a typed state and through no other. |
| OverlayPolicy.CloseExclusiveOn | cortetsu/modules/CortetsuOverlayPolicy.js:41-47 | One listed screen loses its exclusive flags; the target's screen, under whatever alias it is listed, keeps the excepted one. |
| OverlayPolicy.CloseExclusiveEverywhere | cortetsu/modules/CortetsuOverlayPolicy.js:39-49 | The nested loops over an arbitrary mix of aliases equal one simultaneous closing of all listed screens. |
| OverlayPolicy.Open | cortetsu/modules/CortetsuOverlayPolicy.js:54-61 | The seat and result after opening, for any listing, target kind and flag, refusals included. |
| OverlayPolicy.OpenPreview | cortetsu/modules/CortetsuOverlayPolicy.js:66-81 | The seat and result after a preview request, with every refusal and the no-change answer. |
| OverlayPolicy.RefusalsReadTheSeat | cortetsu/modules/CortetsuOverlayPolicy.js:67-75 | The checks on heap references refuse exactly the requests the seat-level predicate refuses. |
| OverlayPolicy.HasPreviewOnOtherScreen | cortetsu/modules/CortetsuOverlayPolicy.js:89-92 | True exactly when a listed legacy handle of another screen shows a preview. |
| OverlayPolicy.PromotePreview | cortetsu/modules/CortetsuOverlayPolicy.js:96-100 | Promotes through the ordinary opening, only if the flag is a preview there. |
| OverlayPolicy.CloseOn | cortetsu/modules/CortetsuOverlayPolicy.js:102-107 | The seat and result after closing one flag on one target. |
| OverlayPolicy.ClosePreview | cortetsu/modules/CortetsuOverlayPolicy.js:109-113 | Closes only what is a preview. |
| OverlayPolicy.Close | cortetsu/modules/CortetsuOverlayPolicy.js:115-121 | The loop over the listed states closes the flag on each of them. |
| OverlayPolicy.ToggleOn | cortetsu/modules/CortetsuOverlayPolicy.js:126-136 | Promotes a preview, closes an explicit surface, opens a closed one; the whole seat is stated. |
| OverlayPolicy.Toggle | cortetsu/modules/CortetsuOverlayPolicy.js:141-147 | A retained surface open anywhere is closed everywhere; otherwise toggles on the target. |
| OverlayPolicy.ToggleGuarded | cortetsu/modules/CortetsuOverlayPolicy.js:151-155 | Fullscreen blocks opening a guarded flag, never closing it. |
| OverlayEffects.OpenedAt | cortetsu/modules/CortetsuOverlayPolicy.js:54-61 | Flag by flag, what an accepted opening does to any screen: openness, cause and writability. |
| OverlayEffects.ExclusiveOpening | cortetsu/modules/CortetsuOverlayPolicy.js:35-61 | The opened pair is the only exclusive one left on the listed screens; OSD and bar stay as they were everywhere; the cause is explicit unless a typed handle opened a preview. |
| OverlayEffects.SeatWideOpening | cortetsu/modules/CortetsuOverlayPolicy.js:54-92 | With all screens listed the opened pair is the only exclusive one on the seat, and no other screen shows a preview. |
| OverlayEffects.FullOpeningRepairs | cortetsu/modules/CortetsuOverlayPolicy.js:35-61 | With all screens listed, an exclusive opening establishes the invariant on any seat whose previews are open, whatever else it showed. |
| OverlayEffects.OpeningKeepsInvariantExactly | cortetsu/modules/CortetsuOverlayPolicy.js:35-61 | For every list of screens: opening keeps one explicit exclusive surface per seat, one exclusive surface per screen and previews only on open previewable flags, if and only if it opens nothing exclusive, or the target is listed or shows nothing else exclusive, and no unlisted screen shows something explicit unless the opened surface stays a preview. |
| OverlayEffects.ClosedOnAt | cortetsu/modules/CortetsuOverlayPolicy.js:102-107 | Closing one flag leaves every other flag and cause of every screen as it was. |
| OverlayEffects.ClosingKeepsInvariant | cortetsu/modules/CortetsuOverlayPolicy.js:102-107 | Closing keeps the invariant. |
| OverlayEffects.ClosedOnEachAt | cortetsu/modules/CortetsuOverlayPolicy.js:115-121 | Closing a flag on a list closes exactly its occurrences on the listed screens, on any seat of complete screens. |
| OverlayEffects.PreviewOpenedAt | cortetsu/modules/CortetsuOverlayPolicy.js:66-81 | Flag by flag, what an accepted preview does to any screen. |
| OverlayEffects.PreviewRecordsItsGesture | cortetsu/modules/CortetsuOverlayPolicy.js:66-81 | An accepted hover records `hover_preview` and an accepted drag `drag_preview`, repeating the gesture changes nothing and answers true, and otherwise the answer is whether the flag can be written; a refused request answers false. |
| OverlayEffects.PreviewKeepsInvariantExactly | cortetsu/modules/CortetsuOverlayPolicy.js:63-81 | A preview request keeps the invariant if and only if it is refused, its cause can be recorded, its flag cannot be written, or nothing on the seat is explicit. |
| OverlayRuns.StepKeepsInvariant | cortetsu/modules/CortetsuOverlayPolicy.js:39-155 | Each of the nine calls keeps the invariant if and only if what it opens, if anything, is safe. |
| OverlayRuns.DocumentedIsLawful | cortetsu/modules/CortetsuOverlayPolicy.js:8-12 | A caller that lists every screen makes only such calls, previews apart. |
| OverlayEffects.CoversExactly | cortetsu/modules/CortetsuOverlayPolicy.js:8-10 | A list covers the seat if and only if every screen is in it through one of its handles. |
| OverlayRuns.RunsKeepInvariant | cortetsu/modules/CortetsuOverlayPolicy.js:39-155 | From a closed seat, the sequences of lawful calls are exactly those that keep the invariant throughout. |
| ScreenRuns.OpeningKeepsOnePerScreenExactly | cortetsu/modules/CortetsuOverlayPolicy.js:35-61 | An opening keeps every screen to one exclusive surface if and only if it opens nothing exclusive, or its target is listed or shows nothing else exclusive. |
| ScreenRuns.PreviewKeepsOnePerScreen | cortetsu/modules/CortetsuOverlayPolicy.js:63-81 | A preview request keeps every screen to one exclusive surface, through any handle. |
| ScreenRuns.RunsKeepOnePerScreen | cortetsu/modules/CortetsuOverlayPolicy.js:39-155 | From a closed seat, the runs that keep every screen to one exclusive surface are exactly those whose openings do. |
| ScreenRuns.ListedTargetsKeepOnePerScreen | cortetsu/modules/CortetsuOverlayPolicy.js:39-155 | Listing each opening's own target is enough for that, whatever else is listed and through whatever handles. |
| ExplicitRuns.OpeningKeepsOneExplicitExactly | cortetsu/modules/CortetsuOverlayPolicy.js:35-61 | An opening keeps the seat to one explicit surface if and only if it opens nothing exclusive, stays a preview, or leaves no other explicit surface on an unlisted screen. |
| ExplicitRuns.PreviewKeepsOneExplicitExactly | cortetsu/modules/CortetsuOverlayPolicy.js:63-81 | A preview request keeps the seat to one explicit surface if and only if it is refused, its cause can be recorded, its flag cannot be written, or nothing is explicit. |
| ExplicitRuns.RunsKeepOneExplicit | cortetsu/modules/CortetsuOverlayPolicy.js:39-155 | From a closed seat, the runs that keep the seat to one explicit surface are exactly those whose openings and previews do. |
| RetainedRuns.OpeningLeavesOneExactly | cortetsu/modules/CortetsuOverlayPolicy.js:51-61 | On any complete seat, opening a retained surface leaves one instance if and only if no unlisted screen other than the target shows it. |
| RetainedRuns.RunsKeepOneInstance | cortetsu/modules/CortetsuOverlayPolicy.js:138-147 | From a closed seat, the runs that keep one instance of a retained surface are exactly those whose openings of it do. |
| RetainedRuns.RetainedIsOneInstance | cortetsu/modules/CortetsuOverlayPolicy.js:138-140 | A retained surface is one instance after every run in which the calls that may open it list every screen, whatever other calls list and through whatever handles. |
| RetainedRuns.InvariantHasOneInstance | cortetsu/modules/CortetsuOverlayPolicy.js:138-140 | The invariant, and so every lawful run, has one instance of every retained surface. |
| OverlayRuns.CallIsEffect | cortetsu/modules/CortetsuOverlayPolicy.js:54-155 | Each of the nine calls is one opening, one preview, or one flag closed on some screens, as the seat decides. |
| OverlayRuns.StepStaysTidy | cortetsu/modules/CortetsuOverlayPolicy.js:39-155 | Each of the nine calls, lawful or not, keeps every flag declared and previews only on open previewable flags. |
| OverlayRuns.RunsStayTidy | cortetsu/modules/CortetsuOverlayPolicy.js:39-155 | So does every run. |
| OverlayRuns.AnyRunIsRepaired | cortetsu/modules/CortetsuOverlayPolicy.js:35-61 | After any run, one exclusive opening that lists every screen establishes the invariant. |
| OverlayRuns.RegisteredSeatIsClosed | cortetsu/components/ScreenState.qml:36-46 | Registered screens form a closed seat, so runs have a start. |
| OverlayGaps.TypedPreviewBreaksTheSeat | cortetsu/modules/CortetsuOverlayPolicy.js:66-81 | Calendar on one screen and a Launcher hover through the typed handle of another break the invariant. |
| OverlayGaps.TypedOpeningStaysPreview | cortetsu/modules/CortetsuOverlayPolicy.js:54-61 | Opening a hovered Launcher through the typed handle answers true and leaves it a preview. |
| OverlayGaps.SeesLegacyPreviewsOnly | cortetsu/modules/CortetsuOverlayPolicy.js:83-92 | A preview elsewhere is found if and only if another screen that shows one is listed by its legacy handle. |
| OverlayGaps.TypedListingHidesPreview | cortetsu/modules/CortetsuOverlayPolicy.js:89-92 | A seat on which the search finds a preview by legacy handles and misses it by typed ones. |
| OverlayGaps.UnlistedScreenBreaksTheSeat | cortetsu/modules/CortetsuOverlayPolicy.js:39-61 | Calendar on one screen, then Clipboard on another that alone is listed, break the invariant. |
| OverlayGaps.UnlistedTargetIsReported | cortetsu/modules/CortetsuShellInspect.js:146-161 | Calendar and Clipboard opened on one screen with an empty list are both open, and the inspection of that screen reports them. |
| OverlayGaps.SharedNameIsReported | cortetsu/modules/CortetsuShellInspect.js:146-161 | A lawful run after which two screens with one name are reported as a conflict. |
| OverlayRuns.ToggleOnReports | cortetsu/modules/CortetsuOverlayPolicy.js:123-136 | The result says whether the flag ends open on the target. |
| OverlayRuns.TogglesReportExactly | cortetsu/modules/CortetsuOverlayPolicy.js:138-155 | The same for toggle and toggleGuarded, if and only if the toggle does not close a retained surface on listed screens while its own target is open and not listed. |
| RetainedRuns.TogglesReport | cortetsu/modules/CortetsuOverlayPolicy.js:138-155 | While a retained surface has one instance, every toggle of it reports whether it ends open on its target. |
| OverlayGaps.UnlistedOpeningLeavesTwo | cortetsu/modules/CortetsuOverlayPolicy.js:51-61 | Calendar opened on two screens in turn, each listing only itself, is open on both. |
| OverlayGaps.UnlistedToggleMisreports | cortetsu/modules/CortetsuOverlayPolicy.js:138-147 | With one screen left out of each list, Calendar is open on two screens, and toggling it on one answers false and leaves it open there. |
| OverlayRuns.FullscreenNeverOpens | cortetsu/modules/CortetsuOverlayPolicy.js:149-155 | Over a fullscreen window, toggling a guarded flag opens nothing on any screen. |
| OverlaySession.Perform | cortetsu/modules/CortetsuOverlayPolicy.js:39-155 | Each of the nine calls on the objects, with any mix of handles, has the result and the seat of the model's call. |
| OverlaySession.PerformAll | cortetsu/modules/CortetsuOverlayPolicy.js:8-12 | A sequence of calls on the objects is a run of the seat: on registered screens lawful ones end in the invariant, and all end with previews only where they are open. |
| OverlaySession.RegisteredSeatIsFresh | cortetsu/components/ScreenState.qml:36-46 | Objects that were just registered make the seat that runs start from. |
| KeyboardOwners.OwnersAreExclusiveOrOsd | cortetsu/modules/SurfaceRegistry.js:27-45 | Every surface that owns the keyboard is exclusive, except the OSD. |
| KeyboardOwners.SingleOwnerExactly | cortetsu/modules/CortetsuScreenState.qml:22-25 | On a seat with one explicit surface, one screen at most asks for the keyboard, if and only if no OSD is open beside another owner. |
| KeyboardOwners.OneOwnerWithoutOsd | cortetsu/modules/CortetsuOverlayPolicy.js:35-38 | Over every run that keeps one explicit surface and leaves the OSD closed, at most one screen asks for the keyboard. |
| KeyboardOwners.OsdAndCalendarBothAsk | cortetsu/modules/CortetsuOverlayPolicy.js:94-100 | A lawful two-call run after which two screens ask for the keyboard. |
| KeyboardOwners.TypedHoverAsksToo | cortetsu/modules/CortetsuOverlayPolicy.js:63-81 | Without any OSD, Calendar on one screen and a Launcher hover through another's typed handle both ask. |
| ShellInspect.BuildSnapshot | cortetsu/modules/CortetsuShellInspect.js:74-161 | The surface list, the open states, the retained overlays and the conflicts of a snapshot, each given by its own specification. |
| ShellInspect.OpenedKeepsPlace | cortetsu/modules/CortetsuShellInspect.js:100-104 | Every open entry stands in the list of open states, and every open retained one in that of overlays, after exactly the earlier ones. |
| ShellInspect.OpenedAddsNothing | cortetsu/modules/CortetsuShellInspect.js:100-104 | The two lists hold nothing else. |
| ShellInspect.FindConflicts | cortetsu/modules/CortetsuShellInspect.js:146-161 | The nested loop reports the colliding pairs in order. |
| ShellInspect.PairsAreTheCollisions | cortetsu/modules/CortetsuShellInspect.js:146-161 | Every pair of open exclusive surfaces on one monitor is listed exactly once, and nothing else. |
| ShellInspect.ConflictsNameTheCollisions | cortetsu/modules/CortetsuShellInspect.js:146-161 | A conflict names the monitor and surface of both entries, the one listed first on its left. |
| ShellConflicts.InspectedAt | cortetsu/modules/ShellLifecycle.qml:13-39 | Where each screen's flag stands in the inspected list, and that the entry there has the policy's openness and cause, the table's columns and the right host. |
| ShellConflicts.GestureIsInspected | cortetsu/modules/CortetsuShellInspect.js:90-99 | After an accepted preview the inspection reports the surface as open, with the cause of its gesture. |
| ShellConflicts.CollisionAt | cortetsu/modules/CortetsuShellInspect.js:149-153 | Two inspected entries collide exactly when both flags are open and exclusive and the screens' names agree. |
| ShellConflicts.ConflictsExactly | cortetsu/modules/CortetsuShellInspect.js:146-161 | On any seat, conflicts are reported if and only if a listed screen shows two exclusive surfaces, or two listed screens share a monitor name and both show one. |
| ShellConflicts.RunsAreConflictFreeExactly | cortetsu/modules/CortetsuShellInspect.js:146-161 | With distinct monitor names and all screens inspected, a run of the policy never leads to a reported conflict if and only if none of its openings puts a second exclusive surface on its screen. |
| ShellConflicts.RunsAreConflictFree | cortetsu/modules/CortetsuShellInspect.js:146-161 | With distinct monitor names, no run whose openings list their own targets leads to a reported conflict, whatever else they list and through whatever handles. |
| PolicyModel.Utf8Length | cortetsu/modules/CortetsuPolicyModel.js:139-152 | The loop's count is the length of the UTF-8 encoding (section 3 of RFC 3629), a lone surrogate counting three bytes. |
| Unicode.Utf8IsInjective | cortetsu/modules/CortetsuPolicyModel.js:139-152 | The reference encoder loses nothing: equal bytes come from equal texts, lone surrogates included. |
| Utf8Reader.Utf8ReadsBack | cortetsu/modules/CortetsuPolicyModel.js:139-152 | A decoder by lead and continuation bytes gives every encoded text back, lone surrogates included. |
| LuaText.LuaString | cortetsu/modules/CortetsuHyprActions.js:3-31 | The loop yields the literal of the text, and null exactly on texts with a lone surrogate. |
| LuaText.LiteralReadsBack | cortetsu/modules/CortetsuHyprActions.js:3-31 | Reading the UTF-8 of a literal followed by any bytes with Lua's short-string rules (section 3.1 of the Lua 5.4 Reference Manual) yields the UTF-8 of the text and leaves exactly those bytes. |
| LuaText.LiteralIsInjective | cortetsu/modules/CortetsuHyprActions.js:3-31 | Different texts have different literals. |
| LuaText.ReadsDecimal | cortetsu/modules/CortetsuHyprActions.js:16-17 | A control character's three-digit escape reads back as that character whatever digits follow. |
| HyprActions.MoveReadsBack | cortetsu/modules/CortetsuHyprActions.js:144-158 | The Lua command of a move parses back to its window selector, workspace and follow flag. |
| HyprActions.MoveIsInjective | cortetsu/modules/CortetsuHyprActions.js:144-158 | Equal commands come from equal selectors, workspaces and flags. |
| HyprActions.MoveAccepted | cortetsu/modules/CortetsuHyprActions.js:39-79 | When a move yields a command at all, input by input. |
| HyprActions.AddressIsNormalised | cortetsu/modules/CortetsuHyprActions.js:63-69 | An address is accepted if and only if it is hexadecimal digits, bare or after `0x` or `0X`, and all spellings of the same digits become `0x` and those digits. |
| HyprActions.LegacyIsInjective | cortetsu/modules/CortetsuHyprActions.js:153-157 | Two accepted moves that have a legacy text share it if and only if their selectors and follow flags are equal and their workspaces are equal or a number and a name spelled like it. |
| HyprActions.WorkspacesShareLegacyExactly | cortetsu/modules/CortetsuHyprActions.js:55-61 | Two workspaces share their legacy text if and only if they are equal or a number and a name spelled like it. |
| HyprActions.FiveAndItsName | cortetsu/modules/CortetsuHyprActions.js:144-158 | Moves to the workspace number 5 and to the workspace named 5 have the same legacy text. |
| HyprActions.LegacyWorkspaceHasNoComma | cortetsu/modules/CortetsuHyprActions.js:47-61 | A workspace in a legacy command never contains the separator. |
| HyprCommands.RenderReadsBack | cortetsu/modules/CortetsuHyprActions.js:86-191 | Any filled-in template whose code and arguments alternate is taken apart by one reader into exactly its code, strings and numbers. |
| HyprCommands.BareIsQuoted | cortetsu/modules/CortetsuHyprActions.js:178-187 | Quoting a connector name by hand is what `luaString` would do. |
| HyprCommands.CommandReadsBack | cortetsu/modules/CortetsuHyprActions.js:86-191 | Every accepted command, of all builders but the cursor's, is read back to its code and its arguments. |
| HyprReader.LuaSaysTheCommand | cortetsu/modules/CortetsuHyprActions.js:86-191 | A reader with its own words gets from every accepted Lua text the command it came from: builder, window digits, workspace, flags, on or off, connector, and the default special workspace. |
| HyprReader.AcceptedExactly | cortetsu/modules/CortetsuHyprActions.js:39-191 | A command is accepted if and only if its address is spelled in hexadecimal digits, its workspace is a positive safe integer or a non-empty well-formed name, its special name is well-formed, its flags are boolean and its connector is missing or made of letters, digits and `_.-`. |
| HyprCommands.LuaIsInjective | cortetsu/modules/CortetsuHyprActions.js:86-191 | Two accepted commands, of the same builder or of different ones, have the same Lua text if and only if they are of one builder with equal arguments, up to the spelling of an address and the name of the default special workspace. |
| HyprCommands.LegacyIsSharedExactly | cortetsu/modules/CortetsuHyprActions.js:81-191 | Two accepted commands that have a legacy text share it if and only if they are of one builder with equal arguments, up to the spelling of an address, the name of the default special workspace, and a workspace's number and a name spelled like it. |
| LegacyReader.LegacySaysTheCommand | cortetsu/modules/CortetsuHyprActions.js:81-191 | A reader of words gets from every legacy text the command it came from, a name that is a numeral read as its number. |
| LegacyReader.HasLegacyExactly | cortetsu/modules/CortetsuHyprActions.js:47-61 | An accepted command has a legacy text if and only if it names no workspace, a number, or a name without control characters, commas, semicolons, quotes and backslashes. |
| HyprCommands.MoveLegacyIsTheAction | cortetsu/modules/CortetsuHyprActions.js:153-157 | The legacy text of the move among these commands is that of moveWindow. |
| HyprCommands.MoveIsTheAction | cortetsu/modules/CortetsuHyprActions.js:144-158 | The move template is accepted exactly when moveWindow is, and has its text. |
| NotificationModel.NormaliseEntries | cortetsu/modules/CortetsuNotificationModel.js:10-27 | The loop accepts exactly lists of identified items without repeated ids, within the limits, and returns them in order with textual ids. |
| NotificationModel.IdReadsAs | cortetsu/modules/CortetsuNotificationModel.js:18-22 | An id is accepted if and only if it is a text of 1 to 512 units or a safe integer; it is kept as that text or as the numeral of that integer. |
| NotificationModel.IdsCollideExactly | cortetsu/modules/CortetsuNotificationModel.js:20-23 | Two accepted ids are one if and only if they are equal or one is a text that spells the other. |
| NotificationModel.BatchHoldsSubmission | cortetsu/modules/CortetsuNotificationModel.js:36-47 | A batch exists if and only if the list is acceptable, the base ids fit and the revision is a safe integer; it holds every item in order under its textual id with its content, every base id once, and the revision. |
| NotificationModel.AnswerSplitsSubmitted | cortetsu/modules/CortetsuNotificationModel.js:49-57 | An answer splits the submitted ids exactly into removed ones and ones the owner still saves; nothing else is removed. |
| NotificationModel.RereadRemovesNothing | cortetsu/modules/CortetsuNotificationModel.js:59-64 | An external edit removes nothing if and only if it still has every saved id; reading one's own saved list again changes nothing. |
| NotificationRuns.StepRemovesExactly | cortetsu/services/Notifs.qml:64-134 | A live notification goes if and only if the step dismisses it, clears, answers a batch that held it with a list that leaves it out, or is an applied edit that leaves it out once it was saved. |
| NotificationRuns.StepAddsExactly | cortetsu/services/Notifs.qml:104-120 | A notification comes onto the list if and only if it arrives or the first reading of the history, with no clear pending, lists it. |
| NotificationRuns.SendsExactly | cortetsu/services/Notifs.qml:84-100 | A list is sent if and only if no batch is in flight, the clear revision is known and the list is acceptable; the batch is about the saved ids and the sent ones, at that revision. |
| NotificationRuns.InFlightExactly | cortetsu/services/Notifs.qml:84-236 | A batch is in flight if and only if a list was sent that was neither answered nor abandoned since. |
| NotificationRuns.SavedFollowsLists | cortetsu/services/Notifs.qml:104-134 | The saved list changes only by a clear, the first reading, or an answer or edit that is applied, which it then is; an edit during a batch or a pending clear changes nothing. |
| NotificationRuns.AnswerRemovesExactly | cortetsu/services/Notifs.qml:208-227 | In any run, the answer to a sent list takes off exactly the ids that were saved or sent with it and that it leaves out, and becomes the saved list; an unacceptable answer changes neither. |
| NotificationRuns.RunsStayRegular | cortetsu/services/Notifs.qml:121-134 | Over every run the saved list stays one that a batch can be prepared from. |
| NotificationRuns.ClearIsOfReadings | cortetsu/services/Notifs.qml:64-79 | Over every run the clear state is that of the markers read, so its revision is the highest valid one. |
| NotificationRuns.LateArrivalsSurvive | cortetsu/modules/CortetsuNotificationModel.js:3-5 | Over every run with arbitrary answers, a live notification stays throughout if and only if no step dismisses it, clears, or applies a list without it after the owner was told about it. |
| NotificationRuns.ArrivalInFlightSurvivesAnswer | cortetsu/services/Notifs.qml:208-227 | What arrives while a batch is in flight survives its answer. |
| NotificationRuns.RereadIsStable | cortetsu/services/Notifs.qml:121-134 | After an answer was applied, re-reading that list changes nothing of the service. |
| ClearMarker.FoldIsHighest | cortetsu/modules/CortetsuNotificationModel.js:76-83 | Observing any sequence of readings keeps the highest valid revision seen. |
| ClearMarker.ObservesExactly | cortetsu/modules/CortetsuNotificationModel.js:76-83 | A reading is taken if and only if its revision is a safe integer not below the known one and its mark is boolean or absent; it clears if and only if it is above a known one. |
| ClearMarker.FiresAtNewMaxima | cortetsu/modules/CortetsuNotificationModel.js:76-83 | A clear fires exactly at each strict new maximum after the first valid reading. |
| ClearMarker.PendingIsOfLastHighest | cortetsu/modules/CortetsuNotificationModel.js:81-82 | The pending mark is that of the last reading with the highest revision. |
| ClearMarker.OrderDoesNotMatter | cortetsu/services/Notifs.qml:64-72 | Reordering or repeating readings leads to the same revision. |
| BalancedQml.RequireBalanced | scripts/features/test-bottom-hub-v3.py:33-62 | The stack loop over split lines gives the verdict, line and bracket of the specification over all visible brackets. |
| BalancedQml.DyckIsReduction | scripts/features/test-bottom-hub-v3.py:34-36 | A word reduces to the empty stack if and only if it is in the inductively defined three-bracket Dyck language. |
| BalancedQml.AcceptsExactlyDyck | scripts/features/test-bottom-hub-v3.py:33-62 | A text is accepted if and only if its brackets outside quotes form a Dyck word. |
| BalancedQml.WrappedExactly | scripts/features/test-bottom-hub-v3.py:35 | Two characters around a Dyck word make one if and only if they are `{}`, `()` or `[]`. |
| BalancedQml.AcceptsPairsExactly | scripts/features/test-bottom-hub-v3.py:51-58 | A text whose inner part is balanced is accepted if and only if the characters around it are such a pair or none of the six brackets. |
| BalancedQml.QuotationsAreHidden | scripts/features/test-bottom-hub-v3.py:42-53 | Leaving a quotation in single quotes, double quotes or backticks out of a text, escapes and the other marks inside it included, does not change whether the text is accepted. |
| BalancedQml.RejectionPoint | scripts/features/test-bottom-hub-v3.py:54-62 | A rejected bracket is the first after which no continuation could balance. |
| BalancedQml.UnclosedPoint | scripts/features/test-bottom-hub-v3.py:59-62 | An unclosed verdict means that some continuation could balance, and names an open bracket after which everything is balanced, the innermost unclosed one. |
| BalancedQml.OpenQuoteIsAccepted | scripts/features/test-bottom-hub-v3.py:42-53 | When a quote that opens outside quotes is never closed, escapes included, a text is accepted if and only if the brackets before that quote are balanced. |
| BalancedQml.QuoteCrossesLines | scripts/features/test-bottom-hub-v3.py:37-53 | A quote, a line break and an open bracket are accepted. |
| BalancedQml.EscapeCrossesLines | scripts/features/test-bottom-hub-v3.py:37-53 | A backslash that ends a quoted line hides the quote that starts the next one. |
| BalancedQml.StuckMeansHopeless | scripts/features/test-bottom-hub-v3.py:54-58 | A prefix can be extended to a Dyck word if and only if the stack machine is not stuck on it. |
| BalancedQml.LinesHoldContent | scripts/features/test-bottom-hub-v3.py:40-41 | Splitting into lines loses line breaks only. |
| BalancedQml.LineBreaksAre | scripts/features/test-bottom-hub-v3.py:40-41 | The ten line breaks of `splitlines`, one by one. |
| BalancedQml.LinesReadBack | scripts/features/test-bottom-hub-v3.py:40-41 | Splitting gives back lines written with any breaks after them, a carriage return with a line feed as one. |
| BalancedQml.MarksHaveTheirLine | scripts/features/test-bottom-hub-v3.py:40-62 | A bracket is reported with the number, from one, of a line that holds it. |
| BalancedQml.SeenIsUnquoted | scripts/features/test-bottom-hub-v3.py:42-53 | The character loop with its two mode variables sees exactly the brackets outside quotes, escapes included. |
| WallpaperSearch.FuzzyMatch | cortetsu/modules/CortetsuWallpaperSearch.js:7-21 | The loop over code points is the greedy search over the normalised texts. |
| WallpaperSearch.GreedyIsComplete | cortetsu/modules/CortetsuWallpaperSearch.js:13-19 | The greedy search succeeds if and only if some embedding in increasing, disjoint places exists. |
| WallpaperSearch.FuzzyIsEmbedding | cortetsu/modules/CortetsuWallpaperSearch.js:7-21 | A fuzzy match is found if and only if the trimmed query embeds in the text. |
| WallpaperSearch.SearchIsTransitive | cortetsu/modules/CortetsuWallpaperSearch.js:7-21 | If a finds b and b finds c then a finds c, although queries are trimmed and texts are not. |
| WallpaperSearch.EmbedsInTrimmed | cortetsu/modules/CortetsuWallpaperSearch.js:9-11 | A trimmed text embeds in another if and only if it embeds in the trimmed other. |
| WhiteSpace.TrimTakesWhite | cortetsu/modules/CortetsuWallpaperSearch.js:9-11 | Trimming takes the white space of ECMAScript off both ends and nothing else. |
| WallpaperSearch.Matches | cortetsu/modules/CortetsuWallpaperSearch.js:23-27 | Strict and fuzzy search by their meaning: inclusion and embedding. |
| WallpaperSearch.StrictImpliesFuzzy | cortetsu/modules/CortetsuWallpaperSearch.js:23-27 | Whatever the strict search finds the fuzzy one finds. |
| WallpaperSearch.SearchSays | cortetsu/modules/CortetsuWallpaperSearch.js:7-27 | In lower case and with the query trimmed, the strict search finds a piece of the text and the fuzzy one an embedding; an empty query matches and an absent text is an empty one. |
| WallpaperSearch.SearchIgnoresCase | cortetsu/modules/CortetsuWallpaperSearch.js:7-27 | Texts and queries with the same lower case are found alike. |
| TerseFields.SplitFields | cortetsu/services/ConnectivityPolicy.js:3-15 | The loop with its escape flag yields the fields of the line, a trailing backslash kept. |
| TerseFields.FieldsReadBack | cortetsu/services/ConnectivityPolicy.js:3-15 | Splitting undoes escaping and joining for every non-empty list of fields. |
| TerseFields.RowsReadBack | cortetsu/services/ConnectivityPolicy.js:17-19 | Many newline-free records read back, those with an empty encoded line skipped. |
| Splitting.SplitUndoesJoin | cortetsu/services/ConnectivityPolicy.js:18 | Splitting at a separator undoes joining pieces that do not contain it. |
| Splitting.JoinUndoesSplit | cortetsu/services/ConnectivityPolicy.js:18 | Joining undoes splitting, and no piece contains the separator. |
| TerseProperties.Properties | cortetsu/services/ConnectivityPolicy.js:31-40 | The loop collects the values of every base key in order, and fails exactly when a base key is an inherited name. |
| TerseProperties.PlainLineSays | cortetsu/services/ConnectivityPolicy.js:32-38 | A line of a name, an index in brackets or none, a colon and a value puts the value, colons and all, under the name. |
| TerseProperties.RowKeepsItsPlace | cortetsu/services/ConnectivityPolicy.js:33-38 | Every row's value stands under its base key, after those of exactly the earlier rows with that key. |
| TerseProperties.NothingIsAdded | cortetsu/services/ConnectivityPolicy.js:33-38 | A base key holds as many values as it has rows. |
| TerseProperties.InheritedKeyFails | cortetsu/services/ConnectivityPolicy.js:32-37 | A row whose base key is any inherited name makes the whole call fail, whatever its values. |
| TerseProperties.ConstructorFails | cortetsu/services/ConnectivityPolicy.js:32-37 | `constructor:x` is a text on which it fails. |
| Ipv4.ConfigIsNormalForm | cortetsu/services/ConnectivityPolicy.js:97-112 | Joining an accepted configuration's addresses and DNS with any separators and reading it again gives the same configuration. |
| Ipv4.ConfiguresExactly | cortetsu/services/ConnectivityPolicy.js:97-105 | Field by field, which configuration the texts of a form give, and when they give none. |
| Ipv4.SameIpv4Exactly | cortetsu/services/ConnectivityPolicy.js:107-112 | Two configurations are the same if and only if both exist and all their fields are equal. |
| Ipv4.NetworksAre | cortetsu/services/ConnectivityPolicy.js:85-91 | An address with prefix is accepted if and only if it is four octets joined by dots, a slash and one or two digits of at most 32. |
| Ipv4.OctetsAre | cortetsu/services/ConnectivityPolicy.js:89 | An octet is one to three digits of at most 255. |
| Ipv4.ListsExactly | cortetsu/services/ConnectivityPolicy.js:93-95 | A list is read as some words if and only if it is those words between runs of white space and commas. |
| Ipv4.SeparatorsAre | cortetsu/services/ConnectivityPolicy.js:93-95 | A separator is a comma or the white space of ECMAScript. |
| Ipv4.ListUndoesSpacing | cortetsu/services/ConnectivityPolicy.js:93-95 | Splitting a list undoes joining its words with any non-empty separators. |
| Ipv4.AddressUnits | cortetsu/services/ConnectivityPolicy.js:85-91 | A valid address is not empty and consists of digits, dots and slashes, so it holds no separator. |
| Ipv4.HostsAreDottedQuads | cortetsu/services/ConnectivityPolicy.js:85-104 | An address without prefix is accepted if and only if it is four octets joined by dots. |
| HiddenNetwork.TokensAreBytes | cortetsu/services/ConnectivityPolicy.js:123 | On well-formed text the tokens of the percent-encoding (section 2.1 of RFC 3986) are as many as the bytes of UTF-8. |
| HiddenNetwork.AcceptsOneTo32Bytes | cortetsu/services/ConnectivityPolicy.js:121-128 | An SSID is accepted if and only if it is well-formed, has 1 to 32 bytes and no NUL, and the password fits the security. |
| HiddenNetwork.AcceptsExactly | cortetsu/services/ConnectivityPolicy.js:121-128 | The same with the passwords: none for an open network, and one without line breaks and NUL for the two protected kinds. |
| HiddenNetwork.EncodedDecodes | cortetsu/services/ConnectivityPolicy.js:123 | Percent-decoding the encoded text gives the UTF-8 of the text. |
| HiddenNetwork.UnreservedAre | cortetsu/services/ConnectivityPolicy.js:123 | The letters, digits and nine marks that percent-encoding leaves alone. |
| BottomHubGroups.WindowNumbers.constructor | cortetsu/modules/BottomHubResolver.js:3-4 | No object is numbered at first. |
| BottomHubGroups.WindowNumbers.GroupKeyForWindow | cortetsu/modules/BottomHubResolver.js:77-102 | The key by entry, class, address, object number or position; a number is given once and never changed, and distinct objects have distinct numbers. |
| BottomHubGroups.WindowNumbers.GroupWindows | cortetsu/modules/BottomHubResolver.js:104-135 | The loop over the map builds the grouping by key, in order of first occurrence, and only adds numbers. |
| BottomHubGroups.KeySays | cortetsu/modules/BottomHubResolver.js:77-99 | The key is the first that is not blank of the entry id, the initial class and the class in lower case, the prefixed address, or else the prefixed number of the object. |
| BottomHubGroups.KeyWithoutWindow | cortetsu/modules/BottomHubResolver.js:77-102 | A client without window has its entry id, or else its number, and one that is no object its position. |
| BottomHubGroups.ClassSays | cortetsu/modules/BottomHubResolver.js:110-111 | A group has the class of its first window, or else the initial class, trimmed. |
| BottomHubGroups.GroupingPartitions | cortetsu/modules/BottomHubResolver.js:104-135 | The groups hold every client exactly as often as the input does. |
| BottomHubGroups.ClientKeepsItsPlace | cortetsu/modules/BottomHubResolver.js:131 | A client stands in its key's group after exactly the earlier clients with that key. |
| BottomHubGroups.GroupsFollowFirstAppearance | cortetsu/modules/BottomHubResolver.js:121-129 | Groups are ordered by the first occurrence of their keys. |
| BottomHubGroups.AnonymousKeysDiffer | cortetsu/modules/BottomHubResolver.js:91-99 | Two distinct anonymous objects have different keys. |
| BottomHubGroups.ClientsShareKeyExactly | cortetsu/modules/BottomHubResolver.js:77-102 | Two clients share a key if and only if their keys have the same source, or a name or an address spells the other's key. |
| BottomHubGroups.ClassJoinsAnonymous | cortetsu/modules/BottomHubResolver.js:82-99 | A class that spells an anonymous window's key joins its group. |
| BottomHubGroups.AddressJoinsPosition | cortetsu/modules/BottomHubResolver.js:87-101 | An address that is a position joins the group of the client without object at that position. |
| BottomHubGroups.KeysStay | cortetsu/modules/BottomHubResolver.js:91-99 | Later numbers do not change the keys of clients that have one. |
| BottomHubGroups.GroupingRepeats | cortetsu/modules/BottomHubResolver.js:104-135 | Grouping unchanged windows again, at any later time, gives the same groups in the same order. |
| WorkspaceIcons.WorkspaceAppIcons | cortetsu/modules/BottomHubResolver.js:137-162 | Each workspace has the icon of its first eligible client at the active address if there is one, otherwise of its first eligible client. |
| WorkspaceIcons.IconMeans | cortetsu/modules/BottomHubResolver.js:141-158 | A workspace shows an icon if and only if it is that of its first taskbar client at the active address, or of its first taskbar client if none is there. |
| WorkspaceIcons.NoIconMeans | cortetsu/modules/BottomHubResolver.js:141-158 | A workspace has no icon if and only if no taskbar client with an icon is on it. |
| WorkspaceIcons.IconGrows | cortetsu/modules/BottomHubResolver.js:152-158 | How one more client changes the icon the specification asks for. |
| DesktopEntries.OrderIndependentExactly | cortetsu/modules/BottomHubResolver.js:19-75 | The same object is returned for every permutation of the entries if and only if the Steam phase is not reached with two different pinned matches. |
| DesktopEntries.TwinsDependOnOrder | cortetsu/modules/BottomHubResolver.js:39-58 | Two entries that look alike, and a window, for which swapping them changes the object returned. |
| DesktopEntries.SameResult | cortetsu/modules/BottomHubResolver.js:19-75 | Permuting the entries keeps the result of all four phases outside that case. |
| DesktopEntries.FilterOfPermutation | cortetsu/modules/BottomHubResolver.js:30-36 | Filtering permuted entries gives a permutation, so a single match stays the same entry. |
| DesktopMeaning.FirstAnswerIsReturned | cortetsu/modules/BottomHubResolver.js:19-75 | The entry is the answer to the first question that has one: known by id, the only one so called, the first pinned or only one of the game, the only one that runs the program; there is none if and only if no question has an answer. |
| DesktopMeaning.NormalisingStrips | cortetsu/modules/BottomHubResolver.js:6-11 | Normalising takes the lower case, one `.desktop` off the end and then one `.appimage`. |
| DesktopMeaning.InitialClassComesFirst | cortetsu/modules/BottomHubResolver.js:13-17 | The trimmed initial class is asked about before the trimmed class, and blank ones are not. |
| DesktopMeaning.IdentityNamesGame | cortetsu/modules/BottomHubResolver.js:39-41 | An identity names a game if and only if it is `steam_app_` in any case and one or more digits. |
| DesktopMeaning.IconNamesGame | cortetsu/modules/BottomHubResolver.js:46-51 | An icon names a game if and only if its file name, without one extension, is `steam_icon_` and the digits of the game. |
| DesktopMeaning.ArgumentStartsGame | cortetsu/modules/BottomHubResolver.js:52-55 | An argument starts a game if and only if it is its address or ends with an equals sign and its address. |
| DesktopMeaning.BaseNameIsLastName | cortetsu/modules/BottomHubResolver.js:66-67 | The program is what follows the last slash. |
| RealmInput.VirtualPointer.SendMotion | agent-realms/src/realm_input.c:107-113 | A motion in bounds sends a position and a frame, any other nothing. |
| RealmInput.MotionIsSentExactly | agent-realms/src/realm_input.c:107-113 | A motion in bounds is sent as asked for if and only if its extent fits 32 bits. |
| RealmInput.WideMotionIsSentOutside | agent-realms/src/realm_input.c:107-113 | A motion in bounds of a wider desktop that is sent with its point outside the sent extent. |
| RealmInput.VirtualPointer.SendButton | agent-realms/src/realm_input.c:115-118 | A button sends its state and a frame. |
| RealmInput.VirtualPointer.Drag | agent-realms/src/realm_input.c:195-212 | The events of a drag up to the point where it fails or overflows, or of all 24 points and the release. |
| RealmInput.VirtualPointer.Click | agent-realms/src/realm_input.c:179-194 | Exactly the counted motion, press and release rounds, or nothing at all. |
| RealmInput.ClickButtons | agent-realms/src/realm_input.c:186-193 | A click presses and releases its button in turn, as often as asked. |
| RealmInput.VirtualPointer.ScrollAxis | agent-realms/src/realm_input.c:120-132 | Accepts exactly the values a 24.8 fixed-point number holds; a zero sends nothing. |
| RealmInput.WheelTurnsWithTheValue | agent-realms/src/realm_input.c:126-129 | A scroll turns at least one step in its own direction, one per 120 units, alike in both directions. |
| RealmInput.DragMovesSteadily | agent-realms/src/realm_input.c:204-207 | With truncating division the points move monotonically, stay between the ends and finish at the end. |
| RealmInput.DragCompletesExactly | agent-realms/src/realm_input.c:204-210 | All 24 points are sent if and only if the end is in bounds and no product overflows. |
| RealmInput.DragButtons | agent-realms/src/realm_input.c:201-211 | One press, and one release exactly if the drag completes. |
| RealmInput.LeavingDragStops | agent-realms/src/realm_input.c:204-207 | A drag that stops halfway. |
| Schemes.RgbUndoesHx | scripts/features/generate-cortetsu-schemes.py:12-18 | Parsing a formatted byte triple returns it. |
| Schemes.RgbReadsHx | scripts/features/generate-cortetsu-schemes.py:12-18 | Parsing any formatted colour returns its rounded and clamped channels. |
| Schemes.RgbReadsSixDigits | scripts/features/generate-cortetsu-schemes.py:12-14 | Six digits in either case, after any hashes and between any white space, are three channels. |
| Schemes.SignsAreRead | scripts/features/generate-cortetsu-schemes.py:14 | A channel of a sign and a digit is read with its sign. |
| Schemes.SpacesAre | scripts/features/generate-cortetsu-schemes.py:13 | The white space that `strip` takes off, one by one. |
| Schemes.HexDigitIsIndex | scripts/features/generate-cortetsu-schemes.py:14 | A digit counts by its place among the sixteen digits, in either case. |
| Schemes.RoundIsNearest | scripts/features/generate-cortetsu-schemes.py:18 | Rounding goes to the nearest integer, halves to the even one. |
| Schemes.ClampIsNearest | scripts/features/generate-cortetsu-schemes.py:18 | No byte is nearer to a number than the one it is clamped to. |
| Schemes.MixStaysBetween | scripts/features/generate-cortetsu-schemes.py:21-23 | For 0 <= t <= 1 every channel of a mix lies between the clamped channels of its inputs. |
| Schemes.MixFixesEqualColours | scripts/features/generate-cortetsu-schemes.py:21-23 | Mixing a colour with an equal one for any t, or with any other for t = 0, gives that colour clamped to bytes. |

## Left out

- QML hosts, geometry, popouts, the window grabs, and the D-Bus, Wayland, subprocess and file plumbing around the modelled functions.
- Direct legacy writes by compatibility callers are not among the calls of a run; `Assign` models what one of them does.
- The seat is fixed during a run: screens that appear or disappear are not modelled.
- `hasCompetingPanel` and `anyOpen` for the wallpaper, which only read the flags `CloseForWallpaper` writes.
- The inspection's keyboard-owner resolution, focus grabs, bottom hub and transition records, which are copied field by field.
- `moveCursor`, whose numbers are formatted by the library.
- `\u{...}` escapes of Lua, which `luaString` never writes, are not read by the reader in `LuaText`.
- `decisions`, `normaliseSnapshot`, `actionConfirmed`, `commandFor` and the message validators of `CortetsuPolicyModel.js`, which are tables of field checks.
- `parseHistory`, `parseDnd` and `popupTimeout`; JSON text is taken as parsed, and two lists have equal JSON exactly when they are equal.
- Deadlines and process exits of the snapshot writer are the steps `Answer` and `Abandon`, at any time.
- NotificationRuns.LateArrivalsSurvive: the body of a notification, its timers and its display are not part of the state, only its key.
- Lower-casing is a parameter `lower`; `FuzzyIsEmbedding`, `StrictImpliesFuzzy`, `SearchSays` and `SearchIgnoresCase` assume that lower-cased text, trimmed or not, is its own lower case (`IsLowerCasing`), and `ClassJoinsAnonymous` that the spelled key is; the other members assume nothing.
- Iteration over code points in `splitFields` is modelled over code units, which gives the same fields as its separators are single units.
- `profiles`, `accessPoints`, `strengthPercent`, `confirmed`, `commandError`, `newUuid`, `profileDevice` and the hidden-network retry, which are field tables or random.
- The collection of dead clients from the weak map, which no result can show.
- Regular expressions are written out as predicates; `steam_app_` is matched in either case of its ASCII letters, as the flag `i` without `u` does.
- Schemes.MixStaysBetween: floating-point error is not modelled, the arithmetic is exact.
- `int()` accepts digits of other scripts in Python; only ASCII digits are read by `Schemes.Rgb`.
- `pause_ms`, `now_ms`, the registry handshake, the idle keyboard and the argument parsing of the realm tool; button names become codes.
