# Asset Tabs: folder-view rules and drag-hover tracking

This project models the logic of the Unity editor extension "Asset Tabs" in
Dafny. The extension opens project folders as editor tabs (`FolderTabWindow`)
and lets objects dragged onto a window's tab strip open there as tabs
(`Core`). Almost all of the extension is editor glue. The modelled part is
the logic inside that glue, written as pure functions over strings, sequences
and naturals, plus one small state machine:

- **Paths** (`paths.dfy`): `String.Split('/')`, `String.Join("/", …)`,
  `Path.GetExtension`, `Path.GetFileName`, `Path.GetFileNameWithoutExtension`
  and `EndsWith`, compared character by character. Split and Join are
  proved to be inverses.
- **Breadcrumbs** (`breadcrumbs.dfy`): the crumb bar of a folder tab. It has
  one crumb per non-empty path segment. Each crumb's three actions open the
  join of the segments up to that crumb. A `/` separator follows every crumb
  except the one from the last segment.
- **FolderGrid** (`folder_grid.dfy`): the grid order. Folders come first,
  then files grouped by extension in first-occurrence order, with `.meta`
  entries dropped. The element list is numbered from 0. `Refresh` decides
  between clearing, closing and showing the window.
- **KeyboardNavigation** (`keyboard_navigation.dfy`):
  - list view versus grid view, and the item size `updateSize` applies;
  - the keyboard handler of a grid button, which focuses by one step or by
    one row after a one-sided bounds check.
- **Numbers** (`numbers.dfy`):
  - unchecked 32-bit `int` addition;
  - `char.IsWhiteSpace` and `String.Trim`;
  - `int.ToString()` and `int.TryParse` as the variant naming uses them.
- **GridDrop** (`grid_drop.dfy`): dropping objects on the grid.
  - Project assets are moved into the folder.
  - Prefab instances are saved as `"<name> Variant N.prefab"`, where N is
    one above the largest suffix the variant search reports (no number when
    it reports nothing). Nothing is saved when that path is taken.
  - Other scene objects are saved as `"<name>.prefab"`.
  - Each object is handled in the project as the objects before it left
    it: the asset check, the asset path, the prefab check and the variant
    search all read the current state.
- **Editor** (`editor.dfy`): windows and project objects as opaque records.
  A window has an identity, an optional dock area and a scene-view flag.
  A project object has an identity and an asset path.
- **AssetCommands** (`asset_commands.dfy`): how an object is opened. A valid
  folder becomes a folder tab and anything else a property editor. This
  covers `FocusAsset`, `OpenAssetAsTab`, `OpenAssetAsFloating` and the drop
  loop of `OnDragPerform`. It also covers what `DuplicateAsset` and
  `DestroyAsset` schedule.
- **DragTracking** (`drag_tracking.dfy`): the `_lastWindow` state machine.
  - Registrations are a multiset: how often each dock area holds the
    drag-perform handler, and how often the scene GUI hook is subscribed.
  - Windows are compared by identity, and the dock area is looked up at
    every event.
  - While the dock areas stay put, every event keeps the registrations
    equal to those of `_lastWindow`. So at most one registration exists,
    and it always belongs to `_lastWindow`.
  - A window that moves to another dock area while it is `_lastWindow`
    leaves its handler behind on the old one.

Host state enters as parameters:

| host state | parameter |
|---|---|
| `AssetDatabase.IsValidFolder` | the set `validFolders` |
| `Directory` listings | sequences |
| whether a child's main asset loads | the set `loads` |
| the asset database (paths, assets, prefab connections) | the `Project` record |
| `FindAssets` followed by `GUIDToAssetPath` | the function parameter `find` |
| the dock area each window sits in at an event | the map `layout` |
| the window under the mouse | an `Option<Window>` |
| whether the mouse is over its tab strip | a boolean |
| the row count | a natural number |

Details of the code the model keeps:

- The bounds checks are one-sided: the backward moves test only `>= 0`, and
  the forward moves test only `< count`.
- `existingVariants.Last() + 1` wraps at `int.MaxValue`.
- `name.Substring(variantName.Length)` throws only for a name shorter than
  the variant name. A longer name that does not begin with it is read like
  any other, so "XY Variant" counts as 0 for an object "X". The throw ends
  the handler before `StopPropagation`.
- `OpenAssetAsTab` with no window under the mouse fails before it
  dispatches, even for folders.

## Model

| member | source | states |
|---|---|---|
| Paths.Split | Editor/FolderTabWindow.cs:73 | `Split('/')` yields one more segment than there are slashes, none of them containing a slash (empty segments kept) |
| Paths.JoinSplit | Editor/FolderTabWindow.cs:73-105 | joining the split segments with `/` restores the path exactly |
| Paths.SplitJoin | Editor/FolderTabWindow.cs:73-105 | splitting the join of slash-free segments gives the segments back |
| Paths.JoinTakeIsPrefix | Editor/FolderTabWindow.cs:105 | `Join("/", splitPath.Take(n))` is a prefix of the path, and the whole path when n is the segment count |
| Paths.LastSegmentEmpty | Editor/FolderTabWindow.cs:73 | the last split segment is empty exactly when the path is empty or ends in `/` |
| Paths.FileNameStart | Editor/FolderTabWindow.cs:187 | the file-name part starts just after the last directory separator (or at 0) and contains none |
| Paths.ExtensionStart | Editor/FolderTabWindow.cs:240 | the extension starts at the last `.` of the file-name part, and there is none when the file-name part has no dot |
| Paths.Extension | Editor/FolderTabWindow.cs:240 | `Path.GetExtension` is empty exactly when the file-name part has no dot or ends in its last dot; otherwise it is the path's suffix from that last dot |
| Paths.FileName | Editor/FolderTabWindow.cs:187 | `Path.GetFileName` is the suffix of the path after its last directory separator, or the whole path when it has none |
| Paths.FileNameWithoutExtension | Editor/FolderTabWindow.cs:201 | `Path.GetFileNameWithoutExtension` is the file name cut at its last dot, or the whole file name when it has no dot |
| Paths.FileNameWithoutExtensionOf | Editor/FolderTabWindow.cs:201 | `<dir>/<base><ext>`, with no separator in `base` and `ext` a dot followed by no dot or separator, reads back as `base` |
| Paths.JoinCountsSlashes | Editor/FolderTabWindow.cs:105 | `String.Join("/", …)` of n slash-free segments holds exactly n - 1 slashes, one between each neighbouring pair |
| Breadcrumbs.CrumbsFrom | Editor/FolderTabWindow.cs:74-131 | the loop emits crumbs for non-empty segments only, each labelled with its segment |
| Breadcrumbs.Crumbs | Editor/FolderTabWindow.cs:73-131 | the crumb bar for a path: crumbs in path order, each labelled with the non-empty split segment it stands for |
| Breadcrumbs.CrumbsInPathOrder | Editor/FolderTabWindow.cs:74-122 | crumbs are added in path order: their split indices strictly increase |
| Breadcrumbs.CrumbPerSegment | Editor/FolderTabWindow.cs:73-82 | the crumb labels are exactly the non-empty segments of the path, in path order |
| Breadcrumbs.CrumbTargets | Editor/FolderTabWindow.cs:104-130 | each crumb opens the join of the segments up to its own, a prefix of the path; the final segment's crumb opens the whole path; a separator follows a crumb iff its split index is not the last |
| Breadcrumbs.Activate | Editor/FolderTabWindow.cs:85-120 | Open, Open as Tab and Open as Floating all act on the same path, the crumb's target |
| Breadcrumbs.EmptyPathHasNoCrumbs | Editor/FolderTabWindow.cs:73-76 | an empty path shows no crumb |
| Breadcrumbs.SeparatorsBetweenCrumbs | Editor/FolderTabWindow.cs:124-130 | a path ending in `/` has a separator after every crumb; any other non-empty path has at least one crumb and one separator fewer than crumbs |
| Breadcrumbs.LastCrumbOpensPath | Editor/FolderTabWindow.cs:104-130 | without a trailing `/` the last crumb opens the full path and has no separator after it |
| FolderGrid.WithoutMeta | Editor/FolderTabWindow.cs:236-239 | the filter keeps exactly the listed paths not ending in `.meta` |
| FolderGrid.WithoutMetaAppend | Editor/FolderTabWindow.cs:236-239 | filtering a concatenation filters each part and keeps them in order, so kept paths keep their listing order |
| FolderGrid.WithKey | Editor/FolderTabWindow.cs:240 | a group holds only elements with its key, no more than were listed |
| FolderGrid.OtherKeys | Editor/FolderTabWindow.cs:240 | the remainder after taking a group holds no element with that key, and is shorter when the group is non-empty |
| FolderGrid.FirstIndex | Editor/FolderTabWindow.cs:240 | the first position of a key: it has that key and no earlier element does |
| FolderGrid.GroupBy | Editor/FolderTabWindow.cs:240 | the flattened grouping has as many elements as the listing |
| FolderGrid.GroupingIsPermutation | Editor/FolderTabWindow.cs:240 | `GroupBy` flattened neither drops nor duplicates an element |
| FolderGrid.GroupingKeepsListingOrder | Editor/FolderTabWindow.cs:240 | within each key the grouped elements keep their listing order |
| FolderGrid.GroupingIsContiguous | Editor/FolderTabWindow.cs:240 | elements sharing a key stand next to each other after grouping |
| FolderGrid.GroupsFollowFirstOccurrence | Editor/FolderTabWindow.cs:240 | groups appear in the order their key first occurs in the listing |
| FolderGrid.GridOrder | Editor/FolderTabWindow.cs:236-250 | the grid holds one entry per kept folder and kept file, the folders first and only they marked as folders |
| FolderGrid.GridOrderParts | Editor/FolderTabWindow.cs:242-250 | the grid holds the filtered folders, all as folders, followed by the grouped files, all as files |
| FolderGrid.GridOrderHasNoMeta | Editor/FolderTabWindow.cs:236-240 | no grid entry ends in `.meta` |
| FolderGrid.GridOrderSpec | Editor/FolderTabWindow.cs:236-250 | no `.meta` entry; every folder before every file; folders in listing order; files a contiguous, first-occurrence-ordered permutation of the listing, listing order kept per extension |
| FolderGrid.Loadable | Editor/FolderTabWindow.cs:328-329 | the children that get a button are exactly the listed ones whose asset loads |
| FolderGrid.AddButtonStep | Editor/FolderTabWindow.cs:327-338 | one `GenerateButton` call extends the buttons of the children so far by the next child if it loads, its index being its position |
| FolderGrid.GenerateButtons | Editor/FolderTabWindow.cs:327-338 | after the list is cleared, the buttons are the loadable children in grid order, indexed 0, 1, 2, … |
| FolderGrid.Refresh | Editor/FolderTabWindow.cs:38-50 | no folder asset: only cleared; empty or non-folder path: closed; otherwise crumbs of the path and the indexed buttons |
| KeyboardNavigation.ItemSizeFor | Editor/FolderTabWindow.cs:303-317 | list view iff zoom ≤ 36 (auto width, height 20); in grid view items are zoom × zoom |
| KeyboardNavigation.Navigate | Editor/FolderTabWindow.cs:511-545 | previous/up focus their target iff it is ≥ 0, next/down iff it is < count; from a button in the list, focus never leaves [0, count) |
| KeyboardNavigation.MoveFor | Editor/FolderTabWindow.cs:467-502 | in list view Previous/Next step back/forward and MoveLeft/MoveRight do nothing; in grid view Previous/Next move a row and MoveLeft/MoveRight step |
| KeyboardNavigation.React | Editor/FolderTabWindow.cs:467-545 | Submit opens the asset; the event is stopped iff a move or Submit happened; a focused index stays in the list |
| KeyboardNavigation.ListViewIgnoresHorizontal | Editor/FolderTabWindow.cs:476-484 | in list view MoveLeft and MoveRight change nothing and leave the event running |
| KeyboardNavigation.MovesAreReversible | Editor/FolderTabWindow.cs:511-545 | a step or row forward followed by the same backward returns to the starting index, and vice versa inside the list |
| KeyboardNavigation.SingleColumnGridIsList | Editor/FolderTabWindow.cs:486-502 | with one button per row the grid's Previous/Next behave as in list view |
| KeyboardNavigation.ZeroRowCountStaysPut | Editor/FolderTabWindow.cs:529-545 | with a row count of 0 the vertical moves refocus the same button |
| Numbers.Wrap32 | Editor/FolderTabWindow.cs:207 | unchecked `int` results lie in the 32-bit range, equal the exact value when it fits, and `int.MaxValue + 1` is `int.MinValue` |
| Numbers.TrimStart | Editor/FolderTabWindow.cs:202 | drops exactly the leading white space |
| Numbers.TrimEnd | Editor/FolderTabWindow.cs:202 | drops exactly the trailing white space |
| Numbers.Trim | Editor/FolderTabWindow.cs:202 | the trimmed text neither starts nor ends with white space |
| Numbers.TrimKeepsMiddle | Editor/FolderTabWindow.cs:202 | `Trim` keeps exactly the text between the leading and the trailing white space: a slice of the input followed only by white space |
| Numbers.TrimmedAlready | Editor/FolderTabWindow.cs:202 | trimming white space followed by a text without white space at its ends gives that text |
| Numbers.FormatNat | Editor/FolderTabWindow.cs:207 | a natural prints as a non-empty run of digits without a leading zero |
| Numbers.FormatInt | Editor/FolderTabWindow.cs:207 | a printed `int` starts with `-` exactly when it is negative and with a digit otherwise, is an integer text whose digits have no leading zero (unless they are `0`), and has no white space at either end |
| Numbers.FormatIntValue | Editor/FolderTabWindow.cs:207 | the printed text denotes the printed `int`; with `FormatInt`'s shape this fixes the text uniquely |
| Numbers.FormatIntChars | Editor/FolderTabWindow.cs:207 | a printed `int` holds only digits and `-` |
| Numbers.TryParseInt32 | Editor/FolderTabWindow.cs:202 | `int.TryParse` succeeds exactly on an optional sign followed by one or more ASCII digits and nothing else, whose value fits an `int`, and yields that value |
| Numbers.ZeroPaddedParses | Editor/FolderTabWindow.cs:202 | leading zeros do not change what a run of digits parses to ("007" reads as 7) |
| Numbers.TrailingLetterFails | Editor/FolderTabWindow.cs:202 | digits followed by a non-digit do not parse ("1x" fails, so it counts as 0) |
| Numbers.DigitsOfFormat | Editor/FolderTabWindow.cs:202-207 | the digits printed for a natural read back as that natural |
| Numbers.ParseFormat | Editor/FolderTabWindow.cs:202-207 | `int.TryParse(n.ToString())` succeeds with n for every `int` |
| GridDrop.SuffixNumber | Editor/FolderTabWindow.cs:202 | for any name at least as long as the variant name (whether or not it begins with it), the text after that many characters, trimmed, counts as the `int` it denotes when it is an integer text in the `int` range, and as 0 otherwise (empty included) |
| GridDrop.Max | Editor/FolderTabWindow.cs:203-207 | the last of the sorted suffix numbers is one of them and at least every one |
| GridDrop.NextNumber | Editor/FolderTabWindow.cs:203-207 | one above the largest suffix number, except that `int.MaxValue` wraps to `int.MinValue` |
| GridDrop.VariantFileName | Editor/FolderTabWindow.cs:195-210 | the new variant's name always begins with `"<name> Variant"`; it is exactly that when the search reported nothing, and otherwise continues with a space and the next number printed |
| GridDrop.NumberedSuffix | Editor/FolderTabWindow.cs:196-207 | the name `"<variant> N"` reads back as N |
| GridDrop.VariantNameReadsBack | Editor/FolderTabWindow.cs:195-210 | the new variant's file name is at least as long as the variant name and its suffix reads back as 0 (first variant) or the chosen next number |
| GridDrop.LargerNumberIsNew | Editor/FolderTabWindow.cs:199-207 | a name whose suffix number exceeds every found suffix is none of the found names |
| GridDrop.NextVariantIsFresh | Editor/FolderTabWindow.cs:199-210 | below `int.MaxValue` the next number exceeds every existing suffix, so the new name is none of the found names |
| GridDrop.NextNumberWrapsAtMax | Editor/FolderTabWindow.cs:207 | with a variant numbered `int.MaxValue` present, the next number wraps to `int.MinValue` |
| GridDrop.SameNamesSameNext | Editor/FolderTabWindow.cs:199-207 | the order and repetitions of the search results do not matter: the same set of names gives the same next number |
| GridDrop.VariantPathReadsBack | Editor/FolderTabWindow.cs:195-210 | for an object name without separators, the saved variant's path reads back (`GetFileNameWithoutExtension`) as the variant file name |
| GridDrop.VariantsCountUp | Editor/FolderTabWindow.cs:195-218 | after saving a variant, the next drop numbers from it: 1 after the unnumbered variant, N + 1 after N |
| GridDrop.DropOne | Editor/FolderTabWindow.cs:183-229 | in the current project: an asset moves from its path to `<folder>/<file name>`; a prefab instance throws iff the search reports a name shorter than the variant name, else saves (and connects) at its variant path iff that path is free and only warns otherwise; another game object saves to `<folder>/<name>.prefab`; anything else is ignored |
| GridDrop.Apply | Editor/FolderTabWindow.cs:187-188 | a move changes the moved asset's path, adds the target and frees the source (unless the two coincide), removing nothing else; a save adds the prefab and connects the object; a warning or an ignored object changes nothing |
| GridDrop.DropAll | Editor/FolderTabWindow.cs:183-232 | the loop produces at most one effect per dragged object, and reaches `StopPropagation` iff it handles every one |
| GridDrop.DropAllSeesEarlierEffects | Editor/FolderTabWindow.cs:183-230 | the k-th object is handled as `DropOne` handles it in the project the effects before it left (asset check, asset path, prefab check, variant search and existence check alike), and the loop stops exactly at an object whose handling throws |
| GridDrop.DropAllClassifies | Editor/FolderTabWindow.cs:183-229 | classified in the project as the earlier effects left it, every asset moves to `<folder>/<file name>`, every prefab instance saves or warns, every other game object saves as `<folder>/<name>.prefab`, anything else is ignored; an early stop happens only at a prefab instance whose search reports a name shorter than the variant name |
| GridDrop.NoVariantSavedOverExisting | Editor/FolderTabWindow.cs:195-218 | a prefab instance gets the variant path computed from the search of the project as the earlier objects left it, and is saved there iff that path was free; otherwise only the warning is issued |
| GridDrop.FoundNamesOfLargerSearch | Editor/FolderTabWindow.cs:199-201 | a search that reports one path more yields the earlier names and that path's file name |
| GridDrop.NextVariantAfterSave | Editor/FolderTabWindow.cs:195-219 | once the search reports a saved variant, the next variant is numbered from it: 1 after the unnumbered one, N + 1 after N |
| GridDrop.SecondInstanceNumbersFromFirst | Editor/FolderTabWindow.cs:183-232 | two instances of one prefab dropped together, the search reporting the first save: the first saves at its variant path, the second gets the next number (`"X Variant.prefab"`, then `"X Variant 1.prefab"`) |
| GridDrop.OnGridDrop | Editor/FolderTabWindow.cs:177-232 | with no dragged objects nothing happens and the event runs on; otherwise at most one effect per object, and the event is stopped iff every object was handled |
| AssetCommands.FocusAsset | Editor/Core.cs:185-198 | a valid folder is opened on the next tick; any other object is pinged |
| AssetCommands.OpenAssetAsTab | Editor/Core.cs:205-226 | fails without a window under the mouse; otherwise a folder opens as a folder tab created with `dockTo` = that window (docked by its window type) and anything else as a property editor in its dock area |
| AssetCommands.OpenAssetAsFloating | Editor/Core.cs:228-241 | a folder opens as an undocked folder tab and anything else as a shown property editor window |
| AssetCommands.DropOpening | Editor/Core.cs:158-167 | a dropped object with a non-empty folder path becomes a folder tab created with `dockTo` = the target window (docked by its window type), anything else a property tab in its dock area |
| AssetCommands.SameFolderRule | Editor/Core.cs:158-239 | dropping, Open as Tab and Open as Floating choose folder tab versus property editor alike |
| AssetCommands.DuplicateAsset | Editor/Core.cs:243-250 | focuses the project window, selects the object, runs "Edit/Duplicate"; a refresh is scheduled iff it ran, the refocus always and last |
| AssetCommands.DestroyAsset | Editor/Core.cs:252-258 | selects the object and runs "Assets/Delete"; a refresh is scheduled iff it ran, the refocus always and last |
| DragTracking.Register | Editor/Core.cs:79-110 | a scene view leaves exactly one hook subscription where there was at most one; another window leaves the dock area it sits in now holding the handler exactly once; nothing else changes |
| DragTracking.Unregister | Editor/Core.cs:92-117 | removes the scene hook subscription, or the handler of the dock area the window sits in now, and nothing else; no window, no change |
| DragTracking.RegisterIsIdempotent | Editor/Core.cs:86-89 | registering the same window twice is the same as registering it once |
| DragTracking.OnUpdate | Editor/Core.cs:40-77 | no drag or no hovered window: the old window is unregistered and cleared; a different window (by identity): the old one unregistered before the new one is registered and remembered; the same window, wherever it is docked: no change; Copy shown iff dragging over the tab strip |
| DragTracking.OnDragPerform | Editor/Core.cs:132-183 | the last window is unregistered and cleared first; nothing opens without objects, window or tab-strip hit; otherwise each object opens as `DropOpening` says; the event is stopped only when present and something opens |
| DragTracking.OnSceneGui | Editor/Core.cs:119-130 | with no last window the hook unsubscribes itself; on drag exit the drop is performed without an event |
| DragTracking.UnregisterLastClears | Editor/Core.cs:92-117 | unregistering the last window of a consistent tracker leaves no registration |
| DragTracking.StepKeepsConsistent | Editor/Core.cs:40-183 | every update, drop and scene-GUI event whose layout is the one the registrations were made in keeps them equal to those of the last window |
| DragTracking.RunKeepsConsistent | Editor/Core.cs:40-183 | from a consistent state (the initial one included), any event sequence under one unchanging layout keeps the registrations equal to those of the last window |
| DragTracking.AtMostOneRegistration | Editor/Core.cs:79-117 | in a consistent state the handler is registered at most once and only on the last window's dock area, and the scene hook at most once and only for a scene view |
| DragTracking.DropClearsTracking | Editor/Core.cs:132-134 | after a drop from a consistent state no window is remembered and nothing is registered |
| DragTracking.HoveredWindowIsRegistered | Editor/Core.cs:59-66 | while dragging over a window, a window with its identity is the last one (the hovered record itself when it is new) and holds the only registration |
| DragTracking.ReDockingLeavesHandler | Editor/Core.cs:59-101 | a non-scene window registered on dock area 1 that the drag leaves after it moved to dock area 2 leaves the handler on dock area 1 and nothing remembered |

## Left out

- `ReflectionUtility`: it reads private editor fields and calls private
  editor methods, and its tab scrolling is float arithmetic. The code
  reaches a window's dock area in two ways,
  `rootVisualElement.parent.Children().First()` and the `m_Parent` field.
  The model treats both as the same dock area: the window's `dock` field
  when an object is opened, and the event's `layout` map in the drag
  tracking.
- `AssetPostProcessorWatcher`: it only schedules refreshes and repaints from
  host callbacks.
- Tab-strip hit testing against the mouse position (the 30-pixel `Rect`): it
  is float geometry on host state, so it is the boolean `overTabStrip`.
- `getRowCount`: its float division of layout widths is replaced by the
  natural-number parameter `rowCount`, which may be 0.
- `navigateVertical`: it is never called, and it relies on panel picking.
- UIElements construction, styling, tooltips and context menus: they are
  host UI.
- Preview loading schedulers and the selection footer: they are host UI.
- `SerializedObject` persistence of zoom and scroll: it is host storage.
- The delayed scroll-to-tab and repaint passes: they are host timing.
- The `delayCall` timing of all openings: an opening is modelled as the
  window it creates.
- Slider clamping of the zoom level to [36, 120]: zoom is taken as given.
- `AssetDatabase.MoveAsset` and `PrefabUtility.SaveAsPrefabAssetAndConnect`
  failures: every move or save is modelled as succeeding.
- The asset database refresh after each move or save is the model's own
  update of the `Project` record (`Apply`).
- Moving a folder asset: the paths of the assets inside it are not updated.
- `FindAssets` search semantics: which files match a variant name is the
  function parameter `find`. Lemmas that follow one save into the next
  search state what they assume of it (`SearchReportsSave`).
- GridDrop.SecondInstanceNumbersFromFirst: proved for object names without
  directory separators and a largest reported suffix below
  `int.MaxValue - 1`, with a search that reports the first save and
  otherwise what it reported before.
- FolderGrid.WithoutMeta: the `.meta` test compares characters one by one.
  The code's `EndsWith(string)` compares by the current culture, which can
  differ, e.g. on a trailing character the culture ignores, such as a soft
  hyphen (U+00AD) after `.meta`.
- DragTracking.RunKeepsConsistent: the invariant is proved for events that
  share one layout. When a window changes dock area while it is
  `_lastWindow`, the code leaves its handler on the old dock area, as
  `ReDockingLeavesHandler` shows.
- A null `DragAndDrop.objectReferences` in `OnDragPerform`: there it throws
  on `.Length`. The model's object sequence is never null.
- Null entries in the dragged objects: they are not modelled.
- Unity's destroyed-but-not-null windows are not modelled. A remembered
  window is taken as alive.
- Numbers.FormatInt: the number is printed with `-` as the negative sign.
  The code's interpolation `$" {existingVariants.Last() + 1}"` formats with
  the current culture, whose `NegativeSign` may be another string; that
  matters only for a negative number, i.e. after the wrap to `int.MinValue`.
- Where a new folder tab is docked: the model records the `dockTo` window
  it is created with. `CreateWindow<FolderTabWindow>(dockTo.GetType())` then
  docks it by an open window of that type, not necessarily `dockTo`; that
  placement is the editor's business.
- Numbers.TryParseInt32: culture-specific signs, surrounding white space
  inside the parsed text (the model parses text that is already trimmed),
  and trailing NUL characters are not accepted.
- Paths.IsSeparator: `\` counts as a directory separator besides `/`,
  which is the Windows rule. On macOS and Linux editors `Path.GetFileName`
  and `Path.GetExtension` split only at `/`, so a name holding `\` is read
  differently there. The volume separator `:` is not treated as ending the
  extension.
- The directory separator in `Directory` listings: the listings are taken
  as given strings.
- The button index is captured when a button is built, and `Refresh` clears
  the element list even when the folder asset is gone. A stale button's
  later key press is not modelled.
