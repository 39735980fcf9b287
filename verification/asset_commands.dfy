/** The asset commands of `Core`: how an object is opened (a folder becomes
    a folder tab, anything else a property editor), and what the duplicate
    and delete commands schedule for the folder tab they came from.
    `validFolders` stands for `AssetDatabase.IsValidFolder`. */
module AssetCommands {

  import opened Wrappers
  import opened Editor

  /** A window the command opens. */
  datatype Opening =
      /** `FolderTabWindow.Create(obj, dockTo)`: with a `dockTo` window the
          new tab is docked next to an open window of that window's type
          (`CreateWindow<FolderTabWindow>(dockTo.GetType())`), which need not
          be `dockTo` itself; without one it floats. */
    | FolderTab(asset: Asset, dockTo: Option<Window>)
      /** A property editor added as a tab of the dock area. */
    | PropertyTab(asset: Asset, dock: Option<DockId>)
      /** A property editor shown in a window of its own. */
    | PropertyWindow(asset: Asset)

  /** What `FocusAsset` does after selecting the object in the project
      window: open a folder on the next editor tick, or ping anything else. */
  datatype Focus = OpenFolderLater(asset: Asset) | Ping(asset: Asset)

  /** Work deferred to `EditorApplication.delayCall`. */
  datatype Deferred = RefreshWindow | FocusWindow

  /** The effects of the duplicate and delete commands. */
  datatype MenuCommand = MenuCommand(
    focusesProjectWindow: bool, selection: Asset, menuItem: string, deferred: seq<Deferred>)

  predicate IsFolder(obj: Asset, validFolders: set<string>) {
    obj.path in validFolders
  }

  function FocusAsset(obj: Asset, validFolders: set<string>): (f: Focus)
    ensures f.asset == obj
    ensures f.OpenFolderLater? <==> IsFolder(obj, validFolders)
  {
    if IsFolder(obj, validFolders) then OpenFolderLater(obj) else Ping(obj)
  }

  /** `OpenAssetAsTab`: the window under the mouse is the folder tab's
      `dockTo` and gives the property editor its dock area. Without such a window
      the reflective read of its parent throws, and nothing opens. */
  function OpenAssetAsTab(obj: Asset, mouseOver: Option<Window>, validFolders: set<string>): (r: Option<Opening>)
    ensures mouseOver.None? <==> r.None?
    ensures r.Some? ==> r.value.asset == obj
    ensures r.Some? ==> (r.value.FolderTab? <==> IsFolder(obj, validFolders))
    ensures r.Some? && r.value.FolderTab? ==> r.value.dockTo == mouseOver
    ensures r.Some? && r.value.PropertyTab? ==> r.value.dock == mouseOver.value.dock
    ensures r.Some? ==> !r.value.PropertyWindow?
  {
    match mouseOver
    case None => None
    case Some(w) =>
      if IsFolder(obj, validFolders) then Some(FolderTab(obj, mouseOver))
      else Some(PropertyTab(obj, w.dock))
  }

  /** `OpenAssetAsFloating`: a folder tab docked nowhere, or a shown property editor. */
  function OpenAssetAsFloating(obj: Asset, validFolders: set<string>): (r: Opening)
    ensures r.asset == obj
    ensures r.FolderTab? <==> IsFolder(obj, validFolders)
    ensures r.FolderTab? ==> r.dockTo.None?
    ensures !r.PropertyTab?
  {
    if IsFolder(obj, validFolders) then FolderTab(obj, None) else PropertyWindow(obj)
  }

  /** The loop body of the deferred work in `OnDragPerform`: a dropped object
      with a non-empty folder path becomes a folder tab created with
      `dockTo` = `target` (docked by `target`'s window type),
      anything else a property editor tab in `target`'s dock area. */
  function DropOpening(obj: Asset, target: Window, validFolders: set<string>): (r: Opening)
    ensures r.asset == obj
    ensures r.FolderTab? <==> obj.path != "" && IsFolder(obj, validFolders)
    ensures r.FolderTab? ==> r.dockTo == Some(target)
    ensures r.PropertyTab? <==> !r.FolderTab?
    ensures r.PropertyTab? ==> r.dock == target.dock
  {
    if obj.path != "" && IsFolder(obj, validFolders) then FolderTab(obj, Some(target))
    else PropertyTab(obj, target.dock)
  }

  /** Opening as a tab, opening as floating and dropping on a tab strip all
      decide folder versus property editor the same way, given that the
      empty path is not a folder. */
  lemma SameFolderRule(obj: Asset, w: Window, validFolders: set<string>)
    requires "" !in validFolders
    ensures OpenAssetAsTab(obj, Some(w), validFolders).value.FolderTab?
      <==> OpenAssetAsFloating(obj, validFolders).FolderTab?
    ensures OpenAssetAsFloating(obj, validFolders).FolderTab?
      <==> DropOpening(obj, w, validFolders).FolderTab?
  {
  }

  /** `DuplicateAsset`: the project window is focused, the object selected
      and "Edit/Duplicate" run; a refresh of the folder tab is scheduled only
      if the menu command ran, the tab's refocus always, after it. */
  function DuplicateAsset(obj: Asset, menuSucceeds: bool): (c: MenuCommand)
    ensures c.focusesProjectWindow && c.selection == obj && c.menuItem == "Edit/Duplicate"
    ensures RefreshWindow in c.deferred <==> menuSucceeds
    ensures |c.deferred| > 0 && c.deferred[|c.deferred| - 1] == FocusWindow
    ensures |c.deferred| == (if menuSucceeds then 2 else 1)
  {
    MenuCommand(true, obj, "Edit/Duplicate", Scheduled(menuSucceeds))
  }

  /** `DestroyAsset`: as duplicate, with "Assets/Delete" and without
      focusing the project window. */
  function DestroyAsset(obj: Asset, menuSucceeds: bool): (c: MenuCommand)
    ensures !c.focusesProjectWindow && c.selection == obj && c.menuItem == "Assets/Delete"
    ensures RefreshWindow in c.deferred <==> menuSucceeds
    ensures |c.deferred| > 0 && c.deferred[|c.deferred| - 1] == FocusWindow
    ensures |c.deferred| == (if menuSucceeds then 2 else 1)
  {
    MenuCommand(false, obj, "Assets/Delete", Scheduled(menuSucceeds))
  }

  /** The deferred calls both commands queue. */
  function Scheduled(menuSucceeds: bool): seq<Deferred> {
    if menuSucceeds then [RefreshWindow, FocusWindow] else [FocusWindow]
  }
}
