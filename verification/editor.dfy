/** The host objects the plugin's logic refers to, reduced to what that
    logic inspects: editor windows and project objects. */
module Editor {

  import opened Wrappers

  /** A dock area: the container whose tab strip hosts a window. */
  type DockId = nat

  /** An editor window: its identity, the dock area it sits in (None when
      its root element has no parent), and whether it is a `SceneView`. */
  datatype Window = Window(id: nat, dock: Option<DockId>, isSceneView: bool)

  /** A project object: its identity and its asset path ("" when it is not
      an asset). */
  datatype Asset = Asset(id: nat, path: string)
}
