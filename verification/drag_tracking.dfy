/** Drag-hover tracking in `Core`: while objects are dragged, the window
    under the mouse (`_lastWindow`) has the drag-perform handler registered
    on its dock area, or, for a scene view, the scene GUI hook installed.
    Leaving a window unregisters it; dropping clears the tracking and opens
    the dropped objects as tabs for the window under the mouse (property
    editors in its dock area, folders with it as `dockTo`) when the mouse is
    over its tab strip. Windows are told apart by identity, and the
    dock area a window's handler goes to is looked up afresh at every event. */
module DragTracking {

  import opened Wrappers
  import opened Editor
  import AssetCommands

  /** `_lastWindow`, how many times each dock area holds the drag-perform
      handler, and how many times `OnSceneGUI` is subscribed to
      `SceneView.duringSceneGui`. */
  datatype Tracker = Tracker(last: Option<Window>, handlers: multiset<DockId>, sceneHooks: nat)

  const Initial: Tracker := Tracker(None, multiset{}, 0)

  /** Where `rootVisualElement.parent?.Children().First()` leads for each
      window (by identity) at the moment of an event; a window missing from
      the map has no parent, so nothing is registered for it. */
  type Layout = map<nat, DockId>

  function DockOf(w: Window, layout: Layout): Option<DockId> {
    if w.id in layout then Some(layout[w.id]) else None
  }

  /** The result of one editor update: the tracker, and whether the drag's
      visual mode is set to Copy (the mouse is over the hovered window's tab
      strip). */
  datatype Tick = Tick(tracker: Tracker, showsCopy: bool)

  /** The result of a drop: the tracker, the windows opened, and whether the
      drop event's propagation is stopped. */
  datatype Drop = Drop(tracker: Tracker, openings: seq<AssetCommands.Opening>, stopsEvent: bool)

  /** The registrations that belong to `last` under `layout`, and only them. */
  function HandlersFor(last: Option<Window>, layout: Layout): multiset<DockId> {
    match last
    case Some(w) => if !w.isSceneView && w.id in layout then multiset{layout[w.id]} else multiset{}
    case None => multiset{}
  }

  function HooksFor(last: Option<Window>): nat {
    if last.Some? && last.value.isSceneView then 1 else 0
  }

  /** The tracker's registrations are exactly those of `_lastWindow` in `layout`. */
  predicate Consistent(t: Tracker, layout: Layout) {
    t.handlers == HandlersFor(t.last, layout) && t.sceneHooks == HooksFor(t.last)
  }

  /** `RegisterEnterDrag`: a scene view re-subscribes the scene GUI hook
      (remove one subscription, add one); any other window removes the
      handler from its current dock area and adds it again. */
  function Register(t: Tracker, w: Window, layout: Layout): (t': Tracker)
    ensures t'.last == t.last
    ensures w.isSceneView ==> t'.handlers == t.handlers && t'.sceneHooks == (if t.sceneHooks == 0 then 1 else t.sceneHooks)
    ensures !w.isSceneView ==> t'.sceneHooks == t.sceneHooks
    ensures !w.isSceneView && w.id in layout ==> t'.handlers[layout[w.id]] == 1
    ensures forall d :: (w.isSceneView || DockOf(w, layout) != Some(d)) ==> t'.handlers[d] == t.handlers[d]
  {
    if w.isSceneView then t.(sceneHooks := (if t.sceneHooks > 0 then t.sceneHooks - 1 else 0) + 1)
    else match DockOf(w, layout)
      case None => t
      case Some(d) => t.(handlers := t.handlers[d := 0] + multiset{d})
  }

  /** `UnRegisterEnterDrag`: removes the scene hook, or the handler of the
      window's current dock area; nothing for no window. */
  function Unregister(t: Tracker, w: Option<Window>, layout: Layout): (t': Tracker)
    ensures t'.last == t.last
    ensures w.Some? && w.value.isSceneView ==> t'.handlers == t.handlers && t'.sceneHooks == (if t.sceneHooks > 0 then t.sceneHooks - 1 else 0)
    ensures w.Some? && !w.value.isSceneView && w.value.id in layout ==> t'.handlers[layout[w.value.id]] == 0
    ensures w.None? || !w.value.isSceneView ==> t'.sceneHooks == t.sceneHooks
    ensures forall d :: (w.None? || w.value.isSceneView || DockOf(w.value, layout) != Some(d)) ==> t'.handlers[d] == t.handlers[d]
  {
    match w
    case None => t
    case Some(win) =>
      if win.isSceneView then t.(sceneHooks := if t.sceneHooks > 0 then t.sceneHooks - 1 else 0)
      else match DockOf(win, layout)
        case None => t
        case Some(d) => t.(handlers := t.handlers[d := 0])
  }

  /** Registering twice is registering once: a dock area never holds the
      handler more than once after a registration. */
  lemma RegisterIsIdempotent(t: Tracker, w: Window, layout: Layout)
    ensures Register(Register(t, w, layout), w, layout) == Register(t, w, layout)
  {
  }

  /** Whether `hovered` is another window than `_lastWindow` (reference
      comparison: the same window counts as the same whatever its dock area). */
  predicate IsNewWindow(last: Option<Window>, hovered: Window) {
    last.None? || last.value.id != hovered.id
  }

  /** `OnUpdate`, given the number of dragged objects, the window under the
      mouse, whether the mouse is over that window's tab strip, and the
      current layout. */
  function OnUpdate(t: Tracker, dragCount: nat, hovered: Option<Window>, overTabStrip: bool, layout: Layout): (r: Tick)
    ensures dragCount == 0 ==> r == Tick(Unregister(t, t.last, layout).(last := None), false)
    ensures dragCount > 0 && hovered.None? ==> r == Tick(Unregister(t, t.last, layout).(last := None), false)
    ensures dragCount > 0 && hovered.Some? && IsNewWindow(t.last, hovered.value) ==>
      r.tracker == Register(Unregister(t, t.last, layout), hovered.value, layout).(last := hovered)
    ensures dragCount > 0 && hovered.Some? && !IsNewWindow(t.last, hovered.value) ==> r.tracker == t
    ensures r.showsCopy <==> dragCount > 0 && hovered.Some? && overTabStrip
  {
    if dragCount == 0 then Tick(Unregister(t, t.last, layout).(last := None), false)
    else match hovered
      case None => Tick(Unregister(t, t.last, layout).(last := None), false)
      case Some(w) =>
        var t' := if IsNewWindow(t.last, w) then Register(Unregister(t, t.last, layout), w, layout).(last := hovered) else t;
        Tick(t', overTabStrip)
  }

  /** `OnDragPerform`: `_lastWindow` is unregistered and cleared first. With
      no dragged objects, no window under the mouse, or the mouse off that
      window's tab strip, nothing opens; otherwise every dropped object is
      opened with that window as its target. The event (absent when called from the
      scene GUI hook) is stopped only in the last case. */
  function OnDragPerform(t: Tracker, objects: seq<Asset>, hovered: Option<Window>, overTabStrip: bool,
                         layout: Layout, validFolders: set<string>, fromEvent: bool): (r: Drop)
    ensures r.tracker == Unregister(t, t.last, layout).(last := None)
    ensures |objects| == 0 || hovered.None? || !overTabStrip ==> r.openings == [] && !r.stopsEvent
    ensures |objects| > 0 && hovered.Some? && overTabStrip ==>
      |r.openings| == |objects| &&
      forall k :: 0 <= k < |objects| ==> r.openings[k] == AssetCommands.DropOpening(objects[k], hovered.value, validFolders)
    ensures r.stopsEvent <==> fromEvent && |objects| > 0 && hovered.Some? && overTabStrip
  {
    var t' := Unregister(t, t.last, layout).(last := None);
    if |objects| == 0 || hovered.None? || !overTabStrip then Drop(t', [], false)
    else
      var openings := seq(|objects|, k requires 0 <= k < |objects| =>
        AssetCommands.DropOpening(objects[k], hovered.value, validFolders));
      Drop(t', openings, fromEvent)
  }

  /** `OnSceneGUI`: with no `_lastWindow` the hook removes itself; when the
      drag exits it performs the drop without an event. */
  function OnSceneGui(t: Tracker, dragExited: bool, objects: seq<Asset>, hovered: Option<Window>,
                      overTabStrip: bool, layout: Layout, validFolders: set<string>): (r: Drop)
    ensures t.last.None? ==> r == Drop(t.(sceneHooks := if t.sceneHooks > 0 then t.sceneHooks - 1 else 0), [], false)
    ensures t.last.Some? && !dragExited ==> r == Drop(t, [], false)
    ensures t.last.Some? && dragExited ==> r == OnDragPerform(t, objects, hovered, overTabStrip, layout, validFolders, false)
  {
    if t.last.None? then Drop(t.(sceneHooks := if t.sceneHooks > 0 then t.sceneHooks - 1 else 0), [], false)
    else if dragExited then OnDragPerform(t, objects, hovered, overTabStrip, layout, validFolders, false)
    else Drop(t, [], false)
  }

  /** The events the tracker reacts to, each with the layout at that moment. */
  datatype Event =
    | Update(dragCount: nat, hovered: Option<Window>, overTabStrip: bool, layout: Layout)
    | DragPerform(objects: seq<Asset>, hovered: Option<Window>, overTabStrip: bool, layout: Layout)
    | SceneGui(dragExited: bool, objects: seq<Asset>, hovered: Option<Window>, overTabStrip: bool, layout: Layout)

  function Step(t: Tracker, e: Event, validFolders: set<string>): Tracker {
    match e
    case Update(n, h, s, l) => OnUpdate(t, n, h, s, l).tracker
    case DragPerform(objs, h, s, l) => OnDragPerform(t, objs, h, s, l, validFolders, true).tracker
    case SceneGui(x, objs, h, s, l) => OnSceneGui(t, x, objs, h, s, l, validFolders).tracker
  }

  function Run(t: Tracker, events: seq<Event>, validFolders: set<string>): Tracker
    decreases |events|
  {
    if |events| == 0 then t else Run(Step(t, events[0], validFolders), events[1..], validFolders)
  }

  /** Unregistering `_lastWindow` from a consistent tracker removes every registration. */
  lemma UnregisterLastClears(t: Tracker, layout: Layout)
    requires Consistent(t, layout)
    ensures Unregister(t, t.last, layout).handlers == multiset{}
    ensures Unregister(t, t.last, layout).sceneHooks == 0
  {
    match t.last
    case None =>
    case Some(w) =>
      if !w.isSceneView && w.id in layout {
        var d := layout[w.id];
        assert t.handlers == multiset{d};
        assert Unregister(t, t.last, layout).handlers == multiset{d}[d := 0];
      }
  }

  /** While the layout stays as it is, every event keeps the registrations
      equal to those of `_lastWindow`. */
  lemma StepKeepsConsistent(t: Tracker, e: Event, validFolders: set<string>)
    requires Consistent(t, e.layout)
    ensures Consistent(Step(t, e, validFolders), e.layout)
  {
    match e
    case Update(n, h, s, l) =>
      if n == 0 || h.None? {
        UnregisterLastClears(t, l);
      } else {
        HoveredWindowIsRegistered(t, n, h.value, s, l);
      }
    case DragPerform(objs, h, s, l) =>
      DropClearsTracking(t, objs, h, s, l, validFolders, true);
    case SceneGui(x, objs, h, s, l) =>
      if t.last.Some? && x {
        DropClearsTracking(t, objs, h, s, l, validFolders, false);
      }
  }

  /** Any sequence of events under one unchanging layout keeps the
      registrations equal to those of `_lastWindow`. */
  lemma {:induction false} RunKeepsConsistent(t: Tracker, events: seq<Event>, layout: Layout, validFolders: set<string>)
    requires Consistent(t, layout)
    requires forall k :: 0 <= k < |events| ==> events[k].layout == layout
    ensures Consistent(Run(t, events, validFolders), layout)
    decreases |events|
  {
    if |events| > 0 {
      StepKeepsConsistent(t, events[0], validFolders);
      assert forall k :: 0 <= k < |events| - 1 ==> events[1..][k] == events[k + 1];
      RunKeepsConsistent(Step(t, events[0], validFolders), events[1..], layout, validFolders);
    }
  }

  /** In a consistent tracker the drag-perform handler is registered at most
      once, only on `_lastWindow`'s dock area, and the scene hook is
      installed at most once, only while `_lastWindow` is a scene view. */
  lemma AtMostOneRegistration(t: Tracker, layout: Layout)
    requires Consistent(t, layout)
    ensures forall d :: t.handlers[d] <= 1
    ensures forall d :: t.handlers[d] > 0 ==>
      t.last.Some? && !t.last.value.isSceneView && DockOf(t.last.value, layout) == Some(d)
    ensures t.sceneHooks <= 1
    ensures t.sceneHooks > 0 ==> t.last.Some? && t.last.value.isSceneView
  {
  }

  /** A drop leaves no registration behind. */
  lemma DropClearsTracking(t: Tracker, objects: seq<Asset>, hovered: Option<Window>, overTabStrip: bool,
                           layout: Layout, validFolders: set<string>, fromEvent: bool)
    requires Consistent(t, layout)
    ensures OnDragPerform(t, objects, hovered, overTabStrip, layout, validFolders, fromEvent).tracker == Initial
  {
    UnregisterLastClears(t, layout);
  }

  /** While objects are dragged over a window, that window is `_lastWindow`
      (the one registered before, if it is the same window) and holds the
      only registration. */
  lemma HoveredWindowIsRegistered(t: Tracker, dragCount: nat, w: Window, overTabStrip: bool, layout: Layout)
    requires Consistent(t, layout) && dragCount > 0
    ensures var t' := OnUpdate(t, dragCount, Some(w), overTabStrip, layout).tracker;
      && t'.last.Some? && t'.last.value.id == w.id
      && (IsNewWindow(t.last, w) ==> t'.last == Some(w))
      && Consistent(t', layout)
  {
    if IsNewWindow(t.last, w) {
      UnregisterLastClears(t, layout);
      var u := Unregister(t, t.last, layout);
      if !w.isSceneView && w.id in layout {
        var d := layout[w.id];
        assert Register(u, w, layout).handlers == multiset{}[d := 0] + multiset{d};
      }
    }
  }

  /** The layout assumption is needed: a window registered on one dock area
      and then moved to another keeps its old handler when the drag leaves
      it, because the unregistration looks up the new dock area. */
  lemma ReDockingLeavesHandler(w: Window)
    requires !w.isSceneView
    ensures var events := [Update(1, Some(w), false, map[w.id := 1]), Update(0, None, false, map[w.id := 2])];
      var t := Run(Initial, events, {});
      t.last.None? && t.handlers == multiset{1}
  {
    var e1 := Update(1, Some(w), false, map[w.id := 1]);
    var e2 := Update(0, None, false, map[w.id := 2]);
    var t1 := Step(Initial, e1, {});
    assert t1.handlers == multiset{}[1 := 0] + multiset{1};
    var t2 := Step(t1, e2, {});
    assert t2.handlers == t1.handlers[2 := 0];
    assert t2.handlers == multiset{1};
    assert [e1, e2][1..] == [e2] && [e2][1..] == [];
    assert Run(Initial, [e1, e2], {}) == Run(t1, [e2], {}) == Run(t2, [], {});
  }
}
