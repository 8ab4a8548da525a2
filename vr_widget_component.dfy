/** `UVRWidgetComponent` and the viewport slot it shares: registration with
    the viewport's custom hit-test path, the custom hit with hover
    simulation, focus, and the emulated touch and key input. The Slate and
    player-controller calls a method makes are appended to `Dispatched`. */
module VRWidget {
  import opened Engine
  import opened HitTesting
  import opened HitTester
  import opened Hover
  import opened Emulation

  datatype WidgetSpace = World | Screen

  /** The game viewport widget's custom hit-test path slot. */
  class GameViewport {
    var customHitTestPath: WidgetVRHitTester?

    constructor ()
      ensures customHitTestPath == null && Valid()
    {
      customHitTestPath := null;
    }

    /** A tester in the slot keeps its registry free of duplicates, and the
        slot holds a tester only while some component is registered with it. */
    ghost predicate Valid()
      reads this, customHitTestPath
    {
      customHitTestPath != null ==> customHitTestPath.Valid() && customHitTestPath.RegisteredComponents != []
    }
  }

  class VRWidgetComponent {
    const id: CompId
    /** `GetWorld()`. */
    const world: WorldId
    const space: WidgetSpace
    var WidgetHitTester: WidgetVRHitTester?
    var HoveredWidgets: seq<WidgetAndPointer>
    /** The calls made into Slate and player controllers, oldest first. */
    ghost var Dispatched: seq<SlateCall>

    /** The hover simulation never holds two entries for one widget. */
    ghost predicate Valid()
      reads this
    {
      UniqueWidgets(HoveredWidgets)
    }

    constructor (id: CompId, world: WorldId, space: WidgetSpace)
      ensures this.id == id && this.world == world && this.space == space
      ensures WidgetHitTester == null && HoveredWidgets == [] && Dispatched == []
      ensures Valid()
    {
      this.id := id;
      this.world := world;
      this.space := space;
      WidgetHitTester := null;
      HoveredWidgets := [];
      Dispatched := [];
    }

    /** `GetOwnerPlayer()`. */
    function OwnerPlayer(env: Env): (r: Option<LocalPlayer>)
      ensures r.Some? <==> id in env.ownerPlayer
    {
      if id in env.ownerPlayer then Some(env.ownerPlayer[id]) else None
    }

    /** `GetHitWidgetPath(Location, false, 1.0)`: the path every input method works on. */
    function HitWidgetPath(env: Env, hit: HitResult): seq<WidgetAndPointer> {
      env.hitWidgetPath(id, hit.location, false, 1.0)
    }

    /** The viewport-slot part of `OnRegister`; `viewport` is `null` when there
        is no game viewport widget. */
    method OnRegister(env: Env, viewport: GameViewport?)
      requires world in env.liveWorlds
      requires viewport != null ==> viewport.Valid()
      modifies this, viewport, if viewport == null then {} else {viewport.customHitTestPath}
      ensures viewport != null ==> viewport.Valid()
      ensures HoveredWidgets == old(HoveredWidgets) && Dispatched == old(Dispatched)
      // a screen-space component, one outside a game world, or no viewport: nothing happens
      ensures !(space != Screen && world in env.gameWorlds && viewport != null) ==>
                WidgetHitTester == old(WidgetHitTester) &&
                (viewport != null ==>
                   unchanged(viewport) &&
                   (viewport.customHitTestPath != null ==> unchanged(viewport.customHitTestPath)))
      // otherwise the slot keeps its tester, or gets a new one for this world
      ensures space != Screen && world in env.gameWorlds && viewport != null ==>
                viewport.customHitTestPath != null &&
                (old(viewport.customHitTestPath) != null ==>
                   viewport.customHitTestPath == old(viewport.customHitTestPath) &&
                   viewport.customHitTestPath.Cache() == old(viewport.customHitTestPath.Cache()) &&
                   viewport.customHitTestPath.Traces == old(viewport.customHitTestPath.Traces)) &&
                (old(viewport.customHitTestPath) == null ==>
                   fresh(viewport.customHitTestPath) && viewport.customHitTestPath.World == world &&
                   viewport.customHitTestPath.Cache() == InitialCache && viewport.customHitTestPath.Traces == [])
      // and the component registers with that tester, and keeps it, exactly when it is for this world
      ensures space != Screen && world in env.gameWorlds && viewport != null ==>
                var t := viewport.customHitTestPath;
                var before := old(if viewport.customHitTestPath == null then [] else viewport.customHitTestPath.RegisteredComponents);
                if t.GetWorld(env) == Some(world)
                then t.RegisteredComponents == AddUnique(before, id) && WidgetHitTester == t
                else t.RegisteredComponents == before && WidgetHitTester == old(WidgetHitTester)
      // a new tester is made for this component's world, so the component always joins it
      ensures space != Screen && world in env.gameWorlds && viewport != null && old(viewport.customHitTestPath) == null ==>
                viewport.customHitTestPath.RegisteredComponents == [id] && WidgetHitTester == viewport.customHitTestPath
    {
      if space != Screen && world in env.gameWorlds && viewport != null {
        JoinSlot(env, viewport);
      }
    }

    /** The world-space branch of `OnRegister`: get or make the slot's tester,
        then register with it when it is for this world. */
    method JoinSlot(env: Env, viewport: GameViewport)
      requires world in env.liveWorlds
      requires viewport.Valid()
      modifies this, viewport, viewport.customHitTestPath
      ensures viewport.Valid() && viewport.customHitTestPath != null
      ensures HoveredWidgets == old(HoveredWidgets) && Dispatched == old(Dispatched)
      ensures old(viewport.customHitTestPath) != null ==>
                viewport.customHitTestPath == old(viewport.customHitTestPath) &&
                viewport.customHitTestPath.Cache() == old(viewport.customHitTestPath.Cache()) &&
                viewport.customHitTestPath.Traces == old(viewport.customHitTestPath.Traces)
      ensures old(viewport.customHitTestPath) == null ==>
                fresh(viewport.customHitTestPath) && viewport.customHitTestPath.World == world &&
                viewport.customHitTestPath.Cache() == InitialCache && viewport.customHitTestPath.Traces == []
      ensures var t := viewport.customHitTestPath;
              var before := old(if viewport.customHitTestPath == null then [] else viewport.customHitTestPath.RegisteredComponents);
              if t.GetWorld(env) == Some(world)
              then t.RegisteredComponents == AddUnique(before, id) && WidgetHitTester == t
              else t.RegisteredComponents == before && WidgetHitTester == old(WidgetHitTester)
    {
      var customHitTestPath := SlotTester(viewport);
      if customHitTestPath.GetWorld(env) == Some(world) {
        customHitTestPath.RegisterWidgetComponent(id);
        WidgetHitTester := customHitTestPath;
      }
    }

    /** The slot's tester, made for this component's world when the slot is empty. */
    method SlotTester(viewport: GameViewport) returns (customHitTestPath: WidgetVRHitTester)
      requires viewport.Valid()
      modifies viewport
      ensures viewport.customHitTestPath == customHitTestPath && customHitTestPath.Valid()
      ensures old(viewport.customHitTestPath) != null ==> customHitTestPath == old(viewport.customHitTestPath)
      ensures old(viewport.customHitTestPath) == null ==>
                fresh(customHitTestPath) && customHitTestPath.World == world && customHitTestPath.RegisteredComponents == [] &&
                customHitTestPath.Cache() == InitialCache && customHitTestPath.Traces == []
    {
      if viewport.customHitTestPath == null {
        customHitTestPath := new WidgetVRHitTester(world);
        viewport.customHitTestPath := customHitTestPath;
      } else {
        customHitTestPath := viewport.customHitTestPath;
      }
    }

    /** The viewport-slot part of `OnUnregister`: the component leaves the
        slot's tester, and an empty tester leaves the slot. */
    method OnUnregister(env: Env, viewport: GameViewport?)
      requires viewport != null ==> viewport.Valid()
      modifies viewport, if viewport == null then {} else {viewport.customHitTestPath}
      ensures viewport != null ==> viewport.Valid()
      // the component keeps its tester reference, even once the slot is cleared
      ensures WidgetHitTester == old(WidgetHitTester)
      ensures !(world in env.gameWorlds && viewport != null && old(viewport.customHitTestPath) != null) ==>
                (viewport != null ==>
                   unchanged(viewport) &&
                   (viewport.customHitTestPath != null ==> unchanged(viewport.customHitTestPath)))
      ensures world in env.gameWorlds && viewport != null && old(viewport.customHitTestPath) != null ==>
                var t := old(viewport.customHitTestPath);
                t.RegisteredComponents == RemoveSingleSwap(old(t.RegisteredComponents), id) &&
                id !in t.RegisteredComponents &&
                t.Cache() == old(t.Cache()) && t.Traces == old(t.Traces) &&
                viewport.customHitTestPath == (if t.RegisteredComponents == [] then null else t)
    {
      if world in env.gameWorlds && viewport != null {
        var customHitTestPath := viewport.customHitTestPath;
        if customHitTestPath != null {
          customHitTestPath.UnregisterWidgetComponent(id);
          var n := customHitTestPath.GetNumRegisteredComponents();
          if n == 0 {
            viewport.customHitTestPath := null;
          }
        }
      }
    }

    /** `GetLocalHit`: the engine's projection of a world location onto this widget. */
    method GetLocalHit(env: Env, worldHitLocation: Vec3) returns (localHitLocation: Vec2)
      ensures localHitLocation == env.localHitLocation(id, worldHitLocation)
    {
      localHitLocation := env.localHitLocation(id, worldHitLocation);
    }

    /** `SetCustomHit`: installs the hit in the tester when the component has a
        widget, then, with hover simulation on and a valid hit-test grid, leaves
        the hovered widgets that are off the new path and enters the new ones. */
    method SetCustomHit(env: Env, hit: HitResult, simulateHover: bool)
      requires Valid()
      requires SlateWidgetOf(env, id).Some? ==> WidgetHitTester != null
      modifies this, WidgetHitTester
      ensures Valid()
      ensures WidgetHitTester == old(WidgetHitTester)
      ensures SlateWidgetOf(env, id).Some? ==>
                WidgetHitTester.Cache() == SetCustom(old(WidgetHitTester.Cache()), hit) &&
                WidgetHitTester.RegisteredComponents == old(WidgetHitTester.RegisteredComponents) &&
                WidgetHitTester.Traces == old(WidgetHitTester.Traces)
      ensures SlateWidgetOf(env, id).None? && WidgetHitTester != null ==> unchanged(WidgetHitTester)
      ensures var r := Reconcile(old(HoveredWidgets), HitWidgetPath(env, hit), Refocus(OwnerPlayer(env), SlateWidgetOf(env, id)));
              if simulateHover && HitTestGridValid(env, id)
              then HoveredWidgets == r.hovered && Dispatched == old(Dispatched) + r.calls
              else HoveredWidgets == old(HoveredWidgets) && Dispatched == old(Dispatched)
    {
      if SlateWidgetOf(env, id).Some? {
        WidgetHitTester.SetCustomHit(hit);
      }
      if simulateHover {
        var arrangedWidgets := HitWidgetPath(env, hit);
        if HitTestGridValid(env, id) {
          SimulateHover(env, arrangedWidgets);
        }
      }
    }

    /** The hover simulation of `SetCustomHit` for the widget path at the hit:
        leave, remove, then enter. */
    method SimulateHover(env: Env, arrangedWidgets: seq<WidgetAndPointer>)
      requires Valid()
      modifies this
      ensures Valid()
      ensures var r := Reconcile(old(HoveredWidgets), arrangedWidgets, Refocus(OwnerPlayer(env), SlateWidgetOf(env, id)));
              HoveredWidgets == r.hovered && Dispatched == old(Dispatched) + r.calls
      ensures WidgetHitTester == old(WidgetHitTester)
    {
      var widgetsToRemove := LeaveHovered(env, arrangedWidgets);
      ghost var leaveCalls := LeaveCalls(widgetsToRemove, Refocus(OwnerPlayer(env), SlateWidgetOf(env, id)));
      RemoveHovered(widgetsToRemove);
      ghost var kept := HoveredWidgets;
      EnterHovered(arrangedWidgets);
      Regroup(old(Dispatched), leaveCalls, EnterPhase(kept, arrangedWidgets).calls);
    }

    /** The leave loop of `SetCustomHit`: each hovered entry whose widget is
        off the new path gets a leave call and the focus reset, and is
        collected for removal. */
    method LeaveHovered(env: Env, arrangedWidgets: seq<WidgetAndPointer>) returns (widgetsToRemove: seq<WidgetAndPointer>)
      modifies this
      ensures widgetsToRemove == Leaving(HoveredWidgets, arrangedWidgets)
      ensures Dispatched == old(Dispatched) + LeaveCalls(widgetsToRemove, Refocus(OwnerPlayer(env), SlateWidgetOf(env, id)))
      ensures HoveredWidgets == old(HoveredWidgets) && WidgetHitTester == old(WidgetHitTester)
    {
      ghost var refocus := Refocus(OwnerPlayer(env), SlateWidgetOf(env, id));
      var hoveredWidgets := HoveredWidgets;
      widgetsToRemove := [];
      for i := 0 to |hoveredWidgets|
        invariant HoveredWidgets == hoveredWidgets && WidgetHitTester == old(WidgetHitTester)
        invariant widgetsToRemove == Leaving(hoveredWidgets[..i], arrangedWidgets)
        invariant Dispatched == old(Dispatched) + LeaveCalls(widgetsToRemove, refocus)
      {
        widgetsToRemove := LeaveStep(env, hoveredWidgets, i, arrangedWidgets, widgetsToRemove, old(Dispatched));
      }
      assert hoveredWidgets[..|hoveredWidgets|] == hoveredWidgets;
    }

    /** One turn of the leave loop over `hoveredWidgets`: entry `i` is left
        when its widget is off the path. */
    method LeaveStep(env: Env, hoveredWidgets: seq<WidgetAndPointer>, i: nat, arrangedWidgets: seq<WidgetAndPointer>,
                     widgetsToRemove: seq<WidgetAndPointer>, ghost before: seq<SlateCall>)
      returns (next: seq<WidgetAndPointer>)
      requires i < |hoveredWidgets| && widgetsToRemove == Leaving(hoveredWidgets[..i], arrangedWidgets)
      requires Dispatched == before + LeaveCalls(widgetsToRemove, Refocus(OwnerPlayer(env), SlateWidgetOf(env, id)))
      modifies this
      ensures next == Leaving(hoveredWidgets[..i + 1], arrangedWidgets)
      ensures Dispatched == before + LeaveCalls(next, Refocus(OwnerPlayer(env), SlateWidgetOf(env, id)))
      ensures HoveredWidgets == old(HoveredWidgets) && WidgetHitTester == old(WidgetHitTester)
    {
      ghost var refocus := Refocus(OwnerPlayer(env), SlateWidgetOf(env, id));
      var previousHoveredWidget := hoveredWidgets[i];
      LeavingStep(hoveredWidgets, i, arrangedWidgets, refocus);
      next := widgetsToRemove;
      if !Holds(arrangedWidgets, previousHoveredWidget.widget) {
        ghost var callsSoFar := LeaveCalls(widgetsToRemove, refocus);
        LeaveEntry(env, previousHoveredWidget);
        next := widgetsToRemove + [previousHoveredWidget];
        Regroup(before, callsSoFar, [MouseLeave(previousHoveredWidget.widget, TouchEvent(previousHoveredWidget, false))] + refocus);
      }
    }

    /** One leave: the entry's widget gets a leave event from its stored
        cursor, not pressed, and focus is recaptured. */
    method LeaveEntry(env: Env, previousHoveredWidget: WidgetAndPointer)
      modifies this
      ensures Dispatched == old(Dispatched) +
                ([MouseLeave(previousHoveredWidget.widget, TouchEvent(previousHoveredWidget, false))] +
                 Refocus(OwnerPlayer(env), SlateWidgetOf(env, id)))
      ensures HoveredWidgets == old(HoveredWidgets) && WidgetHitTester == old(WidgetHitTester)
    {
      var leave := MouseLeave(previousHoveredWidget.widget, TouchEvent(previousHoveredWidget, false));
      Dispatched := Dispatched + [leave];
      RecaptureFocus(env);
      Regroup(old(Dispatched), [leave], Refocus(OwnerPlayer(env), SlateWidgetOf(env, id)));
    }

    /** After a leave, focus returns to the component's widget for its owner
        player, and the owner's controller goes back to game-only input. */
    method RecaptureFocus(env: Env)
      modifies this
      ensures Dispatched == old(Dispatched) + Refocus(OwnerPlayer(env), SlateWidgetOf(env, id))
      ensures HoveredWidgets == old(HoveredWidgets) && WidgetHitTester == old(WidgetHitTester)
    {
      var owner := OwnerPlayer(env);
      if owner.Some? && SlateWidgetOf(env, id).Some? {
        Dispatched := Dispatched + [SetUserFocus(owner.value.id, SlateWidgetOf(env, id).value)];
        if owner.value.controller.Some? {
          Dispatched := Dispatched + [SetInputModeGameOnly(owner.value.controller.value)];
        }
      }
    }

    /** The removal loop of `SetCustomHit`. */
    method RemoveHovered(widgetsToRemove: seq<WidgetAndPointer>)
      requires Valid()
      modifies this
      ensures Valid()
      ensures HoveredWidgets == RemoveEach(old(HoveredWidgets), widgetsToRemove)
      ensures Dispatched == old(Dispatched) && WidgetHitTester == old(WidgetHitTester)
    {
      for j := 0 to |widgetsToRemove|
        invariant RemoveEach(HoveredWidgets, widgetsToRemove[j..]) == RemoveEach(old(HoveredWidgets), widgetsToRemove)
        invariant Dispatched == old(Dispatched) && WidgetHitTester == old(WidgetHitTester)
      {
        assert widgetsToRemove[j..][1..] == widgetsToRemove[j + 1..];
        HoveredWidgets := Without(HoveredWidgets, widgetsToRemove[j].widget);
      }
      RemoveEachFacts(old(HoveredWidgets), widgetsToRemove);
    }

    /** The enter loop of `SetCustomHit`. */
    method EnterHovered(arrangedWidgets: seq<WidgetAndPointer>)
      requires Valid()
      modifies this
      ensures Valid()
      ensures var r := EnterPhase(old(HoveredWidgets), arrangedWidgets);
              HoveredWidgets == r.hovered && Dispatched == old(Dispatched) + r.calls
      ensures WidgetHitTester == old(WidgetHitTester)
    {
      for k := 0 to |arrangedWidgets|
        invariant WidgetHitTester == old(WidgetHitTester)
        // what the remaining path entries produce completes the enter phase
        invariant var whole := EnterPhase(old(HoveredWidgets), arrangedWidgets);
                  var rest := EnterPhase(HoveredWidgets, arrangedWidgets[k..]);
                  rest.hovered == whole.hovered && Dispatched + rest.calls == old(Dispatched) + whole.calls
      {
        var arrangedWidget := arrangedWidgets[k];
        assert arrangedWidgets[k..][1..] == arrangedWidgets[k + 1..];
        if !Holds(HoveredWidgets, arrangedWidget.widget) {
          HoveredWidgets := HoveredWidgets + [arrangedWidget];
          Dispatched := Dispatched + [MouseEnter(arrangedWidget.widget, arrangedWidget.geometry, TouchEvent(arrangedWidget, false))];
        }
      }
      EnterPhaseFacts(old(HoveredWidgets), arrangedWidgets);
    }

    /** `Focus`; `pc` is `None` for a null controller. */
    method Focus(env: Env, pc: Option<PlayerController>)
      modifies this
      ensures Dispatched == old(Dispatched) + FocusCalls(pc, SlateWidgetOf(env, id))
      ensures HoveredWidgets == old(HoveredWidgets) && WidgetHitTester == old(WidgetHitTester)
    {
      if pc.Some? {
        var targetPlayer := pc.value.localPlayer;
        if targetPlayer.Some? && SlateWidgetOf(env, id).Some? {
          Dispatched := Dispatched + [SetUserFocus(targetPlayer.value, SlateWidgetOf(env, id).value)];
        }
      }
    }

    /** The loop shared by `EmulateTouchDown` (`down`) and `EmulateTouchUp`. */
    method DispatchPresses(env: Env, path: seq<WidgetAndPointer>, down: bool, pressLeftMouseButton: bool)
      requires WidgetHitTester != null
      modifies this, WidgetHitTester
      ensures WidgetHitTester == old(WidgetHitTester) && HoveredWidgets == old(HoveredWidgets)
      ensures var s := PressCalls(path, down, pressLeftMouseButton, WidgetHitTester.World, old(WidgetHitTester.Cache()), env);
              Dispatched == old(Dispatched) + s.value &&
              WidgetHitTester.Cache() == s.cache && WidgetHitTester.Traces == old(WidgetHitTester.Traces) + s.traces
      ensures WidgetHitTester.RegisteredComponents == old(WidgetHitTester.RegisteredComponents)
    {
      var tester := WidgetHitTester;
      ghost var c0 := tester.Cache();
      for k := 0 to |path|
        invariant WidgetHitTester == tester && HoveredWidgets == old(HoveredWidgets)
        invariant tester.RegisteredComponents == old(tester.RegisteredComponents)
        invariant var done := PressCalls(path[..k], down, pressLeftMouseButton, tester.World, c0, env);
                  tester.Cache() == done.cache &&
                  Dispatched == old(Dispatched) + done.value &&
                  tester.Traces == old(tester.Traces) + done.traces
      {
        assert path[..k + 1] == path[..k] + [path[k]];
        PressCallsSnoc(path[..k], path[k], down, pressLeftMouseButton, tester.World, c0, env);
        ghost var done := PressCalls(path[..k], down, pressLeftMouseButton, tester.World, c0, env);
        ghost var bubble := BubblePath(tester.World, tester.Cache(), env, DefaultGeometry, ZeroVec2, false);
        ghost var event := TouchEvent(path[k], pressLeftMouseButton);
        PressEntry(env, path[k], down, pressLeftMouseButton);
        Regroup(old(Dispatched), done.value, [ButtonCall(path[k], down, pressLeftMouseButton),
                                              ProcessReply(bubble.value, env.buttonReply(path[k].widget, path[k].geometry, down, event), event)]);
        Regroup(old(tester.Traces), done.traces, bubble.traces);
      }
      assert path[..|path|] == path;
    }

    /** One entry of the touch loop: the button call with the entry's own
        cursor, then `ProcessReply` with the widget's reply and the path the
        tester resolves for empty geometry and position, which its custom hit
        answers. */
    method PressEntry(env: Env, arrangedWidget: WidgetAndPointer, down: bool, pressLeftMouseButton: bool)
      requires WidgetHitTester != null
      modifies this, WidgetHitTester
      ensures WidgetHitTester == old(WidgetHitTester) && HoveredWidgets == old(HoveredWidgets)
      ensures var bubble := BubblePath(WidgetHitTester.World, old(WidgetHitTester.Cache()), env, DefaultGeometry, ZeroVec2, false);
              var pointerEvent := TouchEvent(arrangedWidget, pressLeftMouseButton);
              Dispatched == old(Dispatched) + [ButtonCall(arrangedWidget, down, pressLeftMouseButton),
                                               ProcessReply(bubble.value, env.buttonReply(arrangedWidget.widget, arrangedWidget.geometry, down, pointerEvent), pointerEvent)] &&
              WidgetHitTester.Cache() == bubble.cache && WidgetHitTester.Traces == old(WidgetHitTester.Traces) + bubble.traces
      ensures WidgetHitTester.RegisteredComponents == old(WidgetHitTester.RegisteredComponents)
    {
      var pointerEvent := TouchEvent(arrangedWidget, pressLeftMouseButton);
      var reply := env.buttonReply(arrangedWidget.widget, arrangedWidget.geometry, down, pointerEvent);
      Dispatched := Dispatched + [ButtonCall(arrangedWidget, down, pressLeftMouseButton)];
      var widgetPath := WidgetHitTester.GetBubblePathAndVirtualCursors(env, DefaultGeometry, ZeroVec2, false);
      Dispatched := Dispatched + [ProcessReply(widgetPath, reply, pointerEvent)];
    }

    method EmulateTouchDown(env: Env, hit: HitResult, pressLeftMouseButton: bool)
      requires HitTestGridValid(env, id) && HitWidgetPath(env, hit) != [] ==> WidgetHitTester != null
      modifies this, WidgetHitTester
      ensures WidgetHitTester == old(WidgetHitTester) && HoveredWidgets == old(HoveredWidgets)
      ensures HitTestGridValid(env, id) && HitWidgetPath(env, hit) != [] ==>
                var s := PressCalls(HitWidgetPath(env, hit), true, pressLeftMouseButton, WidgetHitTester.World,
                                    old(WidgetHitTester.Cache()), env);
                Dispatched == old(Dispatched) + s.value &&
                WidgetHitTester.Cache() == s.cache && WidgetHitTester.Traces == old(WidgetHitTester.Traces) + s.traces &&
                WidgetHitTester.RegisteredComponents == old(WidgetHitTester.RegisteredComponents)
      ensures !(HitTestGridValid(env, id) && HitWidgetPath(env, hit) != []) ==>
                Dispatched == old(Dispatched) && (WidgetHitTester != null ==> unchanged(WidgetHitTester))
    {
      var arrangedWidgets := HitWidgetPath(env, hit);
      if HitTestGridValid(env, id) && arrangedWidgets != [] {
        DispatchPresses(env, arrangedWidgets, true, pressLeftMouseButton);
      }
    }

    method EmulateTouchUp(env: Env, hit: HitResult, pressLeftMouseButton: bool)
      requires HitTestGridValid(env, id) && HitWidgetPath(env, hit) != [] ==> WidgetHitTester != null
      modifies this, WidgetHitTester
      ensures WidgetHitTester == old(WidgetHitTester) && HoveredWidgets == old(HoveredWidgets)
      ensures HitTestGridValid(env, id) && HitWidgetPath(env, hit) != [] ==>
                var s := PressCalls(HitWidgetPath(env, hit), false, pressLeftMouseButton, WidgetHitTester.World,
                                    old(WidgetHitTester.Cache()), env);
                Dispatched == old(Dispatched) + s.value &&
                WidgetHitTester.Cache() == s.cache && WidgetHitTester.Traces == old(WidgetHitTester.Traces) + s.traces &&
                WidgetHitTester.RegisteredComponents == old(WidgetHitTester.RegisteredComponents)
      ensures !(HitTestGridValid(env, id) && HitWidgetPath(env, hit) != []) ==>
                Dispatched == old(Dispatched) && (WidgetHitTester != null ==> unchanged(WidgetHitTester))
    {
      var arrangedWidgets := HitWidgetPath(env, hit);
      if HitTestGridValid(env, id) && arrangedWidgets != [] {
        DispatchPresses(env, arrangedWidgets, false, pressLeftMouseButton);
      }
    }

    method EmulateTouchMove(env: Env, hit: HitResult, pressLeftMouseButton: bool)
      modifies this
      ensures WidgetHitTester == old(WidgetHitTester) && HoveredWidgets == old(HoveredWidgets)
      ensures Dispatched == old(Dispatched) +
                (if HitTestGridValid(env, id) then MoveCalls(HitWidgetPath(env, hit), pressLeftMouseButton) else [])
    {
      var arrangedWidgets := HitWidgetPath(env, hit);
      if HitTestGridValid(env, id) {
        for k := 0 to |arrangedWidgets|
          invariant WidgetHitTester == old(WidgetHitTester) && HoveredWidgets == old(HoveredWidgets)
          invariant Dispatched == old(Dispatched) + MoveCalls(arrangedWidgets[..k], pressLeftMouseButton)
        {
          var arrangedWidget := arrangedWidgets[k];
          assert arrangedWidgets[..k + 1][..k] == arrangedWidgets[..k];
          Dispatched := Dispatched + [MouseMove(arrangedWidget.widget, arrangedWidget.geometry,
                                                TouchEvent(arrangedWidget, pressLeftMouseButton))];
        }
        assert arrangedWidgets[..|arrangedWidgets|] == arrangedWidgets;
      }
    }

    /** The loop shared by `EmulateActivateKeyDown` (`down`) and `EmulateActivateKeyUp`. */
    method DispatchKeys(path: seq<WidgetAndPointer>, down: bool)
      modifies this
      ensures WidgetHitTester == old(WidgetHitTester) && HoveredWidgets == old(HoveredWidgets)
      ensures Dispatched == old(Dispatched) + KeyCalls(path, down)
    {
      for k := 0 to |path|
        invariant WidgetHitTester == old(WidgetHitTester) && HoveredWidgets == old(HoveredWidgets)
        invariant Dispatched == old(Dispatched) + KeyCalls(path[..k], down)
      {
        var arrangedWidget := path[k];
        assert path[..k + 1][..k] == path[..k];
        if down {
          Dispatched := Dispatched + [KeyDown(arrangedWidget.widget, arrangedWidget.geometry, ActivateKeyEvent)];
        } else {
          Dispatched := Dispatched + [KeyUp(arrangedWidget.widget, arrangedWidget.geometry, ActivateKeyEvent)];
        }
      }
      assert path[..|path|] == path;
    }

    method EmulateActivateKeyDown(env: Env, hit: HitResult)
      modifies this
      ensures WidgetHitTester == old(WidgetHitTester) && HoveredWidgets == old(HoveredWidgets)
      ensures Dispatched == old(Dispatched) + (if HitTestGridValid(env, id) then KeyCalls(HitWidgetPath(env, hit), true) else [])
    {
      var arrangedWidgets := HitWidgetPath(env, hit);
      if HitTestGridValid(env, id) {
        DispatchKeys(arrangedWidgets, true);
      }
    }

    method EmulateActivateKeyUp(env: Env, hit: HitResult)
      modifies this
      ensures WidgetHitTester == old(WidgetHitTester) && HoveredWidgets == old(HoveredWidgets)
      ensures Dispatched == old(Dispatched) + (if HitTestGridValid(env, id) then KeyCalls(HitWidgetPath(env, hit), false) else [])
    {
      var arrangedWidgets := HitWidgetPath(env, hit);
      if HitTestGridValid(env, id) {
        DispatchKeys(arrangedWidgets, false);
      }
    }
  }
}
