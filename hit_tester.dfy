/** `FWidgetVRHitTester`: the custom hit-test path a game viewport holds. Its
    memo fields are `mutable` in the source, so its const queries update them
    too; every method here keeps the fields equal to the value-level
    definitions of module HitTesting applied to the state before the call. */
module HitTester {
  import opened Engine
  import opened HitTesting

  class WidgetVRHitTester {
    /** `RegisteredComponents`: the widget components this tester serves. */
    var RegisteredComponents: seq<CompId>
    /** The world the tester was made for; `GetWorld` resolves it. */
    const World: WorldId
    var CachedFrame: int
    var CachedScreenPosition: Vec2
    var CachedHitResult: HitResult
    var UseCustomHit: bool
    /** The screen-position traces made so far, oldest first. */
    ghost var Traces: seq<TraceCall>

    /** Registration goes through `AddUnique` only, so no component is listed twice. */
    ghost predicate Valid()
      reads this
    {
      NoDup(RegisteredComponents)
    }

    /** The memo fields as one value. */
    function Cache(): CacheState
      reads this
    {
      CacheState(CachedFrame, CachedScreenPosition, CachedHitResult, UseCustomHit)
    }

    constructor (world: WorldId)
      ensures World == world && RegisteredComponents == [] && Traces == []
      ensures Cache() == InitialCache
      ensures Valid()
    {
      World := world;
      RegisteredComponents := [];
      CachedFrame := -1;
      CachedScreenPosition := ZeroVec2;
      CachedHitResult := EmptyHit;
      UseCustomHit := false;
      Traces := [];
    }

    /** `GetHitResultAtScreenPositionAndCache`; `controller` is `None` for a
        null player controller. */
    method GetHitResultAtScreenPositionAndCache(env: Env, controller: Option<ControllerId>, screenPosition: Vec2)
      returns (hitComponent: Option<CompId>)
      modifies this
      ensures var s := Lookup(old(Cache()), env, controller, screenPosition);
              hitComponent == s.value && Cache() == s.cache && Traces == old(Traces) + s.traces
      ensures RegisteredComponents == old(RegisteredComponents)
    {
      hitComponent := None;
      if UseCustomHit {
        return CachedHitResult.component;
      }
      if env.frameNumber != CachedFrame || CachedScreenPosition != screenPosition {
        CachedFrame := env.frameNumber;
        CachedScreenPosition := screenPosition;
        if controller.Some? {
          // the cached hit is the trace's out-parameter
          var outcome := env.trace(controller.value, screenPosition, CachedHitResult);
          Traces := Traces + [TraceCall(controller.value, screenPosition)];
          CachedHitResult := outcome.written;
          if outcome.found {
            return CachedHitResult.component;
          }
        }
      } else {
        return CachedHitResult.component;
      }
    }

    /** `SetCustomHit`: from now on every lookup answers with `hit`. */
    method SetCustomHit(hit: HitResult)
      modifies this
      ensures Cache() == SetCustom(old(Cache()), hit)
      ensures RegisteredComponents == old(RegisteredComponents) && Traces == old(Traces)
    {
      if !UseCustomHit {
        UseCustomHit := true;
      }
      CachedHitResult := hit;
    }

    method RegisterWidgetComponent(component: CompId)
      requires Valid()
      modifies this
      ensures Valid()
      ensures RegisteredComponents == AddUnique(old(RegisteredComponents), component)
      ensures component in RegisteredComponents
      ensures Cache() == old(Cache()) && Traces == old(Traces)
    {
      if component !in RegisteredComponents {
        RegisteredComponents := RegisteredComponents + [component];
      }
    }

    method UnregisterWidgetComponent(component: CompId)
      requires Valid()
      modifies this
      ensures Valid()
      ensures RegisteredComponents == RemoveSingleSwap(old(RegisteredComponents), component)
      // exactly `component` goes; every other registration stays
      ensures forall c :: c in RegisteredComponents <==> c in old(RegisteredComponents) && c != component
      ensures Cache() == old(Cache()) && Traces == old(Traces)
    {
      RemoveSingleSwapRemoves(RegisteredComponents, component);
      match IndexOf(RegisteredComponents, component)
      case None =>
      case Some(i) =>
        var n := |RegisteredComponents|;
        RegisteredComponents := RegisteredComponents[i := RegisteredComponents[n - 1]][..n - 1];
    }

    method GetNumRegisteredComponents() returns (n: nat)
      ensures n == |RegisteredComponents|
    {
      n := |RegisteredComponents|;
    }

    /** `GetWorld`: the tester's world while it is alive. */
    function GetWorld(env: Env): (r: Option<WorldId>)
      ensures r.Some? <==> World in env.liveWorlds
      ensures r.Some? ==> r.value == World
    {
      if World in env.liveWorlds then Some(World) else None
    }

    /** `GetBubblePathAndVirtualCursors`. */
    method GetBubblePathAndVirtualCursors(env: Env, geometry: GeometryId, desktopSpaceCoordinate: Vec2, ignoreEnabledStatus: bool)
      returns (path: seq<WidgetAndPointer>)
      modifies this
      ensures var s := BubblePath(World, old(Cache()), env, geometry, desktopSpaceCoordinate, ignoreEnabledStatus);
              path == s.value && Cache() == s.cache && Traces == old(Traces) + s.traces
      ensures RegisteredComponents == old(RegisteredComponents)
    {
      path := [];
      if World in env.liveWorlds && World in env.gameWorlds {
        if World in env.player0Controller {
          var hitComponent := GetHitResultAtScreenPositionAndCache(env, Some(env.player0Controller[World]),
                                                                   env.absoluteToLocal(geometry, desktopSpaceCoordinate));
          if hitComponent.Some? && hitComponent.value in env.widgets {
            var widget := env.widgets[hitComponent.value];
            var forward := if widget.usingLegacyRotation then widget.upVector else widget.forwardVector;
            if Dot(forward, Sub(CachedHitResult.impactPoint, CachedHitResult.traceStart)) < 0 {
              if DistSquared(CachedHitResult.traceStart, widget.location) <=
                 widget.maxInteractionDistance * widget.maxInteractionDistance {
                path := env.hitWidgetPath(hitComponent.value, CachedHitResult.location, ignoreEnabledStatus, 0.0);
              }
            }
          }
        }
      }
    }

    /** `ArrangeChildren`: appends one arranged widget per registered, live
        component that has a widget, in registry order. */
    method ArrangeChildren(env: Env, arrangedChildren: seq<ArrangedWidget>) returns (arranged: seq<ArrangedWidget>)
      ensures arranged == arrangedChildren + ArrangedFor(RegisteredComponents, env)
      ensures |arranged| <= |arrangedChildren| + |RegisteredComponents|
    {
      arranged := arrangedChildren;
      for i := 0 to |RegisteredComponents|
        invariant arranged == arrangedChildren + ArrangedFor(RegisteredComponents[..i], env)
      {
        var component := RegisteredComponents[i];
        assert RegisteredComponents[..i + 1][..i] == RegisteredComponents[..i];
        Regroup(arrangedChildren, ArrangedFor(RegisteredComponents[..i], env), ArrangedOne(component, env));
        if component in env.widgets && env.widgets[component].slateWidget.Some? {
          arranged := arranged + [ArrangedWidget(env.widgets[component].slateWidget.value, env.widgets[component].drawSize)];
        }
      }
      assert RegisteredComponents[..|RegisteredComponents|] == RegisteredComponents;
    }

    /** `TranslateMouseCoordinateFor3DChild`: `None` for a null pointer. */
    method TranslateMouseCoordinateFor3DChild(env: Env, childWidget: WidgetId, viewportGeometry: GeometryId,
                                              screenSpaceMouseCoordinate: Vec2, lastScreenSpaceMouseCoordinate: Vec2)
      returns (cursor: Option<VirtualPointer>)
      modifies this
      ensures var s := TranslateCursor(World, RegisteredComponents, old(Cache()), env, childWidget, viewportGeometry,
                                       screenSpaceMouseCoordinate);
              cursor == s.value && Cache() == s.cache && Traces == old(Traces) + s.traces
      ensures RegisteredComponents == old(RegisteredComponents)
    {
      cursor := None;
      if World in env.liveWorlds && World in env.gameWorlds && World in env.player0Controller {
        var pc := env.player0Controller[World];
        var localMouseCoordinate := env.absoluteToLocal(viewportGeometry, screenSpaceMouseCoordinate);
        var i := 0;
        while i < |RegisteredComponents|
          invariant 0 <= i <= |RegisteredComponents|
          invariant RegisteredComponents == old(RegisteredComponents)
          // what the search of the remaining entries yields completes the whole search
          invariant var whole := TranslateFrom(RegisteredComponents, old(Cache()), env, pc, childWidget, localMouseCoordinate);
                    var rest := TranslateFrom(RegisteredComponents[i..], Cache(), env, pc, childWidget, localMouseCoordinate);
                    rest.cache == whole.cache && rest.value == whole.value &&
                    Traces + rest.traces == old(Traces) + whole.traces
        {
          var component := RegisteredComponents[i];
          assert RegisteredComponents[i..][1..] == RegisteredComponents[i + 1..];
          if SlateWidgetOf(env, component) == Some(childWidget) {
            var hitComponent := GetHitResultAtScreenPositionAndCache(env, Some(pc), localMouseCoordinate);
            if hitComponent == Some(component) {
              var localHitLocation := env.localHitLocation(component, CachedHitResult.location);
              cursor := Some(VirtualPointer(localHitLocation, localHitLocation));
              return;
            }
          }
          i := i + 1;
        }
      }
    }
  }
}
