/** Engine-side values that the VR hit-test bridge consumes, and the engine
    queries it calls, as opaque data and total functions.

    Vectors are integer vectors: the model does not capture float rounding.
    Identities of components, Slate widgets, worlds, controllers, local
    players and geometries are plain numbers; a weak pointer that no longer
    resolves is `None`. */
module Engine {

  datatype Option<T> = None | Some(value: T)

  type CompId = nat        // a primitive component (UPrimitiveComponent*)
  type WidgetId = nat      // a Slate widget (SWidget)
  type WorldId = nat       // a UWorld
  type ControllerId = nat  // an APlayerController
  type PlayerId = nat      // a ULocalPlayer
  type GeometryId = nat    // an FGeometry handed in by Slate

  /** `FGeometry()`, the empty geometry the emulated touch events pass. */
  const DefaultGeometry: GeometryId := 0

  datatype Vec2 = Vec2(x: int, y: int)
  datatype Vec3 = Vec3(x: int, y: int, z: int)

  const ZeroVec2 := Vec2(0, 0)
  const ZeroVec3 := Vec3(0, 0, 0)

  function Sub(a: Vec3, b: Vec3): Vec3 {
    Vec3(a.x - b.x, a.y - b.y, a.z - b.z)
  }

  function Dot(a: Vec3, b: Vec3): int {
    a.x * b.x + a.y * b.y + a.z * b.z
  }

  /** `FVector::DistSquared`. */
  function DistSquared(a: Vec3, b: Vec3): int {
    Dot(Sub(a, b), Sub(a, b))
  }

  /** The parts of an `FHitResult` the bridge reads. */
  datatype HitResult = HitResult(
    location: Vec3,
    impactPoint: Vec3,
    traceStart: Vec3,
    component: Option<CompId>)

  /** A default-constructed `FHitResult`: no component. */
  const EmptyHit := HitResult(ZeroVec3, ZeroVec3, ZeroVec3, None)

  /** `FVirtualPointerPosition`. */
  datatype VirtualPointer = VirtualPointer(current: Vec2, last: Vec2)

  /** `FWidgetAndPointer`: an arranged widget with its virtual cursor. Two
      entries are the same entry when they hold the same widget. */
  datatype WidgetAndPointer = WidgetAndPointer(
    widget: WidgetId,
    geometry: GeometryId,
    pointer: VirtualPointer)

  /** An `FArrangedWidget` of draw size `size` at the identity layout transform. */
  datatype ArrangedWidget = ArrangedWidget(widget: WidgetId, size: Vec2)

  /** What the engine knows about a live `UWidgetComponent`. A primitive
      component casts to a widget component exactly when the environment
      lists it among its widget components. */
  datatype WidgetInfo = WidgetInfo(
    slateWidget: Option<WidgetId>,
    hitTestGridValid: bool,
    usingLegacyRotation: bool,
    upVector: Vec3,
    forwardVector: Vec3,
    location: Vec3,
    maxInteractionDistance: int,
    drawSize: Vec2)

  /** A local player and the controller it owns in its world. */
  datatype LocalPlayer = LocalPlayer(id: PlayerId, controller: Option<ControllerId>)

  /** An `APlayerController` passed by a caller, with its `Player` cast to a
      local player (`None` when it is not a local one). */
  datatype PlayerController = PlayerController(id: ControllerId, localPlayer: Option<PlayerId>)

  /** What `APlayerController::GetHitResultAtScreenPosition` reports, and
      what it leaves in its out-parameter. */
  datatype TraceOutcome = TraceOutcome(found: bool, written: HitResult)

  /** The key events the emulation sends. */
  datatype Key = Enter

  datatype ModifierKeys = ModifierKeys(shift: bool, control: bool, alt: bool, command: bool)

  /** `FModifierKeysState()`: no modifier held. */
  const NoModifiers := ModifierKeys(false, false, false, false)

  datatype PointerEvent = PointerEvent(
    userIndex: nat,
    pointerIndex: nat,
    screenPosition: Vec2,
    lastScreenPosition: Vec2,
    pressLeftMouseButton: bool)

  datatype KeyEvent = KeyEvent(
    key: Key,
    modifiers: ModifierKeys,
    userIndex: nat,
    isRepeat: bool,
    characterCode: nat,
    keyCode: nat)

  type Reply = nat

  /** The calls the bridge makes into Slate and the player controller, in the
      order they happen. */
  datatype SlateCall =
    | MouseEnter(widget: WidgetId, geometry: GeometryId, event: PointerEvent)
    | MouseLeave(widget: WidgetId, event: PointerEvent)
    | MouseButtonDown(widget: WidgetId, geometry: GeometryId, event: PointerEvent)
    | MouseButtonUp(widget: WidgetId, geometry: GeometryId, event: PointerEvent)
    | MouseMove(widget: WidgetId, geometry: GeometryId, event: PointerEvent)
    | KeyDown(widget: WidgetId, geometry: GeometryId, keyEvent: KeyEvent)
    | KeyUp(widget: WidgetId, geometry: GeometryId, keyEvent: KeyEvent)
    | ProcessReply(path: seq<WidgetAndPointer>, reply: Reply, event: PointerEvent)
    | SetUserFocus(player: PlayerId, widget: WidgetId)
    | SetInputModeGameOnly(controller: ControllerId)

  /** The engine as the bridge sees it during one call. */
  datatype Env = Env(
    frameNumber: nat,                              // GFrameNumber
    liveWorlds: set<WorldId>,                      // worlds a weak pointer still resolves to
    gameWorlds: set<WorldId>,                      // UWorld::IsGameWorld()
    player0Controller: map<WorldId, ControllerId>, // local player 0 and its controller, when both exist
    widgets: map<CompId, WidgetInfo>,              // live widget components
    ownerPlayer: map<CompId, LocalPlayer>,         // UWidgetComponent::GetOwnerPlayer()
    trace: (ControllerId, Vec2, HitResult) -> TraceOutcome,
    hitWidgetPath: (CompId, Vec3, bool, real) -> seq<WidgetAndPointer>,
    localHitLocation: (CompId, Vec3) -> Vec2,
    absoluteToLocal: (GeometryId, Vec2) -> Vec2,
    buttonReply: (WidgetId, GeometryId, bool, PointerEvent) -> Reply)

  /** `GetSlateWidget()` of a component, `None` when it is not a live widget
      component or has no widget. */
  function SlateWidgetOf(env: Env, c: CompId): Option<WidgetId> {
    if c in env.widgets then env.widgets[c].slateWidget else None
  }

  function HitTestGridValid(env: Env, c: CompId): bool {
    c in env.widgets && env.widgets[c].hitTestGridValid
  }

  /** The pointer event the bridge builds for an entry: user 0, pointer 0, the
      entry's own cursor positions. */
  function TouchEvent(e: WidgetAndPointer, pressed: bool): PointerEvent {
    PointerEvent(0, 0, e.pointer.current, e.pointer.last, pressed)
  }

  /** `FKeyEvent(EKeys::Enter, FModifierKeysState(), 0, false, 0, 0)`. */
  const ActivateKeyEvent := KeyEvent(Enter, NoModifiers, 0, false, 0, 0)

  /** Appending to a call log regroups freely. */
  lemma Regroup<T>(a: seq<T>, b: seq<T>, c: seq<T>)
    ensures (a + b) + c == a + (b + c)
  {
  }
}
