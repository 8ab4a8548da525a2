# VR widget hit-test bridge, in Dafny

This project models the hit-test bridge of the VRUMGPlugin `UVRWidgetComponent`. The bridge lets a VR controller ray drive a UMG widget drawn in the 3D world.

It has three parts:

- **`FWidgetVRHitTester`.** The viewport holds one of these as its custom hit-test path. It keeps:
  - a registry of widget components (`TArray::AddUnique`, `TArray::RemoveSingleSwap`);
  - a memo of the last trace, keyed by frame number and screen position;
  - a sticky custom-hit override.

  It answers Slate's three queries:
  - the bubble path under a point, through a front-face and reach rule;
  - the arranged children;
  - the virtual cursor for a child widget.
- **The viewport slot.** `OnRegister` creates the tester if the slot is empty and registers the component when the tester's world is its own. `OnUnregister` removes the component and clears the slot once the registry is empty.
- **`UVRWidgetComponent` input.**
  - `SetCustomHit` installs a custom hit in the tester. It then reconciles the `HoveredWidgets` list against the widget path at the hit: leave events with focus recapture, removal, and enter events.
  - `Focus`.
  - The five `Emulate*` methods, which dispatch one pointer or key event per widget-path entry. Touch down and up feed each reply back through `ProcessReply`, using the tester's bubble path.

## How the model is built

- **`Engine`.** The engine and Slate are an `Env` value. Its arrow-typed fields are the engine's queries:
  - the visibility trace `GetHitResultAtScreenPosition`. It takes the cached hit as its out-parameter and says what it wrote there;
  - `GetHitWidgetPath`;
  - `GetLocalHitLocation`;
  - `AbsoluteToLocal`;
  - a widget's button reply, given the widget, its geometry, the button direction and the pointer event.

  Its other fields are per-call facts:
  - the frame number;
  - live and game worlds;
  - player 0's controller;
  - the live widget components with their render data;
  - owner players.

  Slate and player-controller calls are `SlateCall` values appended to a ghost log.
- **`HitTesting`.** The tester's behaviour as functions on a `CacheState` value: `Lookup`, `SetCustom`, `BubblePath` and `TranslateCursor`. Each returns the new cache, its answer and the traces it made. This module also has the registry operations and the lemmas about all of these.
- **`HitTester`.** The class `WidgetVRHitTester`, with the source's fields. Each method's `ensures` ties its result and new fields to the `HitTesting` function applied to the old fields.
- **`Hover`.** The hover reconciliation of `SetCustomHit` as functions: `Leaving`, `LeaveCalls`, `RemoveEach`, `EnterPhase` and `Reconcile`, with the lemmas about them.
- **`Emulation`.** The call sequences of the `Emulate*` methods and `Focus`: `PressCalls`, `MoveCalls`, `KeyCalls` and `FocusCalls`, with lemmas.
- **`VRWidget`.** The classes `GameViewport` (the custom hit-test path slot) and `VRWidgetComponent`. Their methods are loops over the widget path, proved against the `Hover` and `Emulation` functions.

Entries in a widget path compare by widget identity, as `FArrangedWidget` equality does. `TArray::Remove` removes every matching entry.

### Behaviour of the code as written

The model follows the code, including these points, where a reader might expect something else.

- **A failed or skipped trace still writes the memo key.** `GetHitResultAtScreenPositionAndCache` writes `CachedFrame` and `CachedScreenPosition` before it traces (cpp:130-131), and the trace writes into `CachedHitResult` as its out-parameter. A retry in the same frame at the same position therefore returns the cached hit's component with no new trace, even when the first trace failed or there was no controller (`RetryHitsCache`, `FailedTraceWritesKey`, `NullControllerWritesKey`).
- **`UseCustomHit` is never reset.** No member of `FWidgetVRHitTester` sets it back to false. Once `SetCustomHit` has run, every lookup returns that hit (`Lookup`, `CustomHitDominates`).
- **`GetBubblePathAndVirtualCursors` accepts any `UWidgetComponent`.** It casts the hit component (cpp:41) rather than looking it up in `RegisteredComponents`. So a live widget component that is not registered with this tester is accepted too (`AcceptedPath`).
- **A component keeps its `WidgetHitTester` after unregistering.** The slot itself holds a tester only while some component is registered with it. A new tester is made for the registering component's own world, so that component always joins it, and `OnUnregister` clears the slot when the count reaches zero. `GameViewport.Valid`, preserved by `OnRegister` and `OnUnregister`, states this. But `OnUnregister` never resets the component's own `WidgetHitTester`, so a component that has left keeps a reference to the tester after the slot drops it.

## Model

| member | source | states |
|---|---|---|
| HitTesting.Lookup | Source/VRUMGPlugin/Private/VRWidgetComponent.cpp:119-147 | The custom-hit flag never changes, and a custom hit answers without tracing. A matching frame and position answers from the cache without tracing. On any other query the key is written. With a controller there is then exactly one trace: the hit it wrote becomes the cached hit, and the answer is that hit's component if the trace found a hit, and nothing otherwise. Without a controller the answer is nothing and the old hit stays. A returned component is always the cached hit's. |
| HitTesting.SetCustom | Source/VRUMGPlugin/Private/VRWidgetComponent.cpp:149-156 | The memo key is kept, and every later lookup, for any engine state, controller and position, answers with the custom hit's component without tracing. |
| HitTesting.CustomHitDominates | Source/VRUMGPlugin/Private/VRWidgetComponent.cpp:123-126 | After `SetCustom`, every lookup in any run of queries, for any frame and position, returns the custom hit's component. The run traces nothing and the cache stays at the custom state. |
| HitTesting.CustomHitReplaces | Source/VRUMGPlugin/Private/VRWidgetComponent.cpp:149-156 | A second custom hit only replaces the stored hit. The flag and the memo key are as after the first. |
| HitTesting.RetryHitsCache | Source/VRUMGPlugin/Private/VRWidgetComponent.cpp:128-146 | With no custom hit, a second lookup in the same frame at the same position returns the component of the hit the first call cached, and traces nothing. This holds whatever the first call did. |
| HitTesting.FailedTraceWritesKey | Source/VRUMGPlugin/Private/VRWidgetComponent.cpp:128-139 | On a cache miss, a failed trace returns nothing and still writes the key. It leaves the trace's out-parameter in the cache and counts as one trace. |
| HitTesting.NullControllerWritesKey | Source/VRUMGPlugin/Private/VRWidgetComponent.cpp:128-146 | On a cache miss with no controller, the lookup returns nothing, writes the key and keeps the old hit. A retry then returns that old hit's component. |
| HitTesting.FirstQueryTraces | Source/VRUMGPlugin/Private/VRWidgetComponent.cpp:20-23 | A new tester, with frame -1, traces on its first query. |
| HitTesting.LookupRun | Source/VRUMGPlugin/Private/VRWidgetComponent.cpp:119-147 | A run of queries gives one answer per query, each starting from the cache the one before left. This length is all its own contract says; what the answers are is stated by `CustomHitDominates`. |
| HitTesting.AddUnique | Source/VRUMGPlugin/Private/VRWidgetComponent.cpp:158-161 | The result is the old members plus `x`. It is unchanged if `x` was present and otherwise extended at the end. It never introduces duplicates. |
| HitTesting.IndexOf | Source/VRUMGPlugin/Private/VRWidgetComponent.cpp:163-166 | Returns `None` exactly when `x` is absent. Otherwise it returns the first index holding `x`. |
| HitTesting.RemoveSingleSwap | Source/VRUMGPlugin/Private/VRWidgetComponent.cpp:163-166 | An absent component leaves the registry as it was. A present one shortens it by one. What exactly changes is stated by the three lemmas below. |
| HitTesting.RemoveSingleSwapRemoves | Source/VRUMGPlugin/Private/VRWidgetComponent.cpp:163-166 | On a duplicate-free registry, exactly `x` goes and all else stays. The length drops by one if `x` was present, no duplicates appear, and an absent `x` changes nothing. |
| HitTesting.RemoveSingleSwapPositions | Source/VRUMGPlugin/Private/VRWidgetComponent.cpp:163-166 | The last element moves into the freed slot, and every other slot keeps its element. |
| HitTesting.RemoveSingleSwapMultiset | Source/VRUMGPlugin/Private/VRWidgetComponent.cpp:163-166 | As a multiset, removing takes out one occurrence of `x`, even in a registry with repeats. |
| HitTesting.SwapIntoSlot | Source/VRUMGPlugin/Private/VRWidgetComponent.cpp:165 | Overwriting slot `i` with the last element and shrinking by one removes one occurrence of slot `i`'s element. |
| HitTesting.ForwardVector | Source/VRUMGPlugin/Private/VRWidgetComponent.cpp:44 | The widget's forward vector, or its up vector under legacy rotation. This is a definition, used by `FacesFront`. |
| HitTesting.FacesFront | Source/VRUMGPlugin/Private/VRWidgetComponent.cpp:47 | The front-face test as written: the forward vector and the trace direction have a negative dot product. This is a definition; `BackFaceRejected` states its effect. |
| HitTesting.WithinReach | Source/VRUMGPlugin/Private/VRWidgetComponent.cpp:50 | The reach test: squared distance from the trace start to the widget is at most the squared maximum interaction distance. This is a definition; `ReachBoundInclusive` states its effect. |
| HitTesting.AcceptedPath | Source/VRUMGPlugin/Private/VRWidgetComponent.cpp:41-55 | A non-empty path needs a resolved widget component whose hit faces the front and is within reach. |
| HitTesting.BubblePath | Source/VRUMGPlugin/Private/VRWidgetComponent.cpp:26-62 | A non-empty path needs every check to pass on the component the lookup resolved, not just on a hit left in the cache: a valid game world with player 0's controller, a widget component, the front face (`dot < 0`) and inclusive reach. When all checks pass, that component's own path is returned. The cache and traces are those of the lookup, and outside a game context nothing happens. |
| HitTesting.CustomHitIgnoresPosition | Source/VRUMGPlugin/Private/VRWidgetComponent.cpp:345 | Under a custom hit, the bubble path does not depend on the geometry or the position it is asked for. |
| HitTesting.BackFaceRejected | Source/VRUMGPlugin/Private/VRWidgetComponent.cpp:47 | A hit on the back face of the widget it names yields the empty path, whatever the distance. |
| HitTesting.ReachBoundInclusive | Source/VRUMGPlugin/Private/VRWidgetComponent.cpp:50 | For a resolved hit on the front face, a trace start at exactly the maximum interaction distance yields the component's path, and one further away yields the empty path. |
| HitTesting.FailedTraceThenRetry | Source/VRUMGPlugin/Private/VRWidgetComponent.cpp:128-146 | A failed trace yields the empty path, and the hit it wrote is cached under the new key. A second query in the same frame at the same position therefore traces nothing, resolves that written hit's component, and accepts it if that component passes the checks. |
| HitTesting.TranslateFrom | Source/VRUMGPlugin/Private/VRWidgetComponent.cpp:89-111 | A pointer comes only from a registry entry that shows the child and is the resolved hit component. The pointer's current and last positions are both the local projection of the cached hit. When the memo answers every lookup (a custom hit or a matching key), a pointer is found exactly when some entry showing the child is the cached hit's component. The search traces at most once and keeps the custom-hit flag. |
| HitTesting.TranslateTail | Source/VRUMGPlugin/Private/VRWidgetComponent.cpp:89-111 | A pointer that comes from an entry after the first one also comes from an entry of the whole registry. |
| HitTesting.TranslateOnMiss | Source/VRUMGPlugin/Private/VRWidgetComponent.cpp:89-111 | On a memo miss, a pointer is found exactly when some entry showing the child is the component of the hit the one trace wrote, and either the trace found a hit or an earlier entry shows the child too. After a failed trace, later entries are compared with the hit the trace wrote. |
| HitTesting.TranslateCursor | Source/VRUMGPlugin/Private/VRWidgetComponent.cpp:79-116 | A pointer needs a game context and a registered component that shows the child and is the cached hit's component. Both of its positions are the local projection of that hit's location. Found direction: when the memo answers, a pointer exists exactly when a registered component showing the child is the cached hit's component. On a miss, a pointer exists exactly when such a component is the written hit's, and the trace found it or an earlier component shows the child. There is at most one trace, and outside a game context there is no pointer, no trace and no change. |
| HitTesting.TranslateUnknownChild | Source/VRUMGPlugin/Private/VRWidgetComponent.cpp:93 | If no registered component shows the child, there is no pointer and no lookup. |
| HitTesting.ArrangedFor | Source/VRUMGPlugin/Private/VRWidgetComponent.cpp:64-77 | `ArrangeChildren` adds at most one child per registered component. |
| HitTesting.ArrangedForMembers | Source/VRUMGPlugin/Private/VRWidgetComponent.cpp:64-77 | An arranged child is exactly the widget and draw size of some registered, live component with a widget. |
| HitTesting.ArrangedForAllVisible | Source/VRUMGPlugin/Private/VRWidgetComponent.cpp:64-77 | If every registered component has a widget, there is one arranged child per component, in registry order. |
| HitTester.WidgetVRHitTester.constructor | Source/VRUMGPlugin/Private/VRWidgetComponent.cpp:20-23 | A new tester has the given world, an empty registry, frame -1 and no custom hit. |
| HitTester.WidgetVRHitTester.GetHitResultAtScreenPositionAndCache | Source/VRUMGPlugin/Private/VRWidgetComponent.cpp:119-147 | The answer, the new memo fields and the traces made are those of `Lookup` on the old fields: a custom hit or a matching key answers from the cache, otherwise the trace's written hit is cached, and its component is returned when the trace found a hit. The registry is unchanged. |
| HitTester.WidgetVRHitTester.SetCustomHit | Source/VRUMGPlugin/Private/VRWidgetComponent.cpp:149-156 | The flag is set and the hit stored. The memo key, registry and traces are unchanged. |
| HitTester.WidgetVRHitTester.RegisterWidgetComponent | Source/VRUMGPlugin/Private/VRWidgetComponent.cpp:158-161 | The registry becomes `AddUnique` of the old one: it contains the component and stays duplicate-free. The memo is unchanged. |
| HitTester.WidgetVRHitTester.UnregisterWidgetComponent | Source/VRUMGPlugin/Private/VRWidgetComponent.cpp:163-166 | The registry becomes `RemoveSingleSwap` of the old one: exactly the component goes, it stays duplicate-free, and the memo is unchanged. |
| HitTester.WidgetVRHitTester.GetNumRegisteredComponents | Source/VRUMGPlugin/Private/VRWidgetComponent.cpp:168 | Returns the registry's length. |
| HitTester.WidgetVRHitTester.GetWorld | Source/VRUMGPlugin/Private/VRWidgetComponent.cpp:170 | Returns the tester's world exactly while that world is alive. |
| HitTester.WidgetVRHitTester.GetBubblePathAndVirtualCursors | Source/VRUMGPlugin/Private/VRWidgetComponent.cpp:26-62 | The path, new memo fields and traces are those of `BubblePath` on the old fields. A non-empty path therefore needs the resolved component to pass every check. |
| HitTester.WidgetVRHitTester.ArrangeChildren | Source/VRUMGPlugin/Private/VRWidgetComponent.cpp:64-77 | The output is the input followed by one entry per registered, live component with a widget, in registry order. |
| HitTester.WidgetVRHitTester.TranslateMouseCoordinateFor3DChild | Source/VRUMGPlugin/Private/VRWidgetComponent.cpp:79-116 | The pointer, new memo fields and traces are those of `TranslateCursor` on the old fields, including both directions of when a pointer is found and its position at the local projection of the hit. The loop returns at the first match. |
| Hover.WidgetsOf | Source/VRUMGPlugin/Private/VRWidgetComponent.cpp:287 | Entry `i`'s widget is the `i`-th element, so `Contains` compares widgets. |
| Hover.HoldsAppend | Source/VRUMGPlugin/Private/VRWidgetComponent.cpp:310-312 | After appending an entry, the list holds a widget exactly when it held it before or the entry has it. |
| Hover.HoldsEntry | Source/VRUMGPlugin/Private/VRWidgetComponent.cpp:287 | A list holds the widget of each of its entries. |
| Hover.Leaving | Source/VRUMGPlugin/Private/VRWidgetComponent.cpp:284-291 | `WidgetsToRemove` never has more entries than the hover list. Its contents are stated by `LeavingFacts`. |
| Hover.LeavingFacts | Source/VRUMGPlugin/Private/VRWidgetComponent.cpp:284-304 | The collected `WidgetsToRemove` are exactly the hovered entries whose widget is off the new path. They hold no widget twice. |
| Hover.LeavingMembers | Source/VRUMGPlugin/Private/VRWidgetComponent.cpp:284-291 | An entry is collected for leaving exactly when it was hovered and its widget is off the path. |
| Hover.LeavingUnique | Source/VRUMGPlugin/Private/VRWidgetComponent.cpp:284-291 | If no widget is hovered twice, no widget is collected for leaving twice. |
| Hover.LeavingStep | Source/VRUMGPlugin/Private/VRWidgetComponent.cpp:285-303 | One turn of the leave loop adds entry `i`, with one leave call and the focus reset, exactly when its widget is off the path. |
| Hover.Refocus | Source/VRUMGPlugin/Private/VRWidgetComponent.cpp:293-302 | The reset is empty without an owner player or a widget. Otherwise it starts with `SetUserFocus` on the component's widget. It holds only focus and input-mode calls. |
| Hover.LeaveCalls | Source/VRUMGPlugin/Private/VRWidgetComponent.cpp:289-302 | At least one call per leaving entry, and exactly one when the reset is empty. The kinds and targets are stated by `LeaveCallsKinds` and `LeaveCallsTargets`. |
| Hover.LeaveCallsKinds | Source/VRUMGPlugin/Private/VRWidgetComponent.cpp:289-302 | The leave phase makes only leave, focus and game-only input-mode calls. |
| Hover.LeaveCallsTargets | Source/VRUMGPlugin/Private/VRWidgetComponent.cpp:290 | The leave calls address the leaving entries' widgets, in order. |
| Hover.LeaveTargetsAppend | Source/VRUMGPlugin/Private/VRWidgetComponent.cpp:290 | The widgets left over two call logs in a row are the first log's, then the second's. |
| Hover.NoLeaveTargets | Source/VRUMGPlugin/Private/VRWidgetComponent.cpp:292-302 | A log of focus and input-mode calls leaves no widget. |
| Hover.Without | Source/VRUMGPlugin/Private/VRWidgetComponent.cpp:306 | `TArray::Remove` never lengthens the list. What stays is stated by `WithoutFacts`. |
| Hover.WithoutFacts | Source/VRUMGPlugin/Private/VRWidgetComponent.cpp:306 | `Remove` drops every entry with the widget and keeps the rest, never adding a repeat. |
| Hover.RemoveEach | Source/VRUMGPlugin/Private/VRWidgetComponent.cpp:305-307 | The removal loop never lengthens the list. What stays is stated by `RemoveEachFacts`. |
| Hover.RemoveEachFacts | Source/VRUMGPlugin/Private/VRWidgetComponent.cpp:305-307 | After the removal loop, the list is the old entries whose widget is not among the removed ones. Uniqueness is kept. |
| Hover.AfterLeaving | Source/VRUMGPlugin/Private/VRWidgetComponent.cpp:284-307 | After leaving and removal, an entry remains exactly when it was hovered and its widget is on the new path. |
| Hover.EnterPhase | Source/VRUMGPlugin/Private/VRWidgetComponent.cpp:308-316 | The enter loop adds at most one entry per path entry, and makes exactly one enter call per added entry. |
| Hover.EnterPhaseFacts | Source/VRUMGPlugin/Private/VRWidgetComponent.cpp:308-316 | The enter loop keeps the existing entries in place with their stored cursors and adds only path entries. Afterwards a widget is hovered exactly when it was already or is on the path. No widget appears twice, and only enter calls are made. |
| Hover.EnterPhaseShape | Source/VRUMGPlugin/Private/VRWidgetComponent.cpp:308-316 | The enter loop keeps the hovered entries as a prefix and adds only path entries. All of its calls are enter calls. |
| Hover.EnterPhaseWidgets | Source/VRUMGPlugin/Private/VRWidgetComponent.cpp:308-316 | After the enter loop, a widget is hovered exactly when it was already or is on the path. No widget is hovered twice if none was before. |
| Hover.EnterOnce | Source/VRUMGPlugin/Private/VRWidgetComponent.cpp:308-316 | Each widget gets exactly one enter call if it is on the path and was not hovered, and none otherwise. |
| Hover.EnterTargetsAppend | Source/VRUMGPlugin/Private/VRWidgetComponent.cpp:313 | The widgets entered over two call logs in a row are the first log's, then the second's. |
| Hover.NoEnterTargets | Source/VRUMGPlugin/Private/VRWidgetComponent.cpp:289-302 | A log with no enter call enters no widget. |
| Hover.Reconcile | Source/VRUMGPlugin/Private/VRWidgetComponent.cpp:284-316 | Leave, remove, then enter. The hover list ends no longer than the old list plus the path; the lemmas below state its contents and calls. |
| Hover.ReconcileHovered | Source/VRUMGPlugin/Private/VRWidgetComponent.cpp:284-316 | Afterwards exactly the path's widgets are hovered, each once. Entries on both lists stay with their stored cursors, and every other entry comes from the path. |
| Hover.LeavingWidgets | Source/VRUMGPlugin/Private/VRWidgetComponent.cpp:287 | A widget is among the leaving entries exactly when it was hovered and is off the path. |
| Hover.ReconcileLeaveTargets | Source/VRUMGPlugin/Private/VRWidgetComponent.cpp:284-316 | Over the whole reconciliation, the leave calls go to the leaving entries' widgets, in hover order. |
| Hover.LeaveOnce | Source/VRUMGPlugin/Private/VRWidgetComponent.cpp:284-316 | With no repeated hover entries, each widget gets exactly one leave call if it was hovered and is off the path, and none otherwise. |
| Hover.EnterOnceOverall | Source/VRUMGPlugin/Private/VRWidgetComponent.cpp:284-316 | Over the whole reconciliation, each widget gets exactly one enter call if it is on the path and was not hovered, and none otherwise. |
| Hover.LeavesBeforeEnters | Source/VRUMGPlugin/Private/VRWidgetComponent.cpp:284-316 | Every leave and reset call comes before every enter call. |
| Hover.HoverDiffExample | Source/VRUMGPlugin/Private/VRWidgetComponent.cpp:284-316 | With A and B hovered and a new path of B' and C: A is left once, C is entered once, B gets nothing and keeps its cursor, and the list becomes B, C. |
| Hover.ExampleLeave | Source/VRUMGPlugin/Private/VRWidgetComponent.cpp:284-291 | In that example only A is collected for leaving, since B's widget is on the path. |
| Hover.ExampleRemove | Source/VRUMGPlugin/Private/VRWidgetComponent.cpp:305-307 | In that example, removing A from the hover list A, B leaves B. |
| Hover.ExampleEnter | Source/VRUMGPlugin/Private/VRWidgetComponent.cpp:308-316 | In that example the enter loop over B', C adds only C and makes its one enter call. B keeps its stored cursor. |
| Hover.DistinctCount | Source/VRUMGPlugin/Private/VRWidgetComponent.cpp:306 | In a list without repeats, a widget occurs once if at all. |
| Emulation.PressCalls | Source/VRUMGPlugin/Private/VRWidgetComponent.cpp:338-347 | There are two calls per path entry. Under a custom hit, the tester's cache is untouched and nothing is traced. |
| Emulation.PressCallsStep | Source/VRUMGPlugin/Private/VRWidgetComponent.cpp:338-347 | Unfolds touch down or up over a path into the first entry's two calls and then the rest, taken from the cache the first bubble-path query left. |
| Emulation.PressCallsSnoc | Source/VRUMGPlugin/Private/VRWidgetComponent.cpp:338-347 | Adding one entry to the path appends its button call and `ProcessReply` to the calls for the rest. They are computed from the cache the rest left. |
| Emulation.PressCallsShape | Source/VRUMGPlugin/Private/VRWidgetComponent.cpp:338-347 | Calls `2k` and `2k+1` are entry `k`'s button call and its `ProcessReply`. The button call carries the entry's own cursor and the button flag, down or up as asked. The reply is the widget's, processed against the bubble path queried with a default geometry and the position `FVector2D()`, modelled as (0, 0). |
| Emulation.PressUnderCustomHit | Source/VRUMGPlugin/Private/VRWidgetComponent.cpp:345 | Under a custom hit, every reply is processed against the one path the custom hit resolves to. |
| Emulation.PressTargets | Source/VRUMGPlugin/Private/VRWidgetComponent.cpp:338-347 | Touch down and up address the path's widgets, each once and in path order. |
| Emulation.TouchDownUpSymmetry | Source/VRUMGPlugin/Private/VRWidgetComponent.cpp:333-368 | A touch down then up on the same path sends down and then up to the same widgets, in the same order. |
| Emulation.MoveCallsShape | Source/VRUMGPlugin/Private/VRWidgetComponent.cpp:375-379 | Each entry, in order, gets one move call with its own geometry and cursor and the button flag. |
| Emulation.MoveCalls | Source/VRUMGPlugin/Private/VRWidgetComponent.cpp:375-379 | Touch move makes exactly one call per path entry. This is a length only; the calls themselves are stated by `MoveCallsShape`. |
| Emulation.KeyCallsShape | Source/VRUMGPlugin/Private/VRWidgetComponent.cpp:388-405 | Each entry, in order, gets one Enter key call with no modifiers, down or up as asked. |
| Emulation.KeyCalls | Source/VRUMGPlugin/Private/VRWidgetComponent.cpp:388-405 | An activate key event makes exactly one call per path entry. This is a length only; the calls themselves are stated by `KeyCallsShape`. |
| Emulation.FocusCalls | Source/VRUMGPlugin/Private/VRWidgetComponent.cpp:321-331 | Exactly one `SetUserFocus` to the controller's local player for the component's widget when all three exist. Otherwise nothing. |
| Engine.TouchEvent | Source/VRUMGPlugin/Private/VRWidgetComponent.cpp:341 | The pointer event built for an entry: user 0, pointer 0, the entry's current and last cursor positions and the button flag (cpp:289, 313, 341, 360, 378). |
| VRWidget.GameViewport.constructor | Source/VRUMGPlugin/Private/VRWidgetComponent.cpp:197 | A viewport starts with an empty custom hit-test path slot, which satisfies the slot invariant: a tester in the slot has a non-empty, duplicate-free registry. |
| VRWidget.VRWidgetComponent.constructor | Source/VRUMGPlugin/Public/VRWidgetComponent.h:53-58 | A component starts with no tester, nothing hovered and no calls made. |
| VRWidget.VRWidgetComponent.OwnerPlayer | Source/VRUMGPlugin/Private/VRWidgetComponent.cpp:293 | There is an owner player exactly when the engine reports one for the component. |
| VRWidget.VRWidgetComponent.HitWidgetPath | Source/VRUMGPlugin/Private/VRWidgetComponent.cpp:281 | The widget path at the hit's world location, with enabled state honoured and cursor radius 1.0. This is the engine query every input method starts from (cpp:281, 335, 354, 372, 385, 398). |
| VRWidget.VRWidgetComponent.OnRegister | Source/VRUMGPlugin/Private/VRWidgetComponent.cpp:189-210 | A screen-space component, a non-game world or a missing viewport changes nothing. Otherwise the slot keeps its tester unchanged, or gets a new one for this world with an initial memo. The component registers with the tester (`AddUnique`) and keeps a reference to it exactly when the tester's world is its own. A new tester therefore always holds exactly this component. |
| VRWidget.VRWidgetComponent.JoinSlot | Source/VRUMGPlugin/Private/VRWidgetComponent.cpp:197-209 | The world-space branch of `OnRegister`, with the same guarantees on the slot, the registry and the component's tester reference. |
| VRWidget.VRWidgetComponent.SlotTester | Source/VRUMGPlugin/Private/VRWidgetComponent.cpp:197-202 | A filled slot keeps its tester. An empty one gets a new tester for the component's world, with an empty registry and an initial memo. |
| VRWidget.VRWidgetComponent.OnUnregister | Source/VRUMGPlugin/Private/VRWidgetComponent.cpp:237-255 | In a game world with a filled slot, the tester's registry becomes `RemoveSingleSwap` of the old one without the component. The memo is untouched, and the slot is cleared exactly when the registry is then empty. Otherwise nothing changes. The component keeps its own tester reference in every case. |
| VRWidget.VRWidgetComponent.GetLocalHit | Source/VRUMGPlugin/Private/VRWidgetComponent.cpp:267-270 | Returns the engine's local projection of the world location onto this widget. |
| VRWidget.VRWidgetComponent.SetCustomHit | Source/VRUMGPlugin/Private/VRWidgetComponent.cpp:273-319 | The tester gets `SetCustom` exactly when the component has a widget, and is otherwise untouched. With hover simulation on and a valid grid, the hover list and calls are those of `Reconcile` on the path at the hit. Otherwise nothing is hovered or called. The hover list stays free of repeats. |
| VRWidget.VRWidgetComponent.SimulateHover | Source/VRUMGPlugin/Private/VRWidgetComponent.cpp:284-316 | The new hover list and the calls are `Reconcile` of the old list against the path. |
| VRWidget.VRWidgetComponent.LeaveHovered | Source/VRUMGPlugin/Private/VRWidgetComponent.cpp:284-304 | Returns `Leaving` of the hover list. The calls are the leave calls, each followed by the focus reset, and the hover list itself is unchanged. |
| VRWidget.VRWidgetComponent.LeaveStep | Source/VRUMGPlugin/Private/VRWidgetComponent.cpp:287-303 | One turn of the leave loop extends the collected entries and the call log from the first `i` entries to the first `i+1`. |
| VRWidget.VRWidgetComponent.LeaveEntry | Source/VRUMGPlugin/Private/VRWidgetComponent.cpp:289-302 | One leave call from the entry's stored cursor, not pressed, then the focus reset. |
| VRWidget.VRWidgetComponent.RecaptureFocus | Source/VRUMGPlugin/Private/VRWidgetComponent.cpp:293-302 | Appends the focus and game-only input-mode calls of `Refocus`. |
| VRWidget.VRWidgetComponent.RemoveHovered | Source/VRUMGPlugin/Private/VRWidgetComponent.cpp:305-307 | The hover list becomes `RemoveEach` of the old one, still free of repeats, and no call is made. |
| VRWidget.VRWidgetComponent.EnterHovered | Source/VRUMGPlugin/Private/VRWidgetComponent.cpp:308-316 | The hover list and calls are `EnterPhase` of the old list against the path, still free of repeats. |
| VRWidget.VRWidgetComponent.Focus | Source/VRUMGPlugin/Private/VRWidgetComponent.cpp:321-331 | Appends `FocusCalls`: one focus call when the controller, its local player and the widget exist. |
| VRWidget.VRWidgetComponent.DispatchPresses | Source/VRUMGPlugin/Private/VRWidgetComponent.cpp:338-347 | The calls, the tester's memo and its traces are those of `PressCalls` from the tester's old memo. The registry is unchanged. |
| VRWidget.VRWidgetComponent.PressEntry | Source/VRUMGPlugin/Private/VRWidgetComponent.cpp:340-346 | One button call with the entry's cursor, then `ProcessReply` with the widget's reply against the tester's bubble path, queried with a default geometry and the position `FVector2D()`, modelled as (0, 0). The memo moves as that query moves it. |
| VRWidget.VRWidgetComponent.EmulateTouchDown | Source/VRUMGPlugin/Private/VRWidgetComponent.cpp:333-349 | With a valid grid, the calls and the tester's memo and traces are `PressCalls` with button down over the path at the hit. Otherwise nothing is called and the tester is untouched. |
| VRWidget.VRWidgetComponent.EmulateTouchUp | Source/VRUMGPlugin/Private/VRWidgetComponent.cpp:352-368 | As touch down, with button up. |
| VRWidget.VRWidgetComponent.EmulateTouchMove | Source/VRUMGPlugin/Private/VRWidgetComponent.cpp:370-381 | With a valid grid, appends `MoveCalls` over the path at the hit. Otherwise nothing. |
| VRWidget.VRWidgetComponent.DispatchKeys | Source/VRUMGPlugin/Private/VRWidgetComponent.cpp:388-392 | Appends `KeyCalls` over the path. |
| VRWidget.VRWidgetComponent.EmulateActivateKeyDown | Source/VRUMGPlugin/Private/VRWidgetComponent.cpp:383-394 | With a valid grid, appends one Enter key-down call per entry of the path at the hit. Otherwise nothing. |
| VRWidget.VRWidgetComponent.EmulateActivateKeyUp | Source/VRUMGPlugin/Private/VRWidgetComponent.cpp:396-407 | With a valid grid, appends one Enter key-up call per entry of the path at the hit. Otherwise nothing. |

## Left out

- **The rest of `OnRegister` and `OnUnregister`.** This is the material instance, the widget renderer, `BodySetup`, `InitWidget` and the editor-only `ReleaseResources` (cpp:213-229, 257-262). It is engine resource setup with no bearing on hit testing. The calls to `Super::Super::OnRegister` and `OnUnregister` are also engine lifecycle.
- **Build and environment guards.** The `UE_SERVER` and dedicated-server guards, `GUsingNullRHI` and the cycle-stat counters are build or environment flags. `OnRegister` is modelled for a client build.
- **The engine's queries.** The trace, `GetHitWidgetPath`, `GetLocalHitLocation`, `AbsoluteToLocal`, widget replies, the frame counter and world validity are inputs in `Env`. Their behaviour is not modelled.
- **`Env` is fixed for the whole of one call.** Every engine query answers the same way throughout a call. The engine's `GetHitWidgetPath` actually also updates the component's `LastLocalHitLocation`, which is not modelled. `PressUnderCustomHit`'s "one path for every reply" rests on this.
- **`FArrangedChildren::AddWidget`'s visibility filter.** `ArrangeChildren` here adds every registered, live component that has a widget. The engine's filter on the widget's visibility, which can drop a child, is not modelled.
- **Slate's side effects.** Mouse, key and focus events, `ProcessReply` and `SetInputMode` are logged calls; what Slate does with them is not modelled. `FWidgetPath` construction is taken to be the bubble path itself.
- **Floating point.** Vectors have integer coordinates, so the front-face and reach tests use exact arithmetic, without float rounding.
- **Integer widths.** `GFrameNumber` wrap-around, the `int64` `CachedFrame` and the `uint32` count are unbounded integers here. Frame -1 is taken never to be a current frame number.
- PressCalls and PressEntry: the position `FVector2D()` that touch down and up pass to `GetBubblePathAndVirtualCursors` (cpp:345, 364) is uninitialised in the engine. The model takes it as (0, 0) and the geometry as one fixed default. Without a custom hit, the trace position, the memo comparisons and hence the path each reply is processed against depend on a value the source leaves undefined. Only under a custom hit is the result independent of it (`CustomHitIgnoresPosition`, `PressUnderCustomHit`).
- **`CachedScreenPosition` starts at (0, 0).** The source leaves it uninitialised; since frame -1 never matches, its initial value is never read.
- **Stale weak pointers.** A component destroyed without unregistering is modelled as absent from the engine's live widget components. The tester's world is valid exactly while it is in `Env`'s live worlds.
- **`StaticCastSharedPtr`.** The viewport slot is typed as holding a `WidgetVRHitTester`. A custom hit-test path of another type is not modelled.
- **The forward-vector choice.** The rule "up vector under legacy rotation" is read from the engine's widget data; the engine's rotation maths is not modelled.
- **Null `PointerPosition`.** Every widget-path entry is taken to carry a pointer position; the source dereferences it unguarded.
- VRWidget.VRWidgetComponent.SetCustomHit: requires a tester whenever the component has a widget, because the source then dereferences `WidgetHitTester` without a check. When registration was skipped, that dereference crashes; the model does not cover that case.
- VRWidget.VRWidgetComponent.EmulateTouchDown: requires a tester when the grid is valid and the path non-empty, for the same unchecked dereference (cpp:345). `EmulateTouchUp` likewise (cpp:364).
- VRWidget.VRWidgetComponent.OnRegister: requires the component's world to be alive, as `GetWorld()->IsGameWorld()` dereferences it.
