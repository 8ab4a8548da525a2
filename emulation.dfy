/** The calls the `Emulate*` methods of `UVRWidgetComponent` make for a widget
    path, on values. Touch down and up also query the shared hit tester once
    per entry for the path handed to `ProcessReply`, so they thread its cache. */
module Emulation {
  import opened Engine
  import opened HitTesting
  import opened Hover

  /** The button call for one entry: its own cursor and the button flag. */
  function ButtonCall(e: WidgetAndPointer, down: bool, pressed: bool): SlateCall {
    if down then MouseButtonDown(e.widget, e.geometry, TouchEvent(e, pressed))
    else MouseButtonUp(e.widget, e.geometry, TouchEvent(e, pressed))
  }

  /** Touch down (`down`) or touch up over `path`: per entry the button call,
      then `ProcessReply` with the widget's reply and the path the tester for
      `world` returns for the empty geometry and position. */
  function PressCalls(path: seq<WidgetAndPointer>, down: bool, pressed: bool, world: WorldId,
                      c: CacheState, env: Env): (r: Step<seq<SlateCall>>)
    ensures |r.value| == 2 * |path|
    // with a custom hit the tester's state is left alone and nothing is traced
    ensures c.useCustomHit ==> r.cache == c && r.traces == []
    decreases |path|
  {
    if path == [] then Step(c, [], [])
    else
      var e := path[0];
      var event := TouchEvent(e, pressed);
      var reply := env.buttonReply(e.widget, e.geometry, down, event);
      var bubble := BubblePath(world, c, env, DefaultGeometry, ZeroVec2, false);
      var rest := PressCalls(path[1..], down, pressed, world, bubble.cache, env);
      Step(rest.cache, [ButtonCall(e, down, pressed), ProcessReply(bubble.value, reply, event)] + rest.value,
           bubble.traces + rest.traces)
  }

  /** One step of `PressCalls`: the first entry's two calls, then the rest
      from the cache the first bubble-path query left. */
  lemma PressCallsStep(path: seq<WidgetAndPointer>, down: bool, pressed: bool, world: WorldId, c: CacheState, env: Env)
    requires path != []
    ensures var bubble := BubblePath(world, c, env, DefaultGeometry, ZeroVec2, false);
            var rest := PressCalls(path[1..], down, pressed, world, bubble.cache, env);
            var event := TouchEvent(path[0], pressed);
            PressCalls(path, down, pressed, world, c, env) ==
              Step(rest.cache, [ButtonCall(path[0], down, pressed), ProcessReply(bubble.value, env.buttonReply(path[0].widget, path[0].geometry, down, event), event)] + rest.value,
                   bubble.traces + rest.traces)
  {
  }

  /** Touch down or up over `path + [e]` is the calls over `path`, then the
      two calls for `e` with the bubble path queried from the cache `path` left. */
  lemma {:induction false} PressCallsSnoc(path: seq<WidgetAndPointer>, e: WidgetAndPointer, down: bool, pressed: bool,
                                          world: WorldId, c: CacheState, env: Env)
    ensures var a := PressCalls(path, down, pressed, world, c, env);
            var bubble := BubblePath(world, a.cache, env, DefaultGeometry, ZeroVec2, false);
            var event := TouchEvent(e, pressed);
            PressCalls(path + [e], down, pressed, world, c, env) ==
              Step(bubble.cache, a.value + [ButtonCall(e, down, pressed), ProcessReply(bubble.value, env.buttonReply(e.widget, e.geometry, down, event), event)],
                   a.traces + bubble.traces)
    decreases |path|
  {
    if path == [] {
      assert path + [e] == [e] && [e][1..] == [];
      PressCallsStep([e], down, pressed, world, c, env);
      var bubble := BubblePath(world, c, env, DefaultGeometry, ZeroVec2, false);
      var event := TouchEvent(e, pressed);
      var two := [ButtonCall(e, down, pressed), ProcessReply(bubble.value, env.buttonReply(e.widget, e.geometry, down, event), event)];
      assert two + [] == two == [] + two;
      assert bubble.traces + [] == bubble.traces == [] + bubble.traces;
    } else {
      var bubble0 := BubblePath(world, c, env, DefaultGeometry, ZeroVec2, false);
      assert (path + [e])[0] == path[0];
      assert (path + [e])[1..] == path[1..] + [e];
      PressCallsSnoc(path[1..], e, down, pressed, world, bubble0.cache, env);
      PressCallsStep(path, down, pressed, world, c, env);
      PressCallsStep(path + [e], down, pressed, world, c, env);
      var a := PressCalls(path, down, pressed, world, c, env);
      var rest := PressCalls(path[1..], down, pressed, world, bubble0.cache, env);
      var first := a.value[..2];
      assert a.value == first + rest.value;
      var bubble := BubblePath(world, a.cache, env, DefaultGeometry, ZeroVec2, false);
      var event := TouchEvent(e, pressed);
      var last := [ButtonCall(e, down, pressed), ProcessReply(bubble.value, env.buttonReply(e.widget, e.geometry, down, event), event)];
      assert first + (rest.value + last) == a.value + last;
      assert bubble0.traces + (rest.traces + bubble.traces) == a.traces + bubble.traces;
    }
  }

  /** Calls `2k` and `2k + 1` are entry `k`'s button call and the
      `ProcessReply` of its reply and event. */
  predicate PressedAt(calls: seq<SlateCall>, path: seq<WidgetAndPointer>, k: nat, down: bool, pressed: bool, env: Env)
    requires k < |path| && |calls| == 2 * |path|
  {
    calls[2 * k] == ButtonCall(path[k], down, pressed) &&
    calls[2 * k + 1].ProcessReply? &&
    calls[2 * k + 1].reply == env.buttonReply(path[k].widget, path[k].geometry, down, TouchEvent(path[k], pressed)) &&
    calls[2 * k + 1].event == TouchEvent(path[k], pressed)
  }

  /** Each entry, in path order, gets its button call, carrying its cursor and
      the button flag, followed by one `ProcessReply` with that call's reply
      and event. */
  lemma {:induction false} PressCallsShape(path: seq<WidgetAndPointer>, down: bool, pressed: bool, world: WorldId,
                                           c: CacheState, env: Env)
    ensures forall k :: 0 <= k < |path| ==> PressedAt(PressCalls(path, down, pressed, world, c, env).value, path, k, down, pressed, env)
    decreases |path|
  {
    if path != [] {
      var bubble := BubblePath(world, c, env, DefaultGeometry, ZeroVec2, false);
      var r := PressCalls(path, down, pressed, world, c, env);
      var rest := PressCalls(path[1..], down, pressed, world, bubble.cache, env);
      assert r.value == [ButtonCall(path[0], down, pressed),
                         ProcessReply(bubble.value, env.buttonReply(path[0].widget, path[0].geometry, down, TouchEvent(path[0], pressed)),
                                      TouchEvent(path[0], pressed))] + rest.value;
      PressCallsShape(path[1..], down, pressed, world, bubble.cache, env);
      forall k | 0 <= k < |path|
        ensures PressedAt(r.value, path, k, down, pressed, env)
      {
        if k > 0 {
          assert PressedAt(rest.value, path[1..], k - 1, down, pressed, env);
          assert r.value[2 * k] == rest.value[2 * (k - 1)] && r.value[2 * k + 1] == rest.value[2 * (k - 1) + 1];
          assert path[k] == path[1..][k - 1];
        }
      }
    }
  }

  /** Under a custom hit, every reply is processed against the one path the
      custom hit resolves to. */
  lemma {:induction false} PressUnderCustomHit(path: seq<WidgetAndPointer>, down: bool, pressed: bool, world: WorldId,
                                               c: CacheState, env: Env)
    requires c.useCustomHit
    ensures var r := PressCalls(path, down, pressed, world, c, env);
            forall k :: 0 <= k < |path| ==>
              r.value[2 * k + 1] == ProcessReply(BubblePath(world, c, env, DefaultGeometry, ZeroVec2, false).value,
                                                 env.buttonReply(path[k].widget, path[k].geometry, down, TouchEvent(path[k], pressed)),
                                                 TouchEvent(path[k], pressed))
    decreases |path|
  {
    if path != [] {
      var bubble := BubblePath(world, c, env, DefaultGeometry, ZeroVec2, false);
      assert bubble.cache == c;
      var r := PressCalls(path, down, pressed, world, c, env);
      var rest := PressCalls(path[1..], down, pressed, world, c, env);
      assert r.value == [ButtonCall(path[0], down, pressed),
                         ProcessReply(bubble.value, env.buttonReply(path[0].widget, path[0].geometry, down, TouchEvent(path[0], pressed)),
                                      TouchEvent(path[0], pressed))] + rest.value;
      PressUnderCustomHit(path[1..], down, pressed, world, c, env);
      forall k | 1 <= k < |path|
        ensures r.value[2 * k + 1] == rest.value[2 * (k - 1) + 1]
        ensures path[k] == path[1..][k - 1]
      {
      }
    }
  }

  /** The widgets that receive a button call, in order. */
  function ButtonTargets(calls: seq<SlateCall>): seq<WidgetId>
    decreases |calls|
  {
    if calls == [] then []
    else (if calls[0].MouseButtonDown? || calls[0].MouseButtonUp? then [calls[0].widget] else [])
         + ButtonTargets(calls[1..])
  }

  /** Touch down and touch up address the path's widgets, each once and in
      path order, whatever state the tester is in. */
  lemma {:induction false} PressTargets(path: seq<WidgetAndPointer>, down: bool, pressed: bool, world: WorldId,
                                        c: CacheState, env: Env)
    ensures ButtonTargets(PressCalls(path, down, pressed, world, c, env).value) == WidgetsOf(path)
    decreases |path|
  {
    if path != [] {
      var bubble := BubblePath(world, c, env, DefaultGeometry, ZeroVec2, false);
      var e := path[0];
      var rest := PressCalls(path[1..], down, pressed, world, bubble.cache, env);
      PressTargets(path[1..], down, pressed, world, bubble.cache, env);
      var calls := [ButtonCall(e, down, pressed), ProcessReply(bubble.value, env.buttonReply(e.widget, e.geometry, down, TouchEvent(e, pressed)), TouchEvent(e, pressed))] + rest.value;
      assert calls[1..][1..] == rest.value;
      assert WidgetsOf(path) == [e.widget] + WidgetsOf(path[1..]);
    }
  }

  /** A touch down followed by a touch up at the same hit sends down then up
      to the same widgets in the same order, each exactly once. */
  lemma TouchDownUpSymmetry(path: seq<WidgetAndPointer>, pressed: bool, world: WorldId, c: CacheState, env: Env)
    ensures var downCalls := PressCalls(path, true, pressed, world, c, env);
            var upCalls := PressCalls(path, false, pressed, world, downCalls.cache, env);
            ButtonTargets(downCalls.value) == WidgetsOf(path) == ButtonTargets(upCalls.value) &&
            (forall k :: 0 <= k < |path| ==>
               downCalls.value[2 * k].MouseButtonDown? && upCalls.value[2 * k].MouseButtonUp?)
  {
    var downCalls := PressCalls(path, true, pressed, world, c, env);
    PressTargets(path, true, pressed, world, c, env);
    PressTargets(path, false, pressed, world, downCalls.cache, env);
    PressCallsShape(path, true, pressed, world, c, env);
    PressCallsShape(path, false, pressed, world, downCalls.cache, env);
    var upCalls := PressCalls(path, false, pressed, world, downCalls.cache, env);
    forall k | 0 <= k < |path|
      ensures downCalls.value[2 * k].MouseButtonDown? && upCalls.value[2 * k].MouseButtonUp?
    {
      assert PressedAt(downCalls.value, path, k, true, pressed, env);
      assert PressedAt(upCalls.value, path, k, false, pressed, env);
    }
  }

  /** Touch move: one move call per entry, in path order. */
  function MoveCalls(path: seq<WidgetAndPointer>, pressed: bool): (r: seq<SlateCall>)
    ensures |r| == |path|
    decreases |path|
  {
    if path == [] then []
    else
      var last := path[|path| - 1];
      MoveCalls(path[..|path| - 1], pressed) + [MouseMove(last.widget, last.geometry, TouchEvent(last, pressed))]
  }

  /** Each entry gets its move call with its own cursor and the button flag. */
  lemma {:induction false} MoveCallsShape(path: seq<WidgetAndPointer>, pressed: bool)
    ensures forall k :: 0 <= k < |path| ==>
              MoveCalls(path, pressed)[k] == MouseMove(path[k].widget, path[k].geometry, TouchEvent(path[k], pressed))
    decreases |path|
  {
    if path != [] {
      var init := path[..|path| - 1];
      MoveCallsShape(init, pressed);
      assert forall k :: 0 <= k < |init| ==> init[k] == path[k];
    }
  }

  /** Activate key down (`down`) or up: one key call per entry, in path order. */
  function KeyCalls(path: seq<WidgetAndPointer>, down: bool): (r: seq<SlateCall>)
    ensures |r| == |path|
    decreases |path|
  {
    if path == [] then []
    else
      var last := path[|path| - 1];
      KeyCalls(path[..|path| - 1], down) +
      [if down then KeyDown(last.widget, last.geometry, ActivateKeyEvent) else KeyUp(last.widget, last.geometry, ActivateKeyEvent)]
  }

  /** Each entry gets one Enter key call without modifiers, down or up as asked. */
  lemma {:induction false} KeyCallsShape(path: seq<WidgetAndPointer>, down: bool)
    ensures var r := KeyCalls(path, down);
            forall k :: 0 <= k < |path| ==>
              r[k] == (if down then KeyDown(path[k].widget, path[k].geometry, ActivateKeyEvent)
                       else KeyUp(path[k].widget, path[k].geometry, ActivateKeyEvent)) &&
              r[k].keyEvent.key == Enter && r[k].keyEvent.modifiers == NoModifiers
    decreases |path|
  {
    if path != [] {
      var init := path[..|path| - 1];
      KeyCallsShape(init, down);
      assert forall k :: 0 <= k < |init| ==> init[k] == path[k];
    }
  }

  /** `Focus`: focus goes to the component's widget for the controller's local
      player, when the controller, its local player and the widget all exist. */
  function FocusCalls(pc: Option<PlayerController>, slate: Option<WidgetId>): (r: seq<SlateCall>)
    ensures |r| <= 1
    ensures r != [] <==> pc.Some? && pc.value.localPlayer.Some? && slate.Some?
    ensures r != [] ==> r[0] == SetUserFocus(pc.value.localPlayer.value, slate.value)
  {
    match pc
    case None => []
    case Some(c) =>
      if c.localPlayer.Some? && slate.Some? then [SetUserFocus(c.localPlayer.value, slate.value)] else []
  }
}
