/** The hit tester's behaviour on values: the frame/position memo with its
    sticky custom-hit override, the component registry, the front-face and
    reach rule, and the two queries Slate makes of a custom hit-test path.
    The class in module HitTester keeps its fields equal to these. */
module HitTesting {
  import opened Engine

  // ---------------------------------------------------------------------
  // The memo

  /** `CachedFrame`, `CachedScreenPosition`, `CachedHitResult`, `UseCustomHit`. */
  datatype CacheState = CacheState(
    frame: int,
    screenPosition: Vec2,
    hit: HitResult,
    useCustomHit: bool)

  /** The state a new tester starts in: frame -1 matches no frame number. */
  const InitialCache := CacheState(-1, ZeroVec2, EmptyHit, false)

  /** One call of the engine's screen-position trace. */
  datatype TraceCall = TraceCall(controller: ControllerId, screenPosition: Vec2)

  /** The cache after a query, the query's answer, and the traces it made. */
  datatype Step<T> = Step(cache: CacheState, value: T, traces: seq<TraceCall>)

  /** The memo's key is the current frame and this screen position. */
  predicate KeyMatches(c: CacheState, env: Env, pos: Vec2) {
    c.frame == env.frameNumber && c.screenPosition == pos
  }

  /** `GetHitResultAtScreenPositionAndCache`. */
  function Lookup(c: CacheState, env: Env, controller: Option<ControllerId>, pos: Vec2): (r: Step<Option<CompId>>)
    // the custom-hit flag is never cleared
    ensures r.cache.useCustomHit == c.useCustomHit
    // a custom hit answers every query, whatever the frame and position
    ensures c.useCustomHit ==> r == Step(c, c.hit.component, [])
    // a matching key answers from the cache without tracing
    ensures KeyMatches(c, env, pos) ==> r == Step(c, c.hit.component, [])
    // otherwise the key is written, whether or not a trace follows or succeeds
    ensures !c.useCustomHit ==> KeyMatches(r.cache, env, pos)
    // and exactly one trace is made when there is a controller
    ensures !c.useCustomHit && !KeyMatches(c, env, pos) ==>
              r.traces == (if controller.Some? then [TraceCall(controller.value, pos)] else [])
    // a miss with a controller answers with the trace: the component of the
    // hit it wrote when it found one, nothing when it did not
    ensures !c.useCustomHit && !KeyMatches(c, env, pos) && controller.Some? ==>
              var t := env.trace(controller.value, pos, c.hit);
              r.cache.hit == t.written && r.value == (if t.found then t.written.component else None)
    // a miss without a controller answers nothing and keeps the old hit
    ensures !c.useCustomHit && !KeyMatches(c, env, pos) && controller.None? ==>
              r.cache.hit == c.hit && r.value == None
    // a component, once returned, is the cached hit's
    ensures r.value.Some? ==> r.value == r.cache.hit.component
  {
    if c.useCustomHit then
      Step(c, c.hit.component, [])
    else if env.frameNumber != c.frame || c.screenPosition != pos then
      var keyed := c.(frame := env.frameNumber, screenPosition := pos);
      match controller
      case None => Step(keyed, None, [])
      case Some(pc) =>
        var outcome := env.trace(pc, pos, c.hit);
        Step(keyed.(hit := outcome.written),
             if outcome.found then outcome.written.component else None,
             [TraceCall(pc, pos)])
    else
      Step(c, c.hit.component, [])
  }

  /** The tester's `SetCustomHit`. */
  function SetCustom(c: CacheState, h: HitResult): (r: CacheState)
    // the memo key is kept
    ensures r.frame == c.frame && r.screenPosition == c.screenPosition
    // every later lookup answers with `h`'s component, without tracing
    ensures forall env, controller, pos :: Lookup(r, env, controller, pos) == Step(r, h.component, [])
  {
    c.(useCustomHit := true, hit := h)
  }

  /** One lookup request: the engine at that moment, the controller and the position. */
  datatype Query = Query(env: Env, controller: Option<ControllerId>, screenPosition: Vec2)

  /** A sequence of lookups, each starting from the cache the previous left. */
  function LookupRun(c: CacheState, qs: seq<Query>): (r: Step<seq<Option<CompId>>>)
    ensures |r.value| == |qs|
    decreases |qs|
  {
    if qs == [] then Step(c, [], [])
    else
      var s := Lookup(c, qs[0].env, qs[0].controller, qs[0].screenPosition);
      var rest := LookupRun(s.cache, qs[1..]);
      Step(rest.cache, [s.value] + rest.value, s.traces + rest.traces)
  }

  /** Once a custom hit is installed, every later lookup, for any frame and
      any position, returns its component and traces nothing; the flag stays set. */
  lemma {:induction false} CustomHitDominates(c: CacheState, h: HitResult, qs: seq<Query>)
    ensures var r := LookupRun(SetCustom(c, h), qs);
            r.cache == SetCustom(c, h) && r.traces == [] &&
            forall i :: 0 <= i < |qs| ==> r.value[i] == h.component
    decreases |qs|
  {
    if qs != [] {
      CustomHitDominates(c, h, qs[1..]);
    }
  }

  /** A later custom hit replaces the stored hit and nothing else. */
  lemma CustomHitReplaces(c: CacheState, h1: HitResult, h2: HitResult)
    ensures SetCustom(SetCustom(c, h1), h2) == SetCustom(c, h2)
    ensures SetCustom(SetCustom(c, h1), h2).frame == c.frame
    ensures SetCustom(SetCustom(c, h1), h2).screenPosition == c.screenPosition
  {
  }

  /** Without a custom hit, asking again in the same frame at the same
      position returns the component of whatever hit the first call left in the
      cache, and does not trace, even when the first call traced and failed or
      had no controller. */
  lemma RetryHitsCache(c: CacheState, env: Env, env': Env, controller: Option<ControllerId>,
                       controller': Option<ControllerId>, pos: Vec2)
    requires !c.useCustomHit
    requires env'.frameNumber == env.frameNumber
    ensures var first := Lookup(c, env, controller, pos);
            var second := Lookup(first.cache, env', controller', pos);
            second == Step(first.cache, first.cache.hit.component, [])
  {
  }

  /** A failed trace returns nothing but still writes the key, and leaves in
      the cache whatever the trace wrote into its out-parameter. */
  lemma FailedTraceWritesKey(c: CacheState, env: Env, pc: ControllerId, pos: Vec2)
    requires !c.useCustomHit && !KeyMatches(c, env, pos)
    requires !env.trace(pc, pos, c.hit).found
    ensures var r := Lookup(c, env, Some(pc), pos);
            r.value == None && KeyMatches(r.cache, env, pos) &&
            r.cache.hit == env.trace(pc, pos, c.hit).written &&
            r.traces == [TraceCall(pc, pos)]
  {
  }

  /** With no controller the lookup returns nothing and writes the key, so a
      retry returns the component of the hit cached before. */
  lemma NullControllerWritesKey(c: CacheState, env: Env, pos: Vec2)
    requires !c.useCustomHit && !KeyMatches(c, env, pos)
    ensures var r := Lookup(c, env, None, pos);
            r.value == None && r.traces == [] && KeyMatches(r.cache, env, pos) &&
            r.cache.hit == c.hit &&
            Lookup(r.cache, env, None, pos).value == c.hit.component
  {
  }

  /** A fresh tester traces on its first query: frame -1 is no frame number. */
  lemma FirstQueryTraces(env: Env, pc: ControllerId, pos: Vec2)
    ensures Lookup(InitialCache, env, Some(pc), pos).traces == [TraceCall(pc, pos)]
  {
  }

  // ---------------------------------------------------------------------
  // The registry

  predicate NoDup(s: seq<CompId>) {
    forall i, j :: 0 <= i < j < |s| ==> s[i] != s[j]
  }

  /** `TArray::AddUnique`. */
  function AddUnique(s: seq<CompId>, x: CompId): (r: seq<CompId>)
    ensures forall y :: y in r <==> y in s || y == x
    ensures x in s ==> r == s
    ensures x !in s ==> |r| == |s| + 1 && r[..|s|] == s
    ensures NoDup(s) ==> NoDup(r)
  {
    if x in s then s else s + [x]
  }

  /** `TArray::Find`: the first index holding `x`. */
  function IndexOf(s: seq<CompId>, x: CompId): (r: Option<nat>)
    ensures r.None? <==> x !in s
    ensures r.Some? ==> r.value < |s| && s[r.value] == x && x !in s[..r.value]
    decreases |s|
  {
    if s == [] then None
    else if s[0] == x then Some(0)
    else match IndexOf(s[1..], x)
      case None => None
      case Some(i) =>
        assert s[1..][..i] == s[1..i + 1];
        assert s[..i + 1] == [s[0]] + s[1..i + 1];
        Some(i + 1)
  }

  /** `TArray::RemoveSingleSwap`: the first occurrence of `x` is overwritten
      by the last element and the array shrinks by one. */
  function RemoveSingleSwap(s: seq<CompId>, x: CompId): (r: seq<CompId>)
    ensures x !in s ==> r == s
    ensures x in s ==> |r| == |s| - 1
  {
    match IndexOf(s, x)
    case None => s
    case Some(i) => s[i := s[|s| - 1]][..|s| - 1]
  }

  /** Removing keeps the registry free of duplicates and takes out exactly `x`;
      a component that is not registered leaves it as it was. */
  lemma RemoveSingleSwapRemoves(s: seq<CompId>, x: CompId)
    requires NoDup(s)
    ensures var r := RemoveSingleSwap(s, x);
            NoDup(r) &&
            (forall y :: y in r <==> y in s && y != x) &&
            |r| == (if x in s then |s| - 1 else |s|) &&
            (x !in s ==> r == s)
  {
    var r := RemoveSingleSwap(s, x);
    match IndexOf(s, x)
    case None =>
    case Some(i) =>
      var n := |s|;
      assert |r| == n - 1;
      forall k | 0 <= k < n - 1
        ensures r[k] == (if k == i then s[n - 1] else s[k])
      {
      }
      forall y
        ensures y in r <==> y in s && y != x
      {
        if y in r {
          var k :| 0 <= k < n - 1 && r[k] == y;
          assert y == (if k == i then s[n - 1] else s[k]);
        }
        if y in s && y != x {
          var k :| 0 <= k < n && s[k] == y;
          if k == n - 1 {
            assert r[i] == y;
          } else {
            assert k != i;
            assert r[k] == y;
          }
        }
      }
      forall a, b | 0 <= a < b < n - 1
        ensures r[a] != r[b]
      {
        assert r[a] == (if a == i then s[n - 1] else s[a]);
        assert r[b] == (if b == i then s[n - 1] else s[b]);
      }
  }

  /** The elements other than the removed slot and the last slot keep their
      positions; the last element moves into the freed slot. */
  lemma RemoveSingleSwapPositions(s: seq<CompId>, x: CompId, i: nat)
    requires IndexOf(s, x) == Some(i)
    ensures var r := RemoveSingleSwap(s, x);
            |r| == |s| - 1 &&
            (i < |r| ==> r[i] == s[|s| - 1]) &&
            forall k :: 0 <= k < |r| && k != i ==> r[k] == s[k]
  {
  }

  /** Removing takes out one occurrence of `x`, as a multiset, even when the
      registry has duplicates. */
  lemma RemoveSingleSwapMultiset(s: seq<CompId>, x: CompId)
    ensures multiset(RemoveSingleSwap(s, x)) == multiset(s) - multiset{x}
  {
    match IndexOf(s, x)
    case None =>
      assert x !in multiset(s);
    case Some(i) =>
      SwapIntoSlot(s, i);
  }

  /** Overwriting slot `i` with the last element and dropping the last slot
      takes out one occurrence of what slot `i` held. */
  lemma SwapIntoSlot(s: seq<CompId>, i: nat)
    requires i < |s|
    ensures multiset(s[i := s[|s| - 1]][..|s| - 1]) == multiset(s) - multiset{s[i]}
  {
    var n := |s|;
    var t := s[i := s[n - 1]];
    var kept, last := multiset(t[..n - 1]), multiset{s[n - 1]};
    assert t == t[..n - 1] + [s[n - 1]];
    assert multiset(t) == kept + last;
    assert multiset(t) == multiset(s) - multiset{s[i]} + last;
    forall y
      ensures kept[y] == (multiset(s) - multiset{s[i]})[y]
    {
      assert (kept + last)[y] == (multiset(s) - multiset{s[i]} + last)[y];
    }
  }

  // ---------------------------------------------------------------------
  // The accept rule

  /** The widget's "forward" vector under its rotation system. */
  function ForwardVector(w: WidgetInfo): Vec3 {
    if w.usingLegacyRotation then w.upVector else w.forwardVector
  }

  /** The front-face test as the code writes it: the dot product is negative. */
  predicate FacesFront(w: WidgetInfo, hit: HitResult) {
    Dot(ForwardVector(w), Sub(hit.impactPoint, hit.traceStart)) < 0
  }

  /** The reach test: inclusive at the configured distance. */
  predicate WithinReach(w: WidgetInfo, hit: HitResult) {
    DistSquared(hit.traceStart, w.location) <= w.maxInteractionDistance * w.maxInteractionDistance
  }

  /** The world is valid and a game world, and player 0 has a controller. */
  predicate GameContext(world: WorldId, env: Env) {
    world in env.liveWorlds && world in env.gameWorlds && world in env.player0Controller
  }

  /** The widget path for a resolved component once its hit is accepted. */
  function AcceptedPath(resolved: Option<CompId>, hit: HitResult, env: Env, ignoreEnabled: bool): (r: seq<WidgetAndPointer>)
    ensures r != [] ==>
              resolved.Some? && resolved.value in env.widgets &&
              FacesFront(env.widgets[resolved.value], hit) && WithinReach(env.widgets[resolved.value], hit)
  {
    match resolved
    case None => []
    case Some(id) =>
      if id in env.widgets && FacesFront(env.widgets[id], hit) && WithinReach(env.widgets[id], hit)
      then env.hitWidgetPath(id, hit.location, ignoreEnabled, 0.0)
      else []
  }

  /** `GetBubblePathAndVirtualCursors` of a tester for `world`. */
  function BubblePath(world: WorldId, c: CacheState, env: Env, geometry: GeometryId,
                      desktop: Vec2, ignoreEnabled: bool): (r: Step<seq<WidgetAndPointer>>)
    // a non-empty path needs every check to pass, on the component the lookup
    // resolved: a stale hit left in the cache by a failed trace is not enough
    ensures r.value != [] ==>
              GameContext(world, env) &&
              var s := Lookup(c, env, Some(env.player0Controller[world]), env.absoluteToLocal(geometry, desktop));
              s.value.Some? && s.value.value in env.widgets &&
              FacesFront(env.widgets[s.value.value], s.cache.hit) &&
              WithinReach(env.widgets[s.value.value], s.cache.hit) &&
              r.value == env.hitWidgetPath(s.value.value, s.cache.hit.location, ignoreEnabled, 0.0)
    // and when every check passes the component's own path is returned
    ensures GameContext(world, env) ==>
              var s := Lookup(c, env, Some(env.player0Controller[world]), env.absoluteToLocal(geometry, desktop));
              r.cache == s.cache && r.traces == s.traces &&
              (s.value.Some? && s.value.value in env.widgets &&
               FacesFront(env.widgets[s.value.value], s.cache.hit) &&
               WithinReach(env.widgets[s.value.value], s.cache.hit) ==>
                 r.value == env.hitWidgetPath(s.value.value, s.cache.hit.location, ignoreEnabled, 0.0))
    // outside a game context nothing is queried
    ensures !GameContext(world, env) ==> r == Step(c, [], [])
  {
    if GameContext(world, env) then
      var s := Lookup(c, env, Some(env.player0Controller[world]), env.absoluteToLocal(geometry, desktop));
      Step(s.cache, AcceptedPath(s.value, s.cache.hit, env, ignoreEnabled), s.traces)
    else
      Step(c, [], [])
  }

  /** Under a custom hit the lookup ignores the position, so the bubble path
      does not depend on the geometry or the coordinate it is asked for. */
  lemma CustomHitIgnoresPosition(world: WorldId, c: CacheState, env: Env, g1: GeometryId, d1: Vec2,
                                 g2: GeometryId, d2: Vec2, ignoreEnabled: bool)
    requires c.useCustomHit
    ensures BubblePath(world, c, env, g1, d1, ignoreEnabled) == BubblePath(world, c, env, g2, d2, ignoreEnabled)
  {
  }

  /** A hit on the back face of the widget it names is rejected, whatever the
      distance. */
  lemma BackFaceRejected(world: WorldId, c: CacheState, env: Env, geometry: GeometryId, desktop: Vec2,
                         ignoreEnabled: bool, id: CompId)
    requires var r := BubblePath(world, c, env, geometry, desktop, ignoreEnabled);
             r.cache.hit.component == Some(id) && id in env.widgets && !FacesFront(env.widgets[id], r.cache.hit)
    ensures BubblePath(world, c, env, geometry, desktop, ignoreEnabled).value == []
  {
  }

  /** The reach bound is inclusive: a resolved front-face hit at exactly the
      maximum distance yields the component's path, one further away yields none. */
  lemma ReachBoundInclusive(world: WorldId, c: CacheState, env: Env, geometry: GeometryId, desktop: Vec2,
                            ignoreEnabled: bool)
    requires GameContext(world, env)
    ensures var s := Lookup(c, env, Some(env.player0Controller[world]), env.absoluteToLocal(geometry, desktop));
            var r := BubblePath(world, c, env, geometry, desktop, ignoreEnabled);
            s.value.Some? && s.value.value in env.widgets && FacesFront(env.widgets[s.value.value], s.cache.hit) ==>
              var w := env.widgets[s.value.value];
              (DistSquared(s.cache.hit.traceStart, w.location) == w.maxInteractionDistance * w.maxInteractionDistance ==>
                 r.value == env.hitWidgetPath(s.value.value, s.cache.hit.location, ignoreEnabled, 0.0)) &&
              (DistSquared(s.cache.hit.traceStart, w.location) > w.maxInteractionDistance * w.maxInteractionDistance ==>
                 r.value == [])
  {
  }

  /** A failed trace yields no path, yet the hit it wrote stays cached under
      the new key, so a second query in the same frame at the same position
      resolves that hit's component and may accept it. */
  lemma FailedTraceThenRetry(world: WorldId, c: CacheState, env: Env, geometry: GeometryId, desktop: Vec2,
                             ignoreEnabled: bool)
    requires GameContext(world, env) && !c.useCustomHit
    requires var pos := env.absoluteToLocal(geometry, desktop);
             !KeyMatches(c, env, pos) && !env.trace(env.player0Controller[world], pos, c.hit).found
    ensures var t := env.trace(env.player0Controller[world], env.absoluteToLocal(geometry, desktop), c.hit);
            var first := BubblePath(world, c, env, geometry, desktop, ignoreEnabled);
            var second := BubblePath(world, first.cache, env, geometry, desktop, ignoreEnabled);
            first.value == [] && first.cache.hit == t.written &&
            second.value == AcceptedPath(t.written.component, t.written, env, ignoreEnabled) && second.traces == []
  {
  }

  // ---------------------------------------------------------------------
  // Cursor translation

  /** Registered component `id` shows `child`, is the component of the cached
      hit, and `p` sits at the local projection of that hit's location. */
  predicate TranslatedBy(id: CompId, env: Env, child: WidgetId, cache: CacheState, p: VirtualPointer) {
    SlateWidgetOf(env, id) == Some(child) &&
    cache.hit.component == Some(id) &&
    p == VirtualPointer(env.localHitLocation(id, cache.hit.location),
                        env.localHitLocation(id, cache.hit.location))
  }

  /** The registry search of `TranslateMouseCoordinateFor3DChild` over `entries`,
      resolving the hit at `pos` for each entry whose widget is `child`. */
  function TranslateFrom(entries: seq<CompId>, c: CacheState, env: Env, pc: ControllerId,
                         child: WidgetId, pos: Vec2): (r: Step<Option<VirtualPointer>>)
    // a pointer comes only from an entry showing `child` that is the resolved
    // hit component, and sits at the local projection of the cached hit
    ensures r.value.Some? ==>
              exists k :: 0 <= k < |entries| && TranslatedBy(entries[k], env, child, r.cache, r.value.value)
    ensures r.cache.useCustomHit == c.useCustomHit
    // the search traces at most once: after the first lookup the key matches
    ensures |r.traces| <= 1
    ensures c.useCustomHit || KeyMatches(c, env, pos) ==> r.cache == c && r.traces == []
    // when every lookup answers from the memo, a pointer is found exactly when
    // some entry showing `child` is the cached hit's component
    ensures c.useCustomHit || KeyMatches(c, env, pos) ==>
              (r.value.Some? <==>
                 exists k :: 0 <= k < |entries| && SlateWidgetOf(env, entries[k]) == Some(child) &&
                   c.hit.component == Some(entries[k]))
    decreases |entries|
  {
    if entries == [] then Step(c, None, [])
    else
      var id := entries[0];
      if SlateWidgetOf(env, id) == Some(child) then
        var s := Lookup(c, env, Some(pc), pos);
        if s.value == Some(id) then
          var local := env.localHitLocation(id, s.cache.hit.location);
          assert TranslatedBy(entries[0], env, child, s.cache, VirtualPointer(local, local));
          Step(s.cache, Some(VirtualPointer(local, local)), s.traces)
        else
          var rest := TranslateFrom(entries[1..], s.cache, env, pc, child, pos);
          TranslateTail(entries, env, child, rest);
          Step(rest.cache, rest.value, s.traces + rest.traces)
      else
        var rest := TranslateFrom(entries[1..], c, env, pc, child, pos);
        TranslateTail(entries, env, child, rest);
        rest
  }

  /** A pointer found in the tail of the registry is found in the registry. */
  lemma TranslateTail(entries: seq<CompId>, env: Env, child: WidgetId, rest: Step<Option<VirtualPointer>>)
    requires entries != []
    requires rest.value.Some? ==>
               exists k :: 0 <= k < |entries[1..]| && TranslatedBy(entries[1..][k], env, child, rest.cache, rest.value.value)
    ensures rest.value.Some? ==>
              exists k :: 0 <= k < |entries| && TranslatedBy(entries[k], env, child, rest.cache, rest.value.value)
  {
    if rest.value.Some? {
      var k :| 0 <= k < |entries[1..]| && TranslatedBy(entries[1..][k], env, child, rest.cache, rest.value.value);
      assert entries[k + 1] == entries[1..][k];
    }
  }

  /** On a memo miss, the first entry showing `child` makes the one trace;
      a pointer is then found exactly when some entry showing `child` is the
      cached hit's component and either the trace found a hit or an earlier
      entry shows `child` too (after a failed trace the later entries are
      compared with the hit the trace wrote). */
  lemma {:induction false} TranslateOnMiss(entries: seq<CompId>, c: CacheState, env: Env, pc: ControllerId,
                                           child: WidgetId, pos: Vec2)
    requires !c.useCustomHit && !KeyMatches(c, env, pos)
    ensures var s := Lookup(c, env, Some(pc), pos);
            TranslateFrom(entries, c, env, pc, child, pos).value.Some? <==>
              exists k :: 0 <= k < |entries| && SlateWidgetOf(env, entries[k]) == Some(child) &&
                s.cache.hit.component == Some(entries[k]) &&
                (s.value.Some? || exists j :: 0 <= j < k && SlateWidgetOf(env, entries[j]) == Some(child))
    decreases |entries|
  {
    if entries != [] {
      var s := Lookup(c, env, Some(pc), pos);
      var tail := entries[1..];
      assert forall k :: 0 <= k < |tail| ==> tail[k] == entries[k + 1];
      if SlateWidgetOf(env, entries[0]) == Some(child) {
        if s.value != Some(entries[0]) {
          var rest := TranslateFrom(tail, s.cache, env, pc, child, pos);
          assert rest.value.Some? <==>
                   exists k :: 0 <= k < |tail| && SlateWidgetOf(env, tail[k]) == Some(child) &&
                     s.cache.hit.component == Some(tail[k]);
          if rest.value.Some? {
            var k :| 0 <= k < |tail| && SlateWidgetOf(env, tail[k]) == Some(child) && s.cache.hit.component == Some(tail[k]);
            assert 0 < k + 1 && SlateWidgetOf(env, entries[0]) == Some(child);
          }
        }
      } else {
        TranslateOnMiss(tail, c, env, pc, child, pos);
      }
    }
  }

  /** `TranslateMouseCoordinateFor3DChild` of a tester for `world` with registry `registered`. */
  function TranslateCursor(world: WorldId, registered: seq<CompId>, c: CacheState, env: Env,
                           child: WidgetId, viewportGeometry: GeometryId, screen: Vec2): (r: Step<Option<VirtualPointer>>)
    // a pointer comes from a registered component showing `child` that is the
    // cached hit's component, at the local projection of that hit's location
    ensures r.value.Some? ==>
              GameContext(world, env) &&
              exists k :: 0 <= k < |registered| && TranslatedBy(registered[k], env, child, r.cache, r.value.value)
    ensures |r.traces| <= 1
    ensures !GameContext(world, env) ==> r == Step(c, None, [])
    // answered from the memo: a pointer exactly when a component showing
    // `child` is the cached hit's component
    ensures GameContext(world, env) &&
            (c.useCustomHit || KeyMatches(c, env, env.absoluteToLocal(viewportGeometry, screen))) ==>
              (r.value.Some? <==>
                 exists k :: 0 <= k < |registered| && SlateWidgetOf(env, registered[k]) == Some(child) &&
                   c.hit.component == Some(registered[k]))
    // on a miss: a pointer exactly when a component showing `child` is the
    // component of the hit the trace wrote, and the trace found it or an
    // earlier component shows `child` too
    ensures GameContext(world, env) &&
            !(c.useCustomHit || KeyMatches(c, env, env.absoluteToLocal(viewportGeometry, screen))) ==>
              var t := env.trace(env.player0Controller[world], env.absoluteToLocal(viewportGeometry, screen), c.hit);
              (r.value.Some? <==>
                 exists k :: 0 <= k < |registered| && SlateWidgetOf(env, registered[k]) == Some(child) &&
                   t.written.component == Some(registered[k]) &&
                   (t.found || exists j :: 0 <= j < k && SlateWidgetOf(env, registered[j]) == Some(child)))
  {
    if GameContext(world, env) then
      var pc, local := env.player0Controller[world], env.absoluteToLocal(viewportGeometry, screen);
      if !(c.useCustomHit || KeyMatches(c, env, local)) then
        TranslateOnMiss(registered, c, env, pc, child, local);
        TranslateFrom(registered, c, env, pc, child, local)
      else
        TranslateFrom(registered, c, env, pc, child, local)
    else
      Step(c, None, [])
  }

  /** With nothing registered that shows `child`, no pointer is returned and
      nothing is traced. */
  lemma {:induction false} TranslateUnknownChild(entries: seq<CompId>, c: CacheState, env: Env,
                                                 pc: ControllerId, child: WidgetId, pos: Vec2)
    requires forall k :: 0 <= k < |entries| ==> SlateWidgetOf(env, entries[k]) != Some(child)
    ensures TranslateFrom(entries, c, env, pc, child, pos) == Step(c, None, [])
    decreases |entries|
  {
    if entries != [] {
      assert forall k :: 0 <= k < |entries[1..]| ==> entries[1..][k] == entries[k + 1];
      TranslateUnknownChild(entries[1..], c, env, pc, child, pos);
    }
  }

  // ---------------------------------------------------------------------
  // Arranged children

  /** The entry one registered component contributes: its widget at its draw
      size, when it is live and has a widget. */
  function ArrangedOne(c: CompId, env: Env): seq<ArrangedWidget> {
    if c in env.widgets && env.widgets[c].slateWidget.Some?
    then [ArrangedWidget(env.widgets[c].slateWidget.value, env.widgets[c].drawSize)]
    else []
  }

  /** The entries `ArrangeChildren` appends for `registered`, in registry order. */
  function ArrangedFor(registered: seq<CompId>, env: Env): (r: seq<ArrangedWidget>)
    ensures |r| <= |registered|
    decreases |registered|
  {
    if registered == [] then []
    else ArrangedFor(registered[..|registered| - 1], env) + ArrangedOne(registered[|registered| - 1], env)
  }

  /** An arranged child is exactly the widget and draw size of some registered,
      live component that has a widget. */
  lemma {:induction false} ArrangedForMembers(registered: seq<CompId>, env: Env, a: ArrangedWidget)
    ensures a in ArrangedFor(registered, env) <==>
              exists c :: c in registered && c in env.widgets &&
                env.widgets[c].slateWidget == Some(a.widget) && env.widgets[c].drawSize == a.size
    decreases |registered|
  {
    if registered != [] {
      var init := registered[..|registered| - 1];
      var last := registered[|registered| - 1];
      assert registered == init + [last];
      ArrangedForMembers(init, env, a);
      assert forall c :: c in registered <==> c in init || c == last;
    }
  }

  /** When every registered component is live and has a widget, there is one
      arranged child per registered component, in registry order. */
  lemma {:induction false} ArrangedForAllVisible(registered: seq<CompId>, env: Env)
    requires forall k :: 0 <= k < |registered| ==> SlateWidgetOf(env, registered[k]).Some?
    ensures var r := ArrangedFor(registered, env);
            |r| == |registered| &&
            forall k :: 0 <= k < |registered| ==> Some(r[k].widget) == SlateWidgetOf(env, registered[k])
    decreases |registered|
  {
    if registered != [] {
      var init := registered[..|registered| - 1];
      assert forall k :: 0 <= k < |init| ==> init[k] == registered[k];
      ArrangedForAllVisible(init, env);
    }
  }
}
