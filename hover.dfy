/** The hover reconciliation `UVRWidgetComponent::SetCustomHit` performs, on
    values: which hovered entries are left, the leave calls with their focus
    reset, the removal, and the entries entered. Entries are compared by widget
    identity, as arranged widgets are. */
module Hover {
  import opened Engine

  /** The widgets of a list of entries, in order. */
  function WidgetsOf(s: seq<WidgetAndPointer>): (r: seq<WidgetId>)
    ensures |r| == |s|
    ensures forall i :: 0 <= i < |s| ==> r[i] == s[i].widget
    decreases |s|
  {
    if s == [] then [] else [s[0].widget] + WidgetsOf(s[1..])
  }

  /** `TArray::Contains` for entries: some entry holds widget `w`. */
  predicate Holds(s: seq<WidgetAndPointer>, w: WidgetId) {
    w in WidgetsOf(s)
  }

  /** No two entries hold the same widget. */
  predicate UniqueWidgets(s: seq<WidgetAndPointer>) {
    forall i, j :: 0 <= i < j < |s| ==> s[i].widget != s[j].widget
  }

  lemma HoldsAppend(s: seq<WidgetAndPointer>, e: WidgetAndPointer, w: WidgetId)
    ensures Holds(s + [e], w) <==> Holds(s, w) || e.widget == w
  {
    assert WidgetsOf(s + [e]) == WidgetsOf(s) + [e.widget];
  }

  lemma HoldsEntry(s: seq<WidgetAndPointer>, e: WidgetAndPointer)
    requires e in s
    ensures Holds(s, e.widget)
  {
    var i :| 0 <= i < |s| && s[i] == e;
    assert WidgetsOf(s)[i] == e.widget;
  }

  // ---------------------------------------------------------------------
  // Leaving

  /** `WidgetsToRemove`: the hovered entries whose widget is not on the new path, in order. */
  function Leaving(h: seq<WidgetAndPointer>, path: seq<WidgetAndPointer>): (r: seq<WidgetAndPointer>)
    ensures |r| <= |h|
    decreases |h|
  {
    if h == [] then []
    else Leaving(h[..|h| - 1], path) + (if Holds(path, h[|h| - 1].widget) then [] else [h[|h| - 1]])
  }

  /** The leaving entries are exactly the hovered entries that are off the
      path, and they hold no widget twice when the hovered list does not. */
  lemma LeavingFacts(h: seq<WidgetAndPointer>, path: seq<WidgetAndPointer>)
    ensures var r := Leaving(h, path);
            (forall e :: e in r <==> e in h && !Holds(path, e.widget)) &&
            (UniqueWidgets(h) ==> UniqueWidgets(r))
  {
    LeavingMembers(h, path);
    if UniqueWidgets(h) {
      LeavingUnique(h, path);
    }
  }

  lemma {:induction false} LeavingMembers(h: seq<WidgetAndPointer>, path: seq<WidgetAndPointer>)
    ensures forall e :: e in Leaving(h, path) <==> e in h && !Holds(path, e.widget)
    decreases |h|
  {
    if h != [] {
      var init, last := h[..|h| - 1], h[|h| - 1];
      assert h == init + [last];
      LeavingMembers(init, path);
    }
  }

  lemma {:induction false} LeavingUnique(h: seq<WidgetAndPointer>, path: seq<WidgetAndPointer>)
    requires UniqueWidgets(h)
    ensures UniqueWidgets(Leaving(h, path))
    decreases |h|
  {
    if h != [] {
      var init, last := h[..|h| - 1], h[|h| - 1];
      assert h == init + [last];
      assert UniqueWidgets(init);
      LeavingUnique(init, path);
      var r := Leaving(h, path);
      assert r == Leaving(init, path) + (if Holds(path, last.widget) then [] else [last]);
      if !Holds(path, last.widget) {
        LeavingMembers(init, path);
        forall i | 0 <= i < |r| - 1
          ensures r[i].widget != last.widget
        {
          assert r[i] in Leaving(init, path);
          var j :| 0 <= j < |init| && init[j] == r[i];
          assert h[j] == r[i];
        }
      }
    }
  }

  /** The focus and input-mode reset that follows each leave: focus goes back
      to the component's widget, and the owner's controller returns to
      game-only input, when there is an owner player and a widget. */
  function Refocus(owner: Option<LocalPlayer>, slate: Option<WidgetId>): (r: seq<SlateCall>)
    ensures forall c :: c in r ==> c.SetUserFocus? || c.SetInputModeGameOnly?
    ensures owner.Some? && slate.Some? ==> r != [] && r[0] == SetUserFocus(owner.value.id, slate.value)
    ensures owner.None? || slate.None? ==> r == []
  {
    if owner.Some? && slate.Some? then
      [SetUserFocus(owner.value.id, slate.value)] +
      (if owner.value.controller.Some? then [SetInputModeGameOnly(owner.value.controller.value)] else [])
    else []
  }

  /** One leave call per leaving entry, built from its stored cursor and not
      pressed, each followed by the reset. */
  function LeaveCalls(ls: seq<WidgetAndPointer>, refocus: seq<SlateCall>): (r: seq<SlateCall>)
    ensures |ls| <= |r|
    ensures refocus == [] ==> |r| == |ls|
    decreases |ls|
  {
    if ls == [] then []
    else
      var last := ls[|ls| - 1];
      LeaveCalls(ls[..|ls| - 1], refocus) + [MouseLeave(last.widget, TouchEvent(last, false))] + refocus
  }

  /** With a reset made of focus and input-mode calls, the leave phase makes
      no other kind of call. */
  lemma {:induction false} LeaveCallsKinds(ls: seq<WidgetAndPointer>, refocus: seq<SlateCall>)
    requires forall c :: c in refocus ==> c.SetUserFocus? || c.SetInputModeGameOnly?
    ensures forall c :: c in LeaveCalls(ls, refocus) ==> c.MouseLeave? || c.SetUserFocus? || c.SetInputModeGameOnly?
    decreases |ls|
  {
    if ls != [] {
      LeaveCallsKinds(ls[..|ls| - 1], refocus);
    }
  }

  /** One step of the leave loop: entry `i` joins the leaving entries, with
      its leave call and the reset, exactly when its widget is off the path. */
  lemma LeavingStep(h: seq<WidgetAndPointer>, i: nat, path: seq<WidgetAndPointer>, refocus: seq<SlateCall>)
    requires i < |h|
    ensures Leaving(h[..i + 1], path) == Leaving(h[..i], path) + (if Holds(path, h[i].widget) then [] else [h[i]])
    ensures LeaveCalls(Leaving(h[..i + 1], path), refocus) ==
              LeaveCalls(Leaving(h[..i], path), refocus) +
              (if Holds(path, h[i].widget) then [] else [MouseLeave(h[i].widget, TouchEvent(h[i], false))] + refocus)
  {
    assert h[..i + 1][..i] == h[..i];
    var ls := Leaving(h[..i], path);
    if !Holds(path, h[i].widget) {
      var leave := MouseLeave(h[i].widget, TouchEvent(h[i], false));
      assert Leaving(h[..i + 1], path) == ls + [h[i]];
      assert (ls + [h[i]])[..|ls|] == ls;
      assert (ls + [h[i]])[|ls|] == h[i];
      assert LeaveCalls(ls + [h[i]], refocus) == LeaveCalls(ls, refocus) + [leave] + refocus;
      assert LeaveCalls(ls, refocus) + [leave] + refocus == LeaveCalls(ls, refocus) + ([leave] + refocus);
    } else {
      assert Leaving(h[..i + 1], path) == ls;
    }
  }

  /** The widgets that receive a leave call, in order. */
  function LeaveTargets(calls: seq<SlateCall>): seq<WidgetId>
    decreases |calls|
  {
    if calls == [] then []
    else (if calls[0].MouseLeave? then [calls[0].widget] else []) + LeaveTargets(calls[1..])
  }

  lemma {:induction false} LeaveTargetsAppend(a: seq<SlateCall>, b: seq<SlateCall>)
    ensures LeaveTargets(a + b) == LeaveTargets(a) + LeaveTargets(b)
    decreases |a|
  {
    if a != [] {
      assert (a + b)[0] == a[0];
      assert (a + b)[1..] == a[1..] + b;
      LeaveTargetsAppend(a[1..], b);
      assert LeaveTargets(a + b) == (if a[0].MouseLeave? then [a[0].widget] else []) + LeaveTargets(a[1..] + b);
    } else {
      assert a + b == b;
    }
  }

  /** With a reset that holds no leave, exactly the leaving entries' widgets
      receive a leave call, in the order they were hovered. */
  lemma {:induction false} LeaveCallsTargets(ls: seq<WidgetAndPointer>, refocus: seq<SlateCall>)
    requires forall c :: c in refocus ==> !c.MouseLeave?
    ensures LeaveTargets(LeaveCalls(ls, refocus)) == WidgetsOf(ls)
    decreases |ls|
  {
    if ls != [] {
      var init, last := ls[..|ls| - 1], ls[|ls| - 1];
      LeaveCallsTargets(init, refocus);
      NoLeaveTargets(refocus);
      LeaveTargetsAppend(LeaveCalls(init, refocus), [MouseLeave(last.widget, TouchEvent(last, false))]);
      LeaveTargetsAppend(LeaveCalls(init, refocus) + [MouseLeave(last.widget, TouchEvent(last, false))], refocus);
      assert ls == init + [last];
      assert WidgetsOf(ls) == WidgetsOf(init) + [last.widget];
    }
  }

  lemma {:induction false} NoLeaveTargets(calls: seq<SlateCall>)
    requires forall c :: c in calls ==> !c.MouseLeave?
    ensures LeaveTargets(calls) == []
    decreases |calls|
  {
    if calls != [] {
      assert calls[0] in calls;
      NoLeaveTargets(calls[1..]);
    }
  }

  // ---------------------------------------------------------------------
  // Removal

  /** `TArray::Remove`: every entry holding widget `w` goes. */
  function Without(s: seq<WidgetAndPointer>, w: WidgetId): (r: seq<WidgetAndPointer>)
    ensures |r| <= |s|
    decreases |s|
  {
    if s == [] then []
    else (if s[0].widget == w then [] else [s[0]]) + Without(s[1..], w)
  }

  /** Exactly the entries holding another widget stay, and removing keeps the
      widgets distinct. */
  lemma {:induction false} WithoutFacts(s: seq<WidgetAndPointer>, w: WidgetId)
    ensures var r := Without(s, w);
            (forall e :: e in r <==> e in s && e.widget != w) &&
            (UniqueWidgets(s) ==> UniqueWidgets(r))
    decreases |s|
  {
    if s != [] {
      var rest := Without(s[1..], w);
      WithoutFacts(s[1..], w);
      var r := (if s[0].widget == w then [] else [s[0]]) + rest;
      assert r == Without(s, w);
      assert s == [s[0]] + s[1..];
      if UniqueWidgets(s) && s[0].widget != w {
        forall j | 0 <= j < |rest|
          ensures rest[j].widget != s[0].widget
        {
          assert rest[j] in s[1..];
          var k :| 0 <= k < |s[1..]| && s[1..][k] == rest[j];
          assert s[k + 1] == rest[j];
        }
        forall i, j | 0 <= i < j < |r|
          ensures r[i].widget != r[j].widget
        {
          if i > 0 {
            assert r[i] == rest[i - 1] && r[j] == rest[j - 1];
          }
        }
      }
    }
  }

  /** The removal loop: each entry of `rs` is removed in turn. */
  function RemoveEach(s: seq<WidgetAndPointer>, rs: seq<WidgetAndPointer>): (r: seq<WidgetAndPointer>)
    ensures |r| <= |s|
    decreases |rs|
  {
    if rs == [] then s
    else RemoveEach(Without(s, rs[0].widget), rs[1..])
  }

  /** Exactly the entries whose widget no entry of `rs` holds stay, and the
      widgets stay distinct. */
  lemma {:induction false} RemoveEachFacts(s: seq<WidgetAndPointer>, rs: seq<WidgetAndPointer>)
    ensures var r := RemoveEach(s, rs);
            (forall e :: e in r <==> e in s && !Holds(rs, e.widget)) &&
            (UniqueWidgets(s) ==> UniqueWidgets(r))
    decreases |rs|
  {
    if rs != [] {
      WithoutFacts(s, rs[0].widget);
      RemoveEachFacts(Without(s, rs[0].widget), rs[1..]);
      assert WidgetsOf(rs) == [rs[0].widget] + WidgetsOf(rs[1..]);
    }
  }

  /** Removing the leaving entries keeps exactly the hovered entries that are
      still on the path, with their stored cursors. */
  lemma AfterLeaving(h: seq<WidgetAndPointer>, path: seq<WidgetAndPointer>, e: WidgetAndPointer)
    ensures e in RemoveEach(h, Leaving(h, path)) <==> e in h && Holds(path, e.widget)
  {
    var ls := Leaving(h, path);
    LeavingFacts(h, path);
    RemoveEachFacts(h, ls);
    if e in h && Holds(ls, e.widget) {
      var i :| 0 <= i < |ls| && WidgetsOf(ls)[i] == e.widget;
      assert ls[i] in ls;
    }
    if e in h && !Holds(path, e.widget) {
      HoldsEntry(ls, e);
    }
  }

  // ---------------------------------------------------------------------
  // Entering

  /** The hovered list and the calls a reconciliation step produces. */
  datatype Reconciled = Reconciled(hovered: seq<WidgetAndPointer>, calls: seq<SlateCall>)

  /** The enter loop: each path entry whose widget is not hovered yet is
      appended and entered, with its own cursor and not pressed. */
  function EnterPhase(h: seq<WidgetAndPointer>, path: seq<WidgetAndPointer>): (r: Reconciled)
    // at most one new entry per path entry, and one enter call per new entry
    ensures |h| <= |r.hovered| <= |h| + |path|
    ensures |r.calls| == |r.hovered| - |h|
    decreases |path|
  {
    if path == [] then Reconciled(h, [])
    else if Holds(h, path[0].widget) then EnterPhase(h, path[1..])
    else
      var e := path[0];
      var r := EnterPhase(h + [e], path[1..]);
      Reconciled(r.hovered, [MouseEnter(e.widget, e.geometry, TouchEvent(e, false))] + r.calls)
  }

  /** What the enter phase keeps, adds and calls. */
  lemma EnterPhaseFacts(h: seq<WidgetAndPointer>, path: seq<WidgetAndPointer>)
    ensures var r := EnterPhase(h, path);
            // what was hovered stays, in place and with its stored cursor
            (|h| <= |r.hovered| && r.hovered[..|h|] == h) &&
            // every new entry is a path entry
            (forall e :: e in r.hovered ==> e in h || e in path) &&
            // afterwards a widget is hovered when it was already or is on the path
            (forall w :: Holds(r.hovered, w) <==> Holds(h, w) || Holds(path, w)) &&
            (UniqueWidgets(h) ==> UniqueWidgets(r.hovered)) &&
            (forall c :: c in r.calls ==> c.MouseEnter?)
  {
    EnterPhaseShape(h, path);
    EnterPhaseWidgets(h, path);
  }

  /** The hovered list only grows, by path entries, and only enter calls are made. */
  lemma {:induction false} EnterPhaseShape(h: seq<WidgetAndPointer>, path: seq<WidgetAndPointer>)
    ensures var r := EnterPhase(h, path);
            (|h| <= |r.hovered| && r.hovered[..|h|] == h) &&
            (forall e :: e in r.hovered ==> e in h || e in path) &&
            (forall c :: c in r.calls ==> c.MouseEnter?)
    decreases |path|
  {
    if path != [] {
      if Holds(h, path[0].widget) {
        EnterPhaseShape(h, path[1..]);
      } else {
        var e := path[0];
        EnterPhaseShape(h + [e], path[1..]);
        var r := EnterPhase(h + [e], path[1..]);
        assert r.hovered[..|h|] == (h + [e])[..|h|];
      }
    }
  }

  /** Afterwards a widget is hovered when it was already or is on the path, and
      no widget is hovered twice. */
  lemma {:induction false} EnterPhaseWidgets(h: seq<WidgetAndPointer>, path: seq<WidgetAndPointer>)
    ensures var r := EnterPhase(h, path);
            (forall w :: Holds(r.hovered, w) <==> Holds(h, w) || Holds(path, w)) &&
            (UniqueWidgets(h) ==> UniqueWidgets(r.hovered))
    decreases |path|
  {
    if path != [] {
      assert forall w :: Holds(path, w) <==> path[0].widget == w || Holds(path[1..], w) by {
        assert WidgetsOf(path) == [path[0].widget] + WidgetsOf(path[1..]);
      }
      if Holds(h, path[0].widget) {
        EnterPhaseWidgets(h, path[1..]);
      } else {
        var e := path[0];
        EnterPhaseWidgets(h + [e], path[1..]);
        forall w ensures Holds(h + [e], w) <==> Holds(h, w) || e.widget == w {
          HoldsAppend(h, e, w);
        }
        if UniqueWidgets(h) {
          forall i | 0 <= i < |h| ensures h[i].widget != e.widget {
            assert WidgetsOf(h)[i] == h[i].widget;
          }
          assert UniqueWidgets(h + [e]);
        }
      }
    }
  }

  /** The widgets that receive an enter call, in order. */
  function EnterTargets(calls: seq<SlateCall>): seq<WidgetId>
    decreases |calls|
  {
    if calls == [] then []
    else (if calls[0].MouseEnter? then [calls[0].widget] else []) + EnterTargets(calls[1..])
  }

  /** A widget receives one enter call when it is on the path and was not
      hovered, and none otherwise. */
  lemma {:induction false} EnterOnce(h: seq<WidgetAndPointer>, path: seq<WidgetAndPointer>, w: WidgetId)
    ensures multiset(EnterTargets(EnterPhase(h, path).calls))[w] ==
              if Holds(path, w) && !Holds(h, w) then 1 else 0
    decreases |path|
  {
    if path != [] {
      assert WidgetsOf(path) == [path[0].widget] + WidgetsOf(path[1..]);
      var e := path[0];
      if Holds(h, e.widget) {
        EnterOnce(h, path[1..], w);
      } else {
        EnterOnce(h + [e], path[1..], w);
        HoldsAppend(h, e, w);
        var calls := [MouseEnter(e.widget, e.geometry, TouchEvent(e, false))] + EnterPhase(h + [e], path[1..]).calls;
        assert calls[1..] == EnterPhase(h + [e], path[1..]).calls;
      }
    }
  }

  // ---------------------------------------------------------------------
  // The whole reconciliation

  /** Leave, remove, then enter, as `SetCustomHit` does with hover simulation on. */
  function Reconcile(h: seq<WidgetAndPointer>, path: seq<WidgetAndPointer>, refocus: seq<SlateCall>): (r: Reconciled)
    ensures |r.hovered| <= |h| + |path|
  {
    var leaving := Leaving(h, path);
    var entered := EnterPhase(RemoveEach(h, leaving), path);
    Reconciled(entered.hovered, LeaveCalls(leaving, refocus) + entered.calls)
  }

  /** Afterwards exactly the widgets on the new path are hovered, each once;
      an entry that stays keeps its stored cursor, and every other entry is
      the path's. */
  lemma ReconcileHovered(h: seq<WidgetAndPointer>, path: seq<WidgetAndPointer>, refocus: seq<SlateCall>)
    requires UniqueWidgets(h)
    ensures var r := Reconcile(h, path, refocus);
            UniqueWidgets(r.hovered) &&
            (forall w :: Holds(r.hovered, w) <==> Holds(path, w)) &&
            (forall e :: e in h && Holds(path, e.widget) ==> e in r.hovered) &&
            (forall e :: e in r.hovered ==> e in path || (e in h && Holds(path, e.widget)))
  {
    var leaving := Leaving(h, path);
    var kept := RemoveEach(h, leaving);
    var r := Reconcile(h, path, refocus);
    RemoveEachFacts(h, leaving);
    EnterPhaseFacts(kept, path);
    forall e ensures e in kept <==> e in h && Holds(path, e.widget) {
      AfterLeaving(h, path, e);
    }
    forall w ensures Holds(kept, w) ==> Holds(path, w) {
      if Holds(kept, w) {
        var i :| 0 <= i < |kept| && WidgetsOf(kept)[i] == w;
        assert kept[i] in kept;
      }
    }
    forall e | e in kept ensures e in r.hovered {
      var i :| 0 <= i < |kept| && kept[i] == e;
      assert r.hovered[..|kept|][i] == e;
    }
  }

  /** A leaving entry's widget is one that was hovered and is not on the path. */
  lemma LeavingWidgets(h: seq<WidgetAndPointer>, path: seq<WidgetAndPointer>, w: WidgetId)
    ensures Holds(Leaving(h, path), w) <==> Holds(h, w) && !Holds(path, w)
  {
    var leaving := Leaving(h, path);
    LeavingFacts(h, path);
    if Holds(h, w) && !Holds(path, w) {
      var i :| 0 <= i < |h| && WidgetsOf(h)[i] == w;
      assert h[i] in leaving;
      HoldsEntry(leaving, h[i]);
    }
    if Holds(leaving, w) {
      var i :| 0 <= i < |leaving| && WidgetsOf(leaving)[i] == w;
      assert leaving[i] in leaving;
      HoldsEntry(h, leaving[i]);
    }
  }

  /** The leave calls of a reconciliation go to the leaving entries, in order. */
  lemma ReconcileLeaveTargets(h: seq<WidgetAndPointer>, path: seq<WidgetAndPointer>, refocus: seq<SlateCall>)
    requires forall c :: c in refocus ==> c.SetUserFocus? || c.SetInputModeGameOnly?
    ensures LeaveTargets(Reconcile(h, path, refocus).calls) == WidgetsOf(Leaving(h, path))
  {
    var leaving := Leaving(h, path);
    var entered := EnterPhase(RemoveEach(h, leaving), path);
    LeaveCallsTargets(leaving, refocus);
    LeaveTargetsAppend(LeaveCalls(leaving, refocus), entered.calls);
    EnterPhaseFacts(RemoveEach(h, leaving), path);
    NoLeaveTargets(entered.calls);
  }

  /** Each previously hovered widget that is not on the path receives exactly
      one leave call, and no other widget receives one. */
  lemma LeaveOnce(h: seq<WidgetAndPointer>, path: seq<WidgetAndPointer>, owner: Option<LocalPlayer>,
                  slate: Option<WidgetId>, w: WidgetId)
    requires UniqueWidgets(h)
    ensures multiset(LeaveTargets(Reconcile(h, path, Refocus(owner, slate)).calls))[w] ==
              if Holds(h, w) && !Holds(path, w) then 1 else 0
  {
    var leaving := Leaving(h, path);
    LeavingFacts(h, path);
    ReconcileLeaveTargets(h, path, Refocus(owner, slate));
    LeavingWidgets(h, path, w);
    DistinctCount(WidgetsOf(leaving), w);
  }

  /** Each widget on the path that was not hovered receives exactly one enter
      call, and no other widget receives one. */
  lemma EnterOnceOverall(h: seq<WidgetAndPointer>, path: seq<WidgetAndPointer>, refocus: seq<SlateCall>, w: WidgetId)
    requires forall c :: c in refocus ==> c.SetUserFocus? || c.SetInputModeGameOnly?
    ensures multiset(EnterTargets(Reconcile(h, path, refocus).calls))[w] ==
              if Holds(path, w) && !Holds(h, w) then 1 else 0
  {
    var leaving := Leaving(h, path);
    var kept := RemoveEach(h, leaving);
    var entered := EnterPhase(kept, path);
    EnterOnce(kept, path, w);
    LeaveCallsKinds(leaving, refocus);
    EnterTargetsAppend(LeaveCalls(leaving, refocus), entered.calls);
    NoEnterTargets(LeaveCalls(leaving, refocus));
    if Holds(path, w) {
      if Holds(kept, w) {
        var i :| 0 <= i < |kept| && WidgetsOf(kept)[i] == w;
        assert kept[i] in kept;
        AfterLeaving(h, path, kept[i]);
        HoldsEntry(h, kept[i]);
      }
      if Holds(h, w) {
        var i :| 0 <= i < |h| && WidgetsOf(h)[i] == w;
        AfterLeaving(h, path, h[i]);
        HoldsEntry(kept, h[i]);
      }
    }
  }

  /** Every leave call, with its resets, comes before every enter call. */
  lemma LeavesBeforeEnters(h: seq<WidgetAndPointer>, path: seq<WidgetAndPointer>, refocus: seq<SlateCall>)
    requires forall c :: c in refocus ==> c.SetUserFocus? || c.SetInputModeGameOnly?
    ensures var calls := Reconcile(h, path, refocus).calls;
            var k := |LeaveCalls(Leaving(h, path), refocus)|;
            k <= |calls| &&
            (forall i :: 0 <= i < k ==> !calls[i].MouseEnter?) &&
            (forall i :: k <= i < |calls| ==> calls[i].MouseEnter?)
  {
    var leaving := Leaving(h, path);
    var leaves := LeaveCalls(leaving, refocus);
    var entered := EnterPhase(RemoveEach(h, leaving), path);
    var calls := leaves + entered.calls;
    assert calls == Reconcile(h, path, refocus).calls;
    LeaveCallsKinds(leaving, refocus);
    EnterPhaseFacts(RemoveEach(h, leaving), path);
    forall i | 0 <= i < |leaves| ensures !calls[i].MouseEnter? {
      assert calls[i] == leaves[i] && leaves[i] in leaves;
    }
    forall i | |leaves| <= i < |calls| ensures calls[i].MouseEnter? {
      assert calls[i] == entered.calls[i - |leaves|] && entered.calls[i - |leaves|] in entered.calls;
    }
  }

  lemma {:induction false} EnterTargetsAppend(a: seq<SlateCall>, b: seq<SlateCall>)
    ensures EnterTargets(a + b) == EnterTargets(a) + EnterTargets(b)
    decreases |a|
  {
    if a != [] {
      assert (a + b)[0] == a[0];
      assert (a + b)[1..] == a[1..] + b;
      EnterTargetsAppend(a[1..], b);
      assert EnterTargets(a + b) == (if a[0].MouseEnter? then [a[0].widget] else []) + EnterTargets(a[1..] + b);
    } else {
      assert a + b == b;
    }
  }

  lemma {:induction false} NoEnterTargets(calls: seq<SlateCall>)
    requires forall c :: c in calls ==> !c.MouseEnter?
    ensures EnterTargets(calls) == []
    decreases |calls|
  {
    if calls != [] {
      assert calls[0] in calls;
      NoEnterTargets(calls[1..]);
    }
  }

  /** In a list without repeats a value occurs once if at all. */
  lemma {:induction false} DistinctCount(s: seq<WidgetId>, w: WidgetId)
    requires forall i, j :: 0 <= i < j < |s| ==> s[i] != s[j]
    ensures multiset(s)[w] == if w in s then 1 else 0
    decreases |s|
  {
    if s != [] {
      assert s == [s[0]] + s[1..];
      DistinctCount(s[1..], s[0]);
      DistinctCount(s[1..], w);
    }
  }

  /** Hovering A and B, then hitting a path B', C (B' a fresh entry for B's
      widget): A is left once, C entered once, B gets nothing and keeps its
      stored cursor, and the hover list becomes B, C. */
  lemma HoverDiffExample(a: WidgetAndPointer, b: WidgetAndPointer, b': WidgetAndPointer, c: WidgetAndPointer)
    requires a.widget != b.widget && a.widget != c.widget && b.widget != c.widget
    requires b'.widget == b.widget
    ensures Reconcile([a, b], [b', c], []) ==
              Reconciled([b, c], [MouseLeave(a.widget, TouchEvent(a, false)),
                                  MouseEnter(c.widget, c.geometry, TouchEvent(c, false))])
  {
    ExampleLeave(a, b, b', c);
    ExampleRemove(a, b);
    ExampleEnter(b, b', c);
    assert LeaveCalls([a], []) == [MouseLeave(a.widget, TouchEvent(a, false))] by {
      assert [a][..0] == [];
    }
  }

  lemma ExampleLeave(a: WidgetAndPointer, b: WidgetAndPointer, b': WidgetAndPointer, c: WidgetAndPointer)
    requires a.widget != b.widget && a.widget != c.widget && b'.widget == b.widget
    ensures Leaving([a, b], [b', c]) == [a]
  {
    var path := [b', c];
    assert Holds(path, b.widget) && !Holds(path, a.widget) by {
      assert path[1..] == [c];
      assert [c][1..] == [];
      assert WidgetsOf(path) == [b.widget, c.widget];
    }
    assert Leaving([a], path) == [a] by {
      assert [a][..0] == [];
      assert Leaving([], path) == [];
    }
    assert [a, b][..1] == [a];
  }

  lemma ExampleRemove(a: WidgetAndPointer, b: WidgetAndPointer)
    requires a.widget != b.widget
    ensures RemoveEach([a, b], [a]) == [b]
  {
    assert [a, b][1..] == [b];
    assert [b][1..] == [];
    assert [a][1..] == [];
    assert Without([b], a.widget) == [b];
  }

  lemma ExampleEnter(b: WidgetAndPointer, b': WidgetAndPointer, c: WidgetAndPointer)
    requires b.widget != c.widget && b'.widget == b.widget
    ensures EnterPhase([b], [b', c]) == Reconciled([b, c], [MouseEnter(c.widget, c.geometry, TouchEvent(c, false))])
  {
    assert WidgetsOf([b]) == [b.widget] by { assert [b][1..] == []; }
    assert [b', c][1..] == [c];
    assert [c][1..] == [];
    assert [b] + [c] == [b, c];
    assert Holds([b], b'.widget) && !Holds([b], c.widget);
    assert EnterPhase([b, c], []) == Reconciled([b, c], []);
    assert EnterPhase([b], [c]) == Reconciled([b, c], [MouseEnter(c.widget, c.geometry, TouchEvent(c, false))]);
  }
}
