/** The bookkeeping of `PyWM` in pywm/pywm.py: the downstream state handed to
    the compositor on each update, the pending one-shot requests, the
    widget creation and destruction queues, absolute-motion tracking and
    the touchpad capture flag. The window manager's own decisions (its
    `process`, `on_motion` and `on_gesture` results) are inputs. Widgets are
    identified by an object number; `handles` holds the `_handle` of the
    widgets that have one. Timing and the idle thread are not modelled. */
module PyWm {
  import opened Util

  // ---------------------------------------------------------------------
  // Callbacks and the downstream state
  // ---------------------------------------------------------------------

  /** How a Python callback ended: with a value (possibly None) or with an
      exception. */
  datatype Outcome<T> = Returned(value: Option<T>) | Raised

  /** The `callback` decorator: an exception becomes a None result; a
      returned value is passed on. */
  function Callback<T>(o: Outcome<T>): (r: Option<T>)
    ensures o.Raised? ==> r.None?
    ensures o.Returned? ==> r == o.value
  {
    match o
    case Raised => None
    case Returned(v) => v
  }

  /** The result is None exactly when the callback raised or returned
      None: a raising callback cannot be told from one returning None. */
  lemma CallbackNoneIff<T>(o: Outcome<T>)
    ensures Callback(o).None? <==> o.Raised? || o.value.None?
    ensures Callback<T>(Raised) == Callback<T>(Returned(None))
  {
  }

  /** `PyWMDownstreamState`. */
  datatype Downstream = Downstream(lockPerc: real)

  /** `copy`: a new state with the same lock percentage. */
  function Copy(d: Downstream): (r: Downstream)
    ensures r.lockPerc == d.lockPerc
  {
    Downstream(d.lockPerc)
  }

  /** What `get` hands to the compositor. */
  datatype Handed = Handed(updateCursor: int, lockPerc: real, openOutput: string, closeOutput: string, terminate: bool)

  function OrEmpty(s: Option<string>): (r: string)
    ensures s.None? ==> r == ""
    ensures s.Some? ==> r == s.value
  {
    if s.None? then "" else s.value
  }

  /** `get`: the pending values with None names as empty strings. */
  function Get(d: Downstream, updateCursor: int, open: Option<string>, close: Option<string>, terminate: bool): (r: Handed)
    ensures r.updateCursor == updateCursor && r.lockPerc == d.lockPerc && r.terminate == terminate
    ensures r.openOutput == OrEmpty(open) && r.closeOutput == OrEmpty(close)
  {
    Handed(updateCursor, d.lockPerc, OrEmpty(open), OrEmpty(close), terminate)
  }

  /** No request and an empty name are handed over alike. */
  lemma GetNoneIsEmpty(d: Downstream, c: int, t: bool)
    ensures Get(d, c, None, None, t) == Get(d, c, Some(""), Some(""), t)
    ensures Get(Copy(d), c, None, None, t).lockPerc == d.lockPerc
  {
  }

  // ---------------------------------------------------------------------
  // The window manager's state
  // ---------------------------------------------------------------------

  /** `down` is None once `process` has returned None: `PyWM` is not an
      abstract base class, so the default `process` body is allowed and
      returns None, which `_update` stores. */
  datatype Wm = Wm(
    down: Option<Downstream>,
    damaged: bool,
    pendingUpdateCursor: int,
    pendingOpen: Option<string>,
    pendingClose: Option<string>,
    pendingTerminate: bool,
    widgets: map<int, nat>,
    handles: map<nat, int>,
    pendingWidgets: seq<nat>,
    pendingDestroy: seq<nat>,
    lastAbsX: real, lastAbsY: real,
    captured: bool)

  /** `__init__`. */
  function Init(): (w: Wm)
    ensures !w.damaged && !w.captured && w.down == Some(Downstream(0.0))
    ensures w.pendingUpdateCursor == -1 && w.pendingOpen.None? && w.pendingClose.None? && !w.pendingTerminate
    ensures w.widgets == map[] && w.pendingWidgets == [] && w.pendingDestroy == []
    ensures w.lastAbsX == 0.0 && w.lastAbsY == 0.0
  {
    Wm(Some(Downstream(0.0)), false, -1, None, None, false, map[], map[], [], [], 0.0, 0.0, false)
  }

  /** Whether no one-shot request is pending. */
  predicate Quiet(w: Wm)
  {
    w.pendingUpdateCursor == -1 && w.pendingOpen.None? && w.pendingClose.None? && !w.pendingTerminate
  }

  /** `damage`. */
  function Damage(w: Wm): (r: Wm)
    ensures r.damaged && r == w.(damaged := true)
  {
    w.(damaged := true)
  }

  /** The public requests: `update_cursor`, `open_virtual_output`,
      `close_virtual_output` and `terminate` (whose stopping of the
      threads is not modelled). */
  function UpdateCursor(w: Wm, enabled: bool): (r: Wm)
    ensures r == w.(pendingUpdateCursor := if enabled then 1 else 0)
  {
    w.(pendingUpdateCursor := if enabled then 1 else 0)
  }

  function OpenVirtualOutput(w: Wm, name: string): (r: Wm)
    ensures r == w.(pendingOpen := Some(name))
  {
    w.(pendingOpen := Some(name))
  }

  function CloseVirtualOutput(w: Wm, name: string): (r: Wm)
    ensures r == w.(pendingClose := Some(name))
  {
    w.(pendingClose := Some(name))
  }

  function Terminate(w: Wm): (r: Wm)
    ensures r == w.(pendingTerminate := true)
  {
    w.(pendingTerminate := true)
  }

  /** `is_locked`: None where reading `lock_perc` of a stored None
      raises. */
  function IsLocked(w: Wm): (r: Option<bool>)
    ensures r.None? <==> w.down.None?
    ensures r.Some? ==> (r.value <==> w.down.value.lockPerc != 0.0)
  {
    if w.down.None? then None else Some(w.down.value.lockPerc != 0.0)
  }

  /** `_update`: when damaged, the flag is cleared and `process` is called;
      `processed` is how it ended. A returned value, None included, is
      stored; a raise keeps the stored state. The stored state's `get`
      then hands the pending requests over and they are reset. The update
      raises, and the `callback` decorator answers None, when `process`
      raised or when the stored state is None; the pending requests are then
      kept for a later update. */
  function Update(w: Wm, processed: Outcome<Downstream>): (r: (Wm, Option<Handed>))
    ensures !r.0.damaged
    ensures w.damaged && processed.Returned? ==> r.0.down == processed.value
    ensures !(w.damaged && processed.Returned?) ==> r.0.down == w.down
    ensures r.1.None? <==> (w.damaged && processed.Raised?) || r.0.down.None?
    ensures r.1.None? ==> r.0 == w.(damaged := false, down := r.0.down)
    ensures r.1.Some? ==> Quiet(r.0)
    ensures r.1.Some? ==>
              r.1.value == Get(r.0.down.value, w.pendingUpdateCursor, w.pendingOpen, w.pendingClose, w.pendingTerminate)
    ensures r.1.Some? ==>
              r.0 == w.(damaged := false, down := r.0.down, pendingUpdateCursor := -1,
                        pendingOpen := None, pendingClose := None, pendingTerminate := false)
  {
    var down := if w.damaged && processed.Returned? then processed.value else w.down;
    if (w.damaged && processed.Raised?) || down.None? then
      (w.(damaged := false, down := down), None)
    else
      (w.(damaged := false, down := down, pendingUpdateCursor := -1,
          pendingOpen := None, pendingClose := None, pendingTerminate := false),
       Some(Get(down.value, w.pendingUpdateCursor, w.pendingOpen, w.pendingClose, w.pendingTerminate)))
  }

  /** Requests reach the compositor with the next update only; without
      new damage the next update keeps the processed state, ignoring
      `process`. */
  lemma UpdateHandsOverOnce(w: Wm, name: string, p1: Downstream, p2: Outcome<Downstream>)
    ensures var w1 := Damage(Terminate(OpenVirtualOutput(UpdateCursor(w, false), name)));
            var (w2, first) := Update(w1, Returned(Some(p1)));
            var (w3, second) := Update(w2, p2);
            && first.Some? && first.value.updateCursor == 0 && first.value.openOutput == name
            && first.value.terminate
            && w2.down == Some(p1)
            && second == Some(Handed(-1, p1.lockPerc, "", "", false))
            && w3.down == w2.down
  {
  }

  /** Damage makes the next update adopt the processed state. */
  lemma DamageThenUpdate(w: Wm, p: Downstream)
    ensures Update(Damage(w), Returned(Some(p))).0.down == Some(p)
    ensures Update(Damage(w), Returned(Some(p))).1 == Some(Get(p, w.pendingUpdateCursor, w.pendingOpen, w.pendingClose, w.pendingTerminate))
    ensures IsLocked(Update(Damage(w), Returned(Some(p))).0) == Some(p.lockPerc != 0.0)
  {
  }

  /** A `process` that raises loses the damage but not the requests: the
      following update, whatever `process` would return, hands the same
      requests over with the state from before the damage, provided that
      state is not None. */
  lemma RaisedUpdateDefersRequests(w: Wm, later: Outcome<Downstream>)
    ensures var (w1, first) := Update(Damage(w), Raised);
            var (w2, second) := Update(w1, later);
            && first.None? && w1.down == w.down
            && (w.down.Some? ==>
                  && second == Some(Get(w.down.value, w.pendingUpdateCursor, w.pendingOpen, w.pendingClose, w.pendingTerminate))
                  && w2.down == w.down && Quiet(w2))
            && (w.down.None? ==> second.None? && w2 == w1)
  {
  }

  /** A `process` that returns None makes this update and every following
      one raise, keeping the requests pending, until a later damaged
      update's `process` returns a state; that update hands the requests
      over. */
  lemma ProcessNoneRaisesUntilProcessed(w: Wm, undamaged: nat, p: Downstream)
    ensures var (w1, first) := Update(Damage(w), Returned(None));
            && first.None? && w1.down.None? && w1 == w.(damaged := false, down := None)
            && UpdatesWithoutDamage(w1, undamaged) == w1
            && Update(Damage(w1), Returned(Some(p))).1 ==
                 Some(Get(p, w.pendingUpdateCursor, w.pendingOpen, w.pendingClose, w.pendingTerminate))
  {
    var w1 := Update(Damage(w), Returned(None)).0;
    UndamagedUpdatesRaise(w1, undamaged);
  }

  /** `n` updates without damage, each answering None or not. */
  function UpdatesWithoutDamage(w: Wm, n: nat): Wm
    decreases n
  {
    if n == 0 then w else UpdatesWithoutDamage(Update(w, Raised).0, n - 1)
  }

  /** Undamaged updates over a stored None all raise and change nothing. */
  lemma {:induction false} UndamagedUpdatesRaise(w: Wm, n: nat)
    requires w.down.None? && !w.damaged
    ensures UpdatesWithoutDamage(w, n) == w
    ensures Update(w, Raised).1.None?
  {
    if n > 0 {
      assert Update(w, Raised).0 == w;
      UndamagedUpdatesRaise(w, n - 1);
    }
  }

  // ---------------------------------------------------------------------
  // Widget queues
  // ---------------------------------------------------------------------

  /** `create_widget`: the new widget waits for a handle. */
  function CreateWidget(w: Wm, widget: nat): (r: Wm)
    ensures r == w.(pendingWidgets := w.pendingWidgets + [widget])
  {
    w.(pendingWidgets := w.pendingWidgets + [widget])
  }

  /** `_query_new_widget`: the oldest waiting widget gets the handle and is
      registered under it (True); with none waiting, False. */
  function QueryNewWidget(w: Wm, newHandle: int): (r: (Wm, bool))
    ensures r.1 <==> |w.pendingWidgets| > 0
    ensures !r.1 ==> r.0 == w
    ensures r.1 ==> && r.0.pendingWidgets == w.pendingWidgets[1..]
                    && r.0.handles == w.handles[w.pendingWidgets[0] := newHandle]
                    && r.0.widgets == w.widgets[newHandle := w.pendingWidgets[0]]
                    && r.0.pendingDestroy == w.pendingDestroy
  {
    if |w.pendingWidgets| > 0 then
      var widget := w.pendingWidgets[0];
      (w.(pendingWidgets := w.pendingWidgets[1..],
          handles := w.handles[widget := newHandle],
          widgets := w.widgets[newHandle := widget]), true)
    else (w, false)
  }

  /** `widget_destroy`: the widget leaves the registry (by its handle, if it
      has one) and waits to be destroyed. */
  function WidgetDestroy(w: Wm, widget: nat): (r: Wm)
    ensures r.pendingDestroy == w.pendingDestroy + [widget]
    ensures widget in w.handles ==> r.widgets == w.widgets - {w.handles[widget]}
    ensures widget !in w.handles ==> r.widgets == w.widgets
    ensures r.pendingWidgets == w.pendingWidgets && r.handles == w.handles
  {
    w.(widgets := if widget in w.handles then w.widgets - {w.handles[widget]} else w.widgets,
       pendingDestroy := w.pendingDestroy + [widget])
  }

  /** `_query_destroy_widget`: the handle of the oldest widget waiting to be
      destroyed, which leaves the queue; None when the queue is empty (and
      also when that widget never got a handle). */
  function QueryDestroyWidget(w: Wm): (r: (Wm, Option<int>))
    ensures |w.pendingDestroy| == 0 ==> r == (w, None)
    ensures |w.pendingDestroy| > 0 ==>
              && r.0 == w.(pendingDestroy := w.pendingDestroy[1..])
              && r.1 == (if w.pendingDestroy[0] in w.handles then Some(w.handles[w.pendingDestroy[0]]) else None)
  {
    if |w.pendingDestroy| == 0 then (w, None)
    else
      var widget := w.pendingDestroy[0];
      (w.(pendingDestroy := w.pendingDestroy[1..]), if widget in w.handles then Some(w.handles[widget]) else None)
  }

  /** The life cycle of a widget seen from the compositor: created with no
      other widget waiting, it takes the next handle offered; destroyed,
      it leaves the registry, and with no other widget waiting for
      destruction, the compositor is told exactly that handle. */
  lemma WidgetLifeCycle(w: Wm, widget: nat, h: int)
    requires w.pendingWidgets == [] && w.pendingDestroy == []
    ensures var (w1, created) := QueryNewWidget(CreateWidget(w, widget), h);
            var w2 := WidgetDestroy(w1, widget);
            var (w3, destroyed) := QueryDestroyWidget(w2);
            && created && w1.widgets[h] == widget
            && h !in w2.widgets
            && destroyed == Some(h) && w3.pendingDestroy == []
  {
  }

  /** Widgets are handed handles in creation order. */
  lemma HandlesInCreationOrder(w: Wm, a: nat, b: nat, ha: int, hb: int)
    requires w.pendingWidgets == [] && a != b
    ensures var w1 := CreateWidget(CreateWidget(w, a), b);
            var (w2, _) := QueryNewWidget(w1, ha);
            var (w3, _) := QueryNewWidget(w2, hb);
            w3.handles[a] == ha && w3.handles[b] == hb && w3.pendingWidgets == []
  {
    var w1 := CreateWidget(CreateWidget(w, a), b);
    assert w1.pendingWidgets == [a, b];
  }

  // ---------------------------------------------------------------------
  // Motion and gestures
  // ---------------------------------------------------------------------

  /** What a motion callback does with an event. */
  datatype Motion = Swallowed | Passed(dx: real, dy: real)

  /** `_motion`: swallowed (True) while the touchpad is captured; otherwise
      the delta, divided by the layout size where that is positive, goes to
      `on_motion`. */
  function RelativeMotion(w: Wm, dx: real, dy: real, width: int, height: int): (r: Motion)
    ensures w.captured <==> r.Swallowed?
    ensures r.Passed? ==> r.dx * (if width > 0 then width as real else 1.0) == dx
    ensures r.Passed? ==> r.dy * (if height > 0 then height as real else 1.0) == dy
  {
    if w.captured then Swallowed
    else Passed(if width > 0 then dx / width as real else dx, if height > 0 then dy / height as real else dy)
  }

  /** `_motion_absolute`: swallowed while captured, leaving the last
      position; otherwise `on_motion` gets the change from the last
      position, which becomes the new one. */
  function AbsoluteMotion(w: Wm, x: real, y: real): (r: (Wm, Motion))
    ensures w.captured ==> r == (w, Swallowed)
    ensures !w.captured ==> r.1 == Passed(x - w.lastAbsX, y - w.lastAbsY)
    ensures !w.captured ==> r.0 == w.(lastAbsX := x, lastAbsY := y)
  {
    if w.captured then (w, Swallowed)
    else
      var dx := x - w.lastAbsX;
      var dy := y - w.lastAbsY;
      (w.(lastAbsX := w.lastAbsX + dx, lastAbsY := w.lastAbsY + dy), Passed(dx, dy))
  }

  /** A run of absolute motions: the deltas passed on, in order. */
  function AbsoluteRun(w: Wm, xs: seq<(real, real)>): (r: (Wm, seq<Motion>))
    ensures |r.1| == |xs|
    decreases |xs|
  {
    if |xs| == 0 then (w, [])
    else
      var (w1, m) := AbsoluteMotion(w, xs[0].0, xs[0].1);
      var (w2, ms) := AbsoluteRun(w1, xs[1..]);
      (w2, [m] + ms)
  }

  function SumX(ms: seq<Motion>): real
  {
    if |ms| == 0 then 0.0 else (if ms[0].Passed? then ms[0].dx else 0.0) + SumX(ms[1..])
  }

  /** While nothing is captured, the deltas passed on add up to the
      distance from the starting position to the last one reported. */
  lemma {:induction false} AbsoluteRunTelescopes(w: Wm, xs: seq<(real, real)>)
    requires !w.captured && |xs| > 0
    ensures var (w', ms) := AbsoluteRun(w, xs);
            && w'.lastAbsX == xs[|xs| - 1].0
            && SumX(ms) == xs[|xs| - 1].0 - w.lastAbsX
    decreases |xs|
  {
    var (w1, m) := AbsoluteMotion(w, xs[0].0, xs[0].1);
    var (w2, ms) := AbsoluteRun(w1, xs[1..]);
    assert AbsoluteRun(w, xs) == (w2, [m] + ms);
    assert ([m] + ms)[1..] == ms;
    if |xs| > 1 {
      AbsoluteRunTelescopes(w1, xs[1..]);
    } else {
      assert ms == [];
    }
  }

  /** `_gesture`: the touchpad is captured iff `on_gesture` accepts. */
  function Gesture(w: Wm, accepted: bool): (r: Wm)
    ensures r.captured == accepted && r == w.(captured := accepted)
  {
    w.(captured := accepted)
  }

  /** `_gesture_finished`. */
  function GestureFinished(w: Wm): (r: Wm)
    ensures !r.captured && r == w.(captured := false)
  {
    w.(captured := false)
  }

  /** `reallow_gesture`: the flag tells whether the daemon's gestures are
      reset, which happens only while nothing is captured. */
  function ReallowGesture(w: Wm): (r: bool)
    ensures r <==> !w.captured
  {
    !w.captured
  }

  /** An accepted gesture swallows cursor motion and blocks the reset
      until it finishes; a declined one does neither. */
  lemma CaptureWindow(w: Wm, accepted: bool, x: real, y: real)
    ensures var g := Gesture(w, accepted);
            && (AbsoluteMotion(g, x, y).1.Swallowed? <==> accepted)
            && (ReallowGesture(g) <==> !accepted)
            && ReallowGesture(GestureFinished(g))
            && AbsoluteMotion(GestureFinished(g), x, y).1.Passed?
  {
  }
}
