/** Gesture recognition of pywm/touchpad/gestures.py. A recogniser holds at
    most one gesture; each frame is fed to it, and when it terminates (or
    none exists) the frame's finger count picks a new one. Every gesture
    passes its raw values through a dead-zone gate: nothing is delivered
    until some value leaves its threshold around the key's center, and from
    then on every value is shifted by the offset captured at that frame.

    Listener callbacks become a list of events, each naming the gesture by a
    serial number. Python floats are modelled as exact reals, and the
    Euclidean norm `math.sqrt(dx**2 + dy**2)` is the parameter `hypot`. An
    exception raised while a frame is handled (an assertion in a gesture
    constructor, a division by zero) ends the reader thread that delivered
    the frame; it is the result `Failed`, which keeps the events listeners
    received before the raise and the state the raise left behind. */
module Gestures {
  import opened Util
  import opened TouchData

  /** The value names a gesture reports. */
  datatype Key = DeltaX | DeltaY | Delta2S | Scale

  type Values = map<Key, real>

  /** `GesturesConfig`: the four tunables. The low-pass fields are carried
      for `update_config` but only read by the smoothing thread. */
  datatype Config = Config(twoFingerMinDist: real, lpFreq: real, lpInertia: real, validateThreshold: real)

  /** `GesturesConfig.update`. */
  function UpdateConfig(twoFingerMinDist: real, lpFreq: real, lpInertia: real, validateThreshold: real): Config
  {
    Config(twoFingerMinDist, lpFreq, lpInertia, validateThreshold)
  }

  /** The configuration a new recogniser starts with. */
  function DefaultConfig(): Config
  {
    UpdateConfig(0.1, 200.0, 0.8, 0.02)
  }

  /** `validate_centers`: the value a key has before anything moved. */
  function Center(k: Key): real
  {
    if k == Scale then 1.0 else 0.0
  }

  /** `validate_thresholds`: the dead-zone radius of a key. */
  function Threshold(c: Config, k: Key): real
  {
    if k == Delta2S then c.validateThreshold * c.validateThreshold else c.validateThreshold
  }

  /** Every key has threshold `t`, except `delta2_s`, which has `t * t`; the
      defaults are (0.1, 200, 0.8, 0.02). */
  lemma ConfigThresholds(t: real, d: real, f: real, i: real)
    ensures var c := UpdateConfig(d, f, i, t);
            && Threshold(c, DeltaX) == t && Threshold(c, DeltaY) == t && Threshold(c, Scale) == t
            && Threshold(c, Delta2S) == t * t
            && c.twoFingerMinDist == d && c.lpFreq == f && c.lpInertia == i
    ensures DefaultConfig() == Config(0.1, 200.0, 0.8, 0.02)
    ensures Threshold(DefaultConfig(), Delta2S) == 0.0004
  {
  }

  /** Some value is outside its dead zone. */
  predicate Exceeds(values: Values, c: Config)
  {
    exists k :: k in values && Abs(values[k] - Center(k)) > Threshold(c, k)
  }

  /** The gate state of a gesture after one `update`, and what it delivers;
      `GateFailed` is the KeyError raised when the offset lacks a key. */
  datatype Gate =
    | Gated(pending: bool, offset: Option<Values>, out: Option<Values>)
    | GateFailed

  /** `Gesture.update`. */
  function UpdateGate(pending: bool, offset: Option<Values>, values: Values, c: Config): (r: Gate)
    ensures pending && !Exceeds(values, c) ==> r == Gated(true, offset, None)
    ensures pending && Exceeds(values, c) ==>
              r.Gated? && !r.pending && r.out == Some(map k | k in values :: Center(k))
    ensures !pending && offset.Some? && values.Keys <= offset.value.Keys ==>
              r == Gated(false, offset, Some(map k | k in values :: values[k] - offset.value[k]))
    ensures r.Gated? && r.pending ==> r.out.None?
  {
    var (p, off) :=
      if pending && Exceeds(values, c) then (false, Some(map k | k in values :: values[k] - Center(k)))
      else (pending, offset);
    if !p && off.Some? then
      if values.Keys <= off.value.Keys then
        var out := map k | k in values :: values[k] - off.value[k];
        assert pending && Exceeds(values, c) ==> out == map k | k in values :: Center(k);
        Gated(p, off, Some(out))
      else GateFailed
    else Gated(p, off, None)
  }

  /** Gesture-specific state. */
  datatype Kind =
    | SingleFingerMove(initialX: real, initialY: real)
    | TwoFingerSwipePinch(initialCogX: real, initialCogY: real, initialDist: real)
    | HigherSwipe(n: int, last: TouchpadUpdate, beginT: real, dx: real, dy: real, d2s: real)

  /** One gesture object: its serial number, kind-specific state and gate. */
  datatype Gesture = Gesture(serial: nat, kind: Kind, pending: bool, offset: Option<Values>)

  /** `_process` of the two-finger gesture: centre of gravity and the
      distance, floored at the configured minimum. */
  function TwoFingerMeasure(ts: seq<Touch>, c: Config, hypot: (real, real) -> real): (r: (real, real, real))
    requires |ts| == 2
    ensures r.2 >= c.twoFingerMinDist
    ensures r.2 >= hypot(ts[0].x - ts[1].x, ts[0].y - ts[1].y)
    ensures r.0 * 2.0 == ts[0].x + ts[1].x && r.1 * 2.0 == ts[0].y + ts[1].y
  {
    var d := hypot(ts[0].x - ts[1].x, ts[0].y - ts[1].y);
    ((ts[0].x + ts[1].x) / 2.0, (ts[0].y + ts[1].y) / 2.0, if c.twoFingerMinDist >= d then c.twoFingerMinDist else d)
  }

  /** The gesture a frame starts, by its finger count: None where no
      gesture starts (zero or negative count), `Some(None)` where the
      constructor's assertion fails. */
  function NewGesture(serial: nat, u: TouchpadUpdate, c: Config, hypot: (real, real) -> real): (r: Option<Option<Gesture>>)
    ensures r.None? <==> u.nTouches <= 0
    ensures u.nTouches == 1 ==> (r.value.Some? <==> |u.touches| == 1)
    ensures u.nTouches == 2 ==> (r.value.Some? <==> |u.touches| == 2)
    ensures u.nTouches > 2 ==> (r.value.Some? <==> u.nTouches <= 5)
    ensures r.Some? && r.value.Some? ==> r.value.value.serial == serial && r.value.value.pending && r.value.value.offset.None?
  {
    if u.nTouches == 1 then
      if |u.touches| == 1 then Some(Some(Gesture(serial, SingleFingerMove(u.touches[0].x, u.touches[0].y), true, None)))
      else Some(None)
    else if u.nTouches == 2 then
      if |u.touches| == 2 then
        var (cx, cy, d) := TwoFingerMeasure(u.touches, c, hypot);
        Some(Some(Gesture(serial, TwoFingerSwipePinch(cx, cy, d), true, None)))
      else Some(None)
    else if u.nTouches > 2 then
      if u.nTouches <= 5 then Some(Some(Gesture(serial, HigherSwipe(u.nTouches, u, u.t, 0.0, 0.0, 0.0), true, None)))
      else Some(None)
    else None
  }

  function SquaredNorm(x: real, y: real): (r: real)
    ensures r >= 0.0
  {
    x * x + y * y
  }

  /** Summed displacement of the touches of `cur` whose id also occurs in
      `prev` (at its first position there), and the summed squared
      displacement. */
  function Displacement(prev: seq<Touch>, cur: seq<Touch>): (r: (real, real, real))
    ensures r.2 >= 0.0
  {
    if |cur| == 0 then (0.0, 0.0, 0.0)
    else
      var (dx, dy, d2) := Displacement(prev, cur[..|cur| - 1]);
      var t := cur[|cur| - 1];
      assert forall k :: 0 <= k < |cur| - 1 ==> cur[..|cur| - 1][k] == cur[k];
      match IndexOfId(prev, t.id)
      case None => (dx, dy, d2)
      case Some(i) =>
        var ex := t.x - prev[i].x;
        var ey := t.y - prev[i].y;
        (dx + ex, dy + ey, d2 + SquaredNorm(ex, ey))
  }

  /** `v` plus an equal share of `e` among `n` fingers. */
  function Accumulated(v: real, e: real, n: real): (r: real)
    requires n != 0.0
    ensures (r - v) * n == e
    ensures n > 0.0 && e >= 0.0 ==> r >= v
  {
    var share := e / n;
    assert share * n == e;
    assert n > 0.0 && e >= 0.0 ==> share >= 0.0;
    v + share
  }

  /** The higher swipe's state after a frame with touches whose displacement
      from the reference frame is `e`: the displacement is divided by the
      nominal finger count and accumulated, and the frame becomes the
      reference for the next one. */
  function HigherStep(k: Kind, u: TouchpadUpdate, e: (real, real, real)): (k': Kind)
    requires k.HigherSwipe? && k.n != 0
    ensures k'.HigherSwipe? && k'.n == k.n && k'.beginT == k.beginT && k'.last == u
    ensures (k'.dx - k.dx) * k.n as real == e.0
    ensures (k'.dy - k.dy) * k.n as real == e.1
    ensures (k'.d2s - k.d2s) * k.n as real == e.2
    ensures k.n > 0 && e.2 >= 0.0 ==> k'.d2s >= k.d2s
  {
    var n := k.n as real;
    HigherSwipe(k.n, u, k.beginT, Accumulated(k.dx, e.0, n), Accumulated(k.dy, e.1, n), Accumulated(k.d2s, e.2, n))
  }

  /** What one `process` call does. */
  datatype Processed =
    | Continue(g: Gesture, out: Option<Values>)
    | Terminate
    | ProcessFailed

  /** Feeding the raw values of a frame through the gate of `g`. */
  function Feed(g: Gesture, k: Kind, values: Values, c: Config): (r: Processed)
    ensures r.Continue? ==> r.g.serial == g.serial && r.g.kind == k
    ensures r.Continue? && r.g.pending ==> r.out.None?
  {
    match UpdateGate(g.pending, g.offset, values, c)
    case GateFailed => ProcessFailed
    case Gated(p, off, out) => Continue(Gesture(g.serial, k, p, off), out)
  }

  /** `process` of the three gesture kinds. */
  function Process(g: Gesture, u: TouchpadUpdate, c: Config, hypot: (real, real) -> real): (r: Processed)
    ensures r.Continue? ==> r.g.serial == g.serial
    ensures r.Continue? && r.g.pending ==> r.out.None?
  {
    match g.kind
    case SingleFingerMove(ix, iy) =>
      if u.nTouches != 1 || |u.touches| != 1 then Terminate
      else Feed(g, g.kind, map[DeltaX := u.touches[0].x - ix, DeltaY := u.touches[0].y - iy], c)
    case TwoFingerSwipePinch(cx0, cy0, d0) =>
      if u.nTouches != 2 then Terminate
      else if |u.touches| != 2 then Continue(g, None)
      else if d0 == 0.0 then ProcessFailed
      else
        var (cx, cy, d) := TwoFingerMeasure(u.touches, c, hypot);
        Feed(g, g.kind, map[DeltaX := cx - cx0, DeltaY := cy - cy0, Scale := d / d0], c)
    case HigherSwipe(n, last, t0, dx, dy, d2s) =>
      if u.nTouches > n && u.t - t0 < 0.2 then Terminate
      else if u.nTouches == 0 then Terminate
      else if |u.touches| == 0 then Continue(g, None)
      else if n == 0 then ProcessFailed
      else
        var k := HigherStep(g.kind, u, Displacement(last.touches, u.touches));
        Feed(g, k, map[DeltaX := k.dx, DeltaY := k.dy, Delta2S := k.d2s], c)
  }

  /** A gesture that stays pending delivers nothing; one that validates on
      this frame delivers exactly the centers of its keys. */
  lemma GateDeliversCentersFirst(g: Gesture, u: TouchpadUpdate, c: Config, hypot: (real, real) -> real)
    requires g.pending && Process(g, u, c, hypot).Continue?
    ensures var r := Process(g, u, c, hypot);
            (r.g.pending ==> r.out.None?)
            && (!r.g.pending ==> r.out.Some? && forall k :: k in r.out.value ==> r.out.value[k] == Center(k))
  {
  }

  /** The single-finger gesture continues exactly while one finger is
      reported and one touch listed, and reports its displacement from the
      first frame. */
  lemma SingleFingerSpec(ix: real, iy: real, g: Gesture, u: TouchpadUpdate, c: Config, hypot: (real, real) -> real)
    requires g.kind == SingleFingerMove(ix, iy) && !g.pending && g.offset.Some?
    requires g.offset.value.Keys == {DeltaX, DeltaY}
    ensures Process(g, u, c, hypot).Terminate? <==> !(u.nTouches == 1 && |u.touches| == 1)
    ensures Process(g, u, c, hypot).Continue? ==>
              var out := Process(g, u, c, hypot).out.value;
              && out.Keys == {DeltaX, DeltaY}
              && out[DeltaX] == u.touches[0].x - ix - g.offset.value[DeltaX]
              && out[DeltaY] == u.touches[0].y - iy - g.offset.value[DeltaY]
  {
  }

  /** The two-finger gesture terminates exactly when the finger count is
      not 2; a frame with another number of touches changes nothing; its
      scale is the floored distance over the initial one. */
  lemma TwoFingerSpec(cx0: real, cy0: real, d0: real, g: Gesture, u: TouchpadUpdate, c: Config, hypot: (real, real) -> real)
    requires g.kind == TwoFingerSwipePinch(cx0, cy0, d0)
    ensures Process(g, u, c, hypot).Terminate? <==> u.nTouches != 2
    ensures u.nTouches == 2 && |u.touches| != 2 ==> Process(g, u, c, hypot) == Continue(g, None)
    ensures Process(g, u, c, hypot).ProcessFailed? ==> d0 == 0.0 || (!g.pending && g.offset.Some?)
    ensures u.nTouches == 2 && |u.touches| == 2 && d0 != 0.0 && !g.pending && g.offset.Some? && g.offset.value.Keys == {DeltaX, DeltaY, Scale} ==>
              var m := TwoFingerMeasure(u.touches, c, hypot);
              && Process(g, u, c, hypot).Continue?
              && Process(g, u, c, hypot).out.value.Keys == {DeltaX, DeltaY, Scale}
              && Process(g, u, c, hypot).out.value[Scale] == m.2 / d0 - g.offset.value[Scale]
              && Process(g, u, c, hypot).out.value[DeltaX] == m.0 - cx0 - g.offset.value[DeltaX]
              && Process(g, u, c, hypot).out.value[DeltaY] == m.1 - cy0 - g.offset.value[DeltaY]
  {
  }

  /** The higher swipe terminates on a rise of the finger count within 0.2
      seconds of its start, or when no finger is left; a frame without
      touches changes nothing; the accumulated squared displacement never
      decreases. */
  lemma HigherSwipeSpec(g: Gesture, u: TouchpadUpdate, c: Config, hypot: (real, real) -> real)
    requires g.kind.HigherSwipe? && g.kind.n >= 3
    ensures var k := g.kind;
            Process(g, u, c, hypot).Terminate? <==> (u.nTouches > k.n && u.t - k.beginT < 0.2) || u.nTouches == 0
    ensures !Process(g, u, c, hypot).Terminate? && |u.touches| == 0 ==> Process(g, u, c, hypot) == Continue(g, None)
    ensures Process(g, u, c, hypot).Continue? ==>
              var k' := Process(g, u, c, hypot).g.kind;
              && k'.HigherSwipe? && k'.n == g.kind.n && k'.beginT == g.kind.beginT
              && k'.d2s >= g.kind.d2s
              && (|u.touches| > 0 ==> k'.last == u)
  {
    if Process(g, u, c, hypot).Continue? && |u.touches| > 0 {
      assert Process(g, u, c, hypot).g.kind == HigherStep(g.kind, u, Displacement(g.kind.last.touches, u.touches));
    }
  }

  /** The two-finger example: a pair 0.2 apart that moves to 0.4 apart
      reports scale 2 once validated by that frame's offset of 1. */
  lemma PinchDoublesScale(hypot: (real, real) -> real)
    requires hypot(-0.2, 0.0) == 0.2 && hypot(-0.4, 0.0) == 0.4
    ensures var c := DefaultConfig();
            var u0 := TouchpadUpdate(0.0, 2, [Touch(1, 0.4, 0.5, 1.0), Touch(2, 0.6, 0.5, 1.0)]);
            var u1 := TouchpadUpdate(0.1, 2, [Touch(1, 0.3, 0.5, 1.0), Touch(2, 0.7, 0.5, 1.0)]);
            var g := NewGesture(0, u0, c, hypot).value.value;
            var r := Process(g, u1, c, hypot);
            && g.kind.initialDist == 0.2
            && r.Continue? && !r.g.pending
            && r.g.offset == Some(map[DeltaX := 0.0, DeltaY := 0.0, Scale := 1.0])
  {
    var c := DefaultConfig();
    var u0 := TouchpadUpdate(0.0, 2, [Touch(1, 0.4, 0.5, 1.0), Touch(2, 0.6, 0.5, 1.0)]);
    var u1 := TouchpadUpdate(0.1, 2, [Touch(1, 0.3, 0.5, 1.0), Touch(2, 0.7, 0.5, 1.0)]);
    assert TwoFingerMeasure(u0.touches, c, hypot) == (0.5, 0.5, 0.2);
    assert TwoFingerMeasure(u1.touches, c, hypot) == (0.5, 0.5, 0.4);
    var g := NewGesture(0, u0, c, hypot).value.value;
    assert g == Gesture(0, TwoFingerSwipePinch(0.5, 0.5, 0.2), true, None);
    var values := map[DeltaX := 0.0, DeltaY := 0.0, Scale := 2.0];
    assert Abs(values[Scale] - Center(Scale)) > Threshold(c, Scale);
    assert Exceeds(values, c);
    var off := map k | k in values :: values[k] - Center(k);
    assert off.Keys == {DeltaX, DeltaY, Scale};
    assert off == map[DeltaX := 0.0, DeltaY := 0.0, Scale := 1.0];
    assert Process(g, u1, c, hypot) == Feed(g, g.kind, values, c);
  }

  /** What a listener of the recogniser or of a gesture observes. */
  datatype Event =
    | Started(serial: nat)                    // the recogniser's listeners get the gesture
    | Delivered(serial: nat, values: Values)  // the gesture's listeners get values
    | Terminated(serial: nat)                 // the gesture's listeners get `terminate`

  /** `Gestures`: the active gesture, the serial of the next one, and the
      shared configuration. */
  datatype Recogniser = Recogniser(active: Option<Gesture>, nextSerial: nat, config: Config)

  const NewRecogniser: Recogniser := Recogniser(None, 0, DefaultConfig())

  /** One input to the recogniser. */
  datatype Input =
    | Frame(u: TouchpadUpdate)
    | Reset
    | Configure(c: Config)

  /** The outcome of one input: the new state and the events it produced,
      or a raise after the events delivered so far, leaving state `r`. */
  datatype Stepped =
    | Stepped(r: Recogniser, events: seq<Event>)
    | Failed(r: Recogniser, events: seq<Event>)

  function DeliveredEvents(serial: nat, out: Option<Values>): seq<Event>
  {
    if out.Some? then [Delivered(serial, out.value)] else []
  }

  /** `Gestures.on_update`. */
  function OnFrame(rc: Recogniser, u: TouchpadUpdate, hypot: (real, real) -> real): (s: Stepped)
  {
    // Feed the active gesture.
    var fed: Option<(Option<Gesture>, seq<Event>, bool)> :=
      match rc.active
      case None => Some((None, [], true))
      case Some(g) =>
        match Process(g, u, rc.config, hypot)
        case ProcessFailed => None
        case Terminate => Some((None, [Terminated(g.serial)], g.pending))
        case Continue(g', out) => Some((Some(g'), DeliveredEvents(g.serial, out), g.pending));
    match fed
    case None => Failed(rc, [])
    case Some((cur, evs, wasPending)) =>
      if cur.Some? then
        var g := cur.value;
        var started := if wasPending && !g.pending then [Started(g.serial)] else [];
        Stepped(rc.(active := cur), evs + started)
      else
        match NewGesture(rc.nextSerial, u, rc.config, hypot)
        case None => Stepped(rc.(active := None), evs)
        case Some(None) => Failed(rc.(active := None), evs)
        case Some(Some(g)) => Stepped(Recogniser(Some(g), rc.nextSerial + 1, rc.config), evs)
  }

  /** Handling one input: a frame, `reset` (the gesture is dropped without
      `terminate`) or `update_config`. */
  function Handle(rc: Recogniser, i: Input, hypot: (real, real) -> real): Stepped
  {
    match i
    case Frame(u) => OnFrame(rc, u, hypot)
    case Reset => Stepped(rc.(active := None), [])
    case Configure(c) => Stepped(rc.(config := c), [])
  }

  /** The active gesture's serial is below the next serial. */
  predicate RecWf(rc: Recogniser)
  {
    rc.active.Some? ==> rc.active.value.serial < rc.nextSerial
  }

  /** One frame only produces events about the gesture that was active
      before it; a termination is the last of them and leaves either no
      gesture or a fresh one; without termination the same gesture stays.
      This holds for a frame that raises as well, with the events
      delivered before the raise. */
  lemma OnFrameEvents(rc: Recogniser, u: TouchpadUpdate, hypot: (real, real) -> real)
    requires RecWf(rc)
    ensures var s := OnFrame(rc, u, hypot);
            && RecWf(s.r)
            && s.r.nextSerial >= rc.nextSerial
            && (forall e :: e in s.events ==> rc.active.Some? && e.serial == rc.active.value.serial)
            && (forall k :: 0 <= k < |s.events| && s.events[k].Terminated? ==> k == |s.events| - 1)
            && (|s.events| > 0 && s.events[|s.events| - 1].Terminated? ==>
                  s.r.active.None? || s.r.active.value.serial >= rc.nextSerial)
            && (!(|s.events| > 0 && s.events[|s.events| - 1].Terminated?) && rc.active.Some? ==>
                  s.r.active.Some? && s.r.active.value.serial == rc.active.value.serial)
  {
  }

  /** Listeners of the recogniser learn of a gesture only when that same
      gesture flips from pending to validated. */
  lemma StartedOnlyOnValidation(rc: Recogniser, u: TouchpadUpdate, hypot: (real, real) -> real)
    ensures var s := OnFrame(rc, u, hypot);
            forall e :: e in s.events && e.Started? ==>
              && rc.active.Some? && rc.active.value.pending
              && s.r.active.Some? && s.r.active.value.serial == rc.active.value.serial && !s.r.active.value.pending
  {
  }

  /** The frame that validates a gesture is delivered to the gesture's
      listeners before the recogniser's listeners learn of the gesture. As
      those attach the gesture's listeners only when they learn of it, the
      validating frame, whose values are exactly the gate's centers,
      reaches no listener. */
  lemma ValidationDeliversBeforeStart(rc: Recogniser, u: TouchpadUpdate, hypot: (real, real) -> real)
    requires rc.active.Some? && rc.active.value.pending
    ensures var s, serial := OnFrame(rc, u, hypot), rc.active.value.serial;
            Started(serial) in s.events ==>
              && |s.events| == 2 && s.events[1] == Started(serial)
              && s.events[0].Delivered? && s.events[0].serial == serial
              && forall k :: k in s.events[0].values ==> s.events[0].values[k] == Center(k)
  {
    var g := rc.active.value;
    var s := OnFrame(rc, u, hypot);
    if Started(g.serial) in s.events {
      var r := Process(g, u, rc.config, hypot);
      assert r.Continue? && !r.g.pending;
      GateDeliversCentersFirst(g, u, rc.config, hypot);
      assert s.events == [Delivered(g.serial, r.out.value), Started(g.serial)];
    }
  }

  /** With no gesture active, the frame's finger count picks the new one:
      one finger a single-finger move, two a swipe/pinch, more a higher
      swipe, none no gesture. */
  lemma Classification(rc: Recogniser, u: TouchpadUpdate, hypot: (real, real) -> real)
    requires rc.active.None? && OnFrame(rc, u, hypot).Stepped?
    ensures var s := OnFrame(rc, u, hypot);
            && s.events == []
            && (u.nTouches <= 0 <==> s.r.active.None?)
            && (u.nTouches == 1 ==> s.r.active.value.kind.SingleFingerMove?)
            && (u.nTouches == 2 ==> s.r.active.value.kind.TwoFingerSwipePinch?)
            && (u.nTouches > 2 ==> s.r.active.value.kind.HigherSwipe? && s.r.active.value.kind.n == u.nTouches)
            && (s.r.active.Some? ==> s.r.active.value.pending)
  {
  }

  /** A frame raises in one of two ways. Either the active gesture's
      `process` raises, which delivers nothing and leaves the state as it
      was; or no gesture survives the frame and the constructor of the next
      one fails its assertion, after the ended gesture's `terminate` has
      been delivered, which leaves no gesture. */
  lemma FailedFrame(rc: Recogniser, u: TouchpadUpdate, hypot: (real, real) -> real)
    ensures var s := OnFrame(rc, u, hypot);
            s.Failed? <==>
              || (rc.active.Some? && Process(rc.active.value, u, rc.config, hypot).ProcessFailed?)
              || ((rc.active.None? || Process(rc.active.value, u, rc.config, hypot).Terminate?)
                  && NewGesture(rc.nextSerial, u, rc.config, hypot) == Some(None))
    ensures var s := OnFrame(rc, u, hypot);
            rc.active.Some? && Process(rc.active.value, u, rc.config, hypot).ProcessFailed? ==>
              s == Failed(rc, [])
    ensures var s := OnFrame(rc, u, hypot);
            s.Failed? && (rc.active.None? || Process(rc.active.value, u, rc.config, hypot).Terminate?) ==>
              && s.r == rc.(active := None)
              && s.events == (if rc.active.Some? then [Terminated(rc.active.value.serial)] else [])
  {
  }

  /** A single finger that ends the single-finger move while the frame
      lists two touches: the move's `terminate` is delivered, then the next
      single-finger constructor fails its assertion, which ends the run
      with no gesture active. */
  lemma TerminationBeforeFailedConstructor()
    ensures var g := Gesture(0, SingleFingerMove(0.1, 0.1), true, None);
            var rc := Recogniser(Some(g), 1, DefaultConfig());
            var u := TouchpadUpdate(1.0, 1, [Touch(1, 0.1, 0.1, 1.0), Touch(2, 0.5, 0.5, 1.0)]);
            Run(rc, [Frame(u)], (x, y) => 0.0) == (rc.(active := None), [Terminated(0)], true)
  {
    var g := Gesture(0, SingleFingerMove(0.1, 0.1), true, None);
    var rc := Recogniser(Some(g), 1, DefaultConfig());
    var u := TouchpadUpdate(1.0, 1, [Touch(1, 0.1, 0.1, 1.0), Touch(2, 0.5, 0.5, 1.0)]);
    assert Process(g, u, rc.config, (x, y) => 0.0) == Terminate;
    assert OnFrame(rc, u, (x, y) => 0.0) == Failed(rc.(active := None), [Terminated(0)]);
  }

  /** Running the recogniser over a sequence of inputs. An input that
      raises ends the run, as it ends the reader thread, after the events
      it delivered; the flag reports that. */
  function Run(rc: Recogniser, ins: seq<Input>, hypot: (real, real) -> real): (r: (Recogniser, seq<Event>, bool))
    decreases |ins|
  {
    if |ins| == 0 then (rc, [], false)
    else
      match Handle(rc, ins[0], hypot)
      case Failed(rc', evs) => (rc', evs, true)
      case Stepped(rc', evs) =>
        var (fin, rest, failed) := Run(rc', ins[1..], hypot);
        (fin, evs + rest, failed)
  }

  /** No event of `evs` names a serial from `done`. */
  ghost predicate Avoids(evs: seq<Event>, done: set<nat>)
  {
    forall k :: 0 <= k < |evs| ==> evs[k].serial !in done
  }

  /** No event follows the termination of the gesture it names. */
  ghost predicate TerminationFinal(evs: seq<Event>)
  {
    forall i, j :: 0 <= i < j < |evs| && evs[i].Terminated? ==> evs[j].serial != evs[i].serial
  }

  /** The serials retired after a step that reported `evs`. */
  function Retired(done: set<nat>, evs: seq<Event>): set<nat>
  {
    if |evs| > 0 && evs[|evs| - 1].Terminated? then done + {evs[|evs| - 1].serial} else done
  }

  /** One input keeps the bookkeeping of `RunAvoids`: its events avoid the
      retired serials, a termination is its last event and retires its
      serial, and the gesture left active is not retired. */
  lemma HandleAvoids(rc: Recogniser, i: Input, hypot: (real, real) -> real, done: set<nat>)
    requires RecWf(rc)
    requires rc.active.Some? ==> rc.active.value.serial !in done
    requires forall s :: s in done ==> s < rc.nextSerial
    ensures var s := Handle(rc, i, hypot);
            var done' := Retired(done, s.events);
            && RecWf(s.r)
            && (s.r.active.Some? ==> s.r.active.value.serial !in done')
            && (forall d :: d in done' ==> d < s.r.nextSerial)
            && Avoids(s.events, done)
            && (forall k :: 0 <= k < |s.events| && s.events[k].Terminated? ==> k == |s.events| - 1)
  {
    if i.Frame? {
      OnFrameEvents(rc, i.u, hypot);
    }
  }

  /** Appending the events of later steps to those of one step keeps
      terminations final. */
  lemma {:induction false} AppendFinal(evs: seq<Event>, rest: seq<Event>, done: set<nat>)
    requires forall k :: 0 <= k < |evs| && evs[k].Terminated? ==> k == |evs| - 1
    requires Avoids(rest, Retired(done, evs))
    requires TerminationFinal(rest)
    ensures TerminationFinal(evs + rest)
  {
    var all := evs + rest;
    forall i, j | 0 <= i < j < |all| && all[i].Terminated?
      ensures all[j].serial != all[i].serial
    {
      if i < |evs| {
        assert all[i] == evs[|evs| - 1];
        assert all[j] == rest[j - |evs|];
        assert rest[j - |evs|].serial !in Retired(done, evs);
      } else {
        var i', j' := i - |evs|, j - |evs|;
        assert all[i] == rest[i'] && all[j] == rest[j'];
      }
    }
  }

  /** Once a gesture's termination has been reported, no event about it
      follows: `terminate` fires at most once per gesture, and nothing is
      delivered after it. */
  lemma TerminatedIsFinal(rc: Recogniser, ins: seq<Input>, hypot: (real, real) -> real)
    requires RecWf(rc)
    ensures var evs := Run(rc, ins, hypot).1;
            forall i, j :: 0 <= i < j < |evs| && evs[i].Terminated? ==> evs[j].serial != evs[i].serial
  {
    RunAvoids(rc, ins, hypot, {});
  }

  /** Events of a run never name a serial from `done`, provided the active
      gesture is not in `done` and `done` lies below the next serial; and a
      termination is never followed by an event about the same gesture. */
  lemma {:induction false} RunAvoids(rc: Recogniser, ins: seq<Input>, hypot: (real, real) -> real, done: set<nat>)
    requires RecWf(rc)
    requires rc.active.Some? ==> rc.active.value.serial !in done
    requires forall s :: s in done ==> s < rc.nextSerial
    ensures Avoids(Run(rc, ins, hypot).1, done)
    ensures TerminationFinal(Run(rc, ins, hypot).1)
    decreases |ins|
  {
    if |ins| == 0 {
      return;
    }
    match Handle(rc, ins[0], hypot)
    case Failed(_, evs) =>
      HandleAvoids(rc, ins[0], hypot, done);
      assert Run(rc, ins, hypot).1 == evs;
    case Stepped(rc', evs) =>
      var rest := Run(rc', ins[1..], hypot).1;
      assert Run(rc, ins, hypot).1 == evs + rest;
      HandleAvoids(rc, ins[0], hypot, done);
      var done' := Retired(done, evs);
      RunAvoids(rc', ins[1..], hypot, done');
      AppendFinal(evs, rest, done);
      assert done <= done';
      var all := evs + rest;
      forall k | 0 <= k < |all|
        ensures all[k].serial !in done
      {
        if k >= |evs| {
          assert all[k] == rest[k - |evs|];
        }
      }
  }
}
