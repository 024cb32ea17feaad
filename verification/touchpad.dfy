/** The raw decoder of pywm/touchpad/touchpad.py: the multitouch slot table,
    the per-event dispatch of `Touchpad.run` and the frame assembly of
    `synchronize`. The reader thread, `select` and the evdev device are
    replaced by an explicit sequence of events; the wall clock read when a
    frame is assembled is carried by each event. An exception inside the
    loop ends the thread; it is modelled as the terminal state `Crashed`. */
module Touchpad {
  import opened Util
  import opened TouchData

  /** Linux input event types and codes (linux/input-event-codes.h). */
  const EV_SYN: int := 0
  const EV_KEY: int := 1
  const EV_ABS: int := 3
  const BTN_TOOL_FINGER: int := 0x145
  const BTN_TOOL_QUINTTAP: int := 0x148
  const BTN_TOOL_DOUBLETAP: int := 0x14d
  const BTN_TOOL_TRIPLETAP: int := 0x14e
  const BTN_TOOL_QUADTAP: int := 0x14f
  const ABS_MT_SLOT: int := 0x2f
  const ABS_MT_POSITION_X: int := 0x35
  const ABS_MT_POSITION_Y: int := 0x36
  const ABS_MT_TRACKING_ID: int := 0x39
  const ABS_MT_PRESSURE: int := 0x3a

  /** The slot count the reader assumes (it is not read from the device). */
  const DefaultSlots: nat := 2

  /** One multitouch slot: its index, tracking id and raw coordinates. */
  datatype Slot = Slot(n: nat, trackingId: int, x: int, y: int, z: int)

  function NewSlot(n: nat): Slot
  {
    Slot(n, -1, -1, -1, -1)
  }

  predicate Active(s: Slot)
  {
    s.trackingId >= 0
  }

  /** `Slot.set_tracking_id`: a negative id also forgets the coordinates. */
  function SetTrackingId(s: Slot, i: int): (r: Slot)
    ensures r.n == s.n && r.trackingId == i
    ensures Active(r) <==> i >= 0
    ensures i < 0 ==> r.x == -1 && r.y == -1 && r.z == -1
    ensures i >= 0 ==> r.x == s.x && r.y == s.y && r.z == s.z
  {
    if i < 0 then Slot(s.n, i, -1, -1, -1) else s.(trackingId := i)
  }

  /** The slot list is indexed by slot number. */
  predicate SlotsWf(slots: seq<Slot>)
  {
    forall k :: 0 <= k < |slots| ==> slots[k].n == k
  }

  /** The slot list after `_get_slot(n)` has grown it; None where the source
      raises "Invalid slot" for a negative index. */
  function GrowSlots(slots: seq<Slot>, n: int): (r: Option<seq<Slot>>)
    ensures r.None? <==> n < 0
    ensures r.Some? ==> |r.value| == if n < |slots| then |slots| else n + 1
    ensures r.Some? ==> r.value[..|slots|] == slots
    ensures r.Some? ==> forall k :: |slots| <= k < |r.value| ==> r.value[k] == NewSlot(k)
    decreases if n < 0 then 0 else n + 1 - |slots|
  {
    if n < 0 then None
    else if n < |slots| then Some(slots)
    else GrowSlots(slots + [NewSlot(|slots|)], n)
  }

  /** Growing keeps the slot list indexed by slot number. */
  lemma GrowSlotsWf(slots: seq<Slot>, n: int)
    requires SlotsWf(slots) && n >= 0
    ensures SlotsWf(GrowSlots(slots, n).value)
    ensures n < |GrowSlots(slots, n).value|
    ensures GrowSlots(slots, n).value[n].n == n
  {
    var r := GrowSlots(slots, n).value;
    forall k | 0 <= k < |r|
      ensures r[k].n == k
    {
      if k < |slots| {
        assert r[k] == r[..|slots|][k];
      }
    }
  }

  /** Which slot field an ABS event writes. */
  datatype SlotField = TrackingId | PosX | PosY | Pressure

  function SetField(s: Slot, f: SlotField, v: int): Slot
  {
    match f
    case TrackingId => SetTrackingId(s, v)
    case PosX => s.(x := v)
    case PosY => s.(y := v)
    case Pressure => s.(z := v)
  }

  /** `self._get_slot(slot).<field> = value`: None for a negative slot. */
  function WriteSlot(slots: seq<Slot>, n: int, f: SlotField, v: int): (r: Option<seq<Slot>>)
    ensures r.None? <==> n < 0
    ensures r.Some? ==> |r.value| == if n < |slots| then |slots| else n + 1
    ensures r.Some? ==> r.value[n] == SetField(if n < |slots| then slots[n] else NewSlot(n), f, v)
    ensures r.Some? ==> forall k :: 0 <= k < |slots| && k != n ==> r.value[k] == slots[k]
    ensures r.Some? ==> forall k :: |slots| <= k < |r.value| && k != n ==> r.value[k] == NewSlot(k)
  {
    match GrowSlots(slots, n)
    case None => None
    case Some(g) =>
      assert forall k :: 0 <= k < |slots| ==> g[k] == g[..|slots|][k];
      Some(g[n := SetField(g[n], f, v)])
  }

  /** The range `info.min`/`info.max` of an absolute axis. */
  datatype AxisRange = AxisRange(min: int, max: int)

  /** The three axes read from the device's capabilities; None where the
      device does not report the axis. */
  datatype Axes = Axes(x: Option<AxisRange>, y: Option<AxisRange>, z: Option<AxisRange>)

  /** The constructor's scan of the ABS capabilities: the last entry for each
      axis code wins. */
  function AxesOf(caps: seq<(int, AxisRange)>): (a: Axes)
    ensures a.x.Some? <==> exists k :: 0 <= k < |caps| && caps[k].0 == ABS_MT_POSITION_X
    ensures a.y.Some? <==> exists k :: 0 <= k < |caps| && caps[k].0 == ABS_MT_POSITION_Y
    ensures a.z.Some? <==> exists k :: 0 <= k < |caps| && caps[k].0 == ABS_MT_PRESSURE
  {
    if |caps| == 0 then Axes(None, None, None)
    else
      var a := AxesOf(caps[..|caps| - 1]);
      var (code, info) := caps[|caps| - 1];
      assert forall k :: 0 <= k < |caps| - 1 ==> caps[..|caps| - 1][k] == caps[k];
      if code == ABS_MT_POSITION_X then a.(x := Some(info))
      else if code == ABS_MT_POSITION_Y then a.(y := Some(info))
      else if code == ABS_MT_PRESSURE then a.(z := Some(info))
      else a
  }

  /** `(v - min) / (max - min)`, with Python's true division; None where
      Python raises (no range: TypeError on None; empty range:
      ZeroDivisionError). */
  function Normalise(v: int, a: Option<AxisRange>): (r: Option<real>)
    ensures r.Some? <==> a.Some? && a.value.max != a.value.min
    ensures r.Some? ==> r.value * (a.value.max - a.value.min) as real == (v - a.value.min) as real
  {
    match a
    case None => None
    case Some(rg) =>
      if rg.max == rg.min then None
      else Some((v - rg.min) as real / (rg.max - rg.min) as real)
  }

  /** Values inside a proper range normalise into [0, 1]. */
  lemma NormaliseUnit(v: int, rg: AxisRange)
    requires rg.min < rg.max && rg.min <= v <= rg.max
    ensures 0.0 <= Normalise(v, Some(rg)).value <= 1.0
  {
  }

  /** The pressure column: the normalised pressure, or 1.0 when the device
      reports no pressure axis. */
  function PressureOf(v: int, a: Option<AxisRange>): (r: Option<real>)
    ensures a.None? ==> r == Some(1.0)
    ensures a.Some? ==> r == Normalise(v, a)
  {
    if a.None? then Some(1.0) else Normalise(v, a)
  }

  /** The emitted tuple for one active slot. */
  function TouchOf(s: Slot, axes: Axes): (r: Option<Touch>)
    ensures r.Some? <==> Normalise(s.x, axes.x).Some? && Normalise(s.y, axes.y).Some? && PressureOf(s.z, axes.z).Some?
    ensures r.Some? ==> r.value == Touch(s.trackingId, Normalise(s.x, axes.x).value,
                                         Normalise(s.y, axes.y).value, PressureOf(s.z, axes.z).value)
  {
    match (Normalise(s.x, axes.x), Normalise(s.y, axes.y), PressureOf(s.z, axes.z))
    case (Some(x), Some(y), Some(z)) => Some(Touch(s.trackingId, x, y, z))
    case _ => None
  }

  /** The active slots in slot order. */
  function ActiveSlots(slots: seq<Slot>): (r: seq<Slot>)
    ensures forall s :: s in r <==> s in slots && Active(s)
    ensures |r| <= |slots|
    ensures (forall k :: 0 <= k < |slots| ==> !Active(slots[k])) ==> r == []
  {
    if |slots| == 0 then []
    else if Active(slots[0]) then [slots[0]] + ActiveSlots(slots[1..])
    else ActiveSlots(slots[1..])
  }

  /** Each active slot listed from a table whose slot numbers count up
      from `base` is the table's entry for its number. */
  lemma ActiveSlotsFromTable(slots: seq<Slot>, base: nat)
    requires forall k :: 0 <= k < |slots| ==> slots[k].n == base + k
    ensures forall i :: 0 <= i < |ActiveSlots(slots)| ==>
              base <= ActiveSlots(slots)[i].n < base + |slots|
              && slots[ActiveSlots(slots)[i].n - base] == ActiveSlots(slots)[i]
  {
    var r := ActiveSlots(slots);
    forall i | 0 <= i < |r|
      ensures base <= r[i].n < base + |slots| && slots[r[i].n - base] == r[i]
    {
      assert r[i] in r;
      var k :| 0 <= k < |slots| && slots[k] == r[i];
      assert r[i].n - base == k;
    }
  }

  /** The tail of a table numbered from `base` is numbered from `base + 1`. */
  lemma TailCountsOn(slots: seq<Slot>, base: nat)
    requires |slots| > 0 && forall k :: 0 <= k < |slots| ==> slots[k].n == base + k
    ensures forall k :: 0 <= k < |slots[1..]| ==> slots[1..][k].n == (base + 1) + k
  {
    forall k | 0 <= k < |slots[1..]| ensures slots[1..][k].n == (base + 1) + k {
      assert slots[1..][k] == slots[k + 1];
    }
  }

  /** The active slots keep the table's order: their slot numbers strictly
      increase. */
  lemma {:induction false} ActiveSlotsInOrder(slots: seq<Slot>, base: nat)
    requires forall k :: 0 <= k < |slots| ==> slots[k].n == base + k
    ensures forall i, j :: 0 <= i < j < |ActiveSlots(slots)| ==> ActiveSlots(slots)[i].n < ActiveSlots(slots)[j].n
  {
    if |slots| > 0 && Active(slots[0]) {
      var tail := slots[1..];
      TailCountsOn(slots, base);
      ActiveSlotsInOrder(tail, base + 1);
      ActiveSlotsFromTable(tail, base + 1);
      ActiveHead(slots, base);
    } else if |slots| > 0 {
      TailCountsOn(slots, base);
      ActiveSlotsInOrder(slots[1..], base + 1);
    }
  }

  /** With an active first slot, the list is that slot followed by the
      tail's list, and the first slot has the smallest number. */
  lemma ActiveHead(slots: seq<Slot>, base: nat)
    requires |slots| > 0 && Active(slots[0]) && slots[0].n == base
    requires forall i :: 0 <= i < |ActiveSlots(slots[1..])| ==> base + 1 <= ActiveSlots(slots[1..])[i].n
    requires forall i, j :: 0 <= i < j < |ActiveSlots(slots[1..])| ==> ActiveSlots(slots[1..])[i].n < ActiveSlots(slots[1..])[j].n
    ensures forall i, j :: 0 <= i < j < |ActiveSlots(slots)| ==> ActiveSlots(slots)[i].n < ActiveSlots(slots)[j].n
  {
    var r, rt := ActiveSlots(slots), ActiveSlots(slots[1..]);
    assert r == [slots[0]] + rt;
    forall i, j | 0 <= i < j < |r|
      ensures r[i].n < r[j].n
    {
      assert r[j] == rt[j - 1];
      if i > 0 {
        assert r[i] == rt[i - 1];
      }
    }
  }

  /** In a table indexed by slot number the frame lists as many slots as
      the table has active ones. */
  lemma ActiveSlotsCount(slots: seq<Slot>)
    requires SlotsWf(slots)
    ensures |ActiveSlots(slots)| == |set s | s in slots && Active(s)|
  {
    var r := ActiveSlots(slots);
    ActiveSlotsInOrder(slots, 0);
    assert forall i, j :: 0 <= i < j < |r| ==> r[i].n < r[j].n;
    assert (set s | s in r) == (set s | s in slots && Active(s));
    DistinctCard(r);
  }

  /** A list of distinct slots has as many elements as its set. */
  lemma {:induction false} DistinctCard(r: seq<Slot>)
    requires forall i, j :: 0 <= i < j < |r| ==> r[i].n < r[j].n
    ensures |set s | s in r| == |r|
  {
    if |r| > 0 {
      DistinctCard(r[1..]);
      SetOfCons(r);
    }
  }

  /** The elements of a list with increasing slot numbers: its head, which
      its tail lacks, and the tail's elements. */
  lemma SetOfCons(r: seq<Slot>)
    requires |r| > 0 && forall j :: 0 < j < |r| ==> r[0].n < r[j].n
    ensures (set s | s in r) == {r[0]} + (set s | s in r[1..])
    ensures r[0] !in (set s | s in r[1..])
  {
    assert r == [r[0]] + r[1..];
  }

  /** The touch list of a frame: one tuple per active slot, in order; None
      where a normalisation raises. */
  function TouchesOf(active: seq<Slot>, axes: Axes): (r: Option<seq<Touch>>)
    ensures r.Some? <==> forall k :: 0 <= k < |active| ==> TouchOf(active[k], axes).Some?
    ensures r.Some? ==> |r.value| == |active|
    ensures r.Some? ==> forall k :: 0 <= k < |active| ==> r.value[k] == TouchOf(active[k], axes).value
  {
    if |active| == 0 then Some([])
    else
      match (TouchOf(active[0], axes), TouchesOf(active[1..], axes))
      case (Some(t), Some(ts)) => Some([t] + ts)
      case (None, _) => None
      case (_, None) =>
        assert exists k :: 0 <= k < |active| && !TouchOf(active[k], axes).Some? by {
          var k :| 0 <= k < |active| - 1 && !TouchOf(active[1..][k], axes).Some?;
          assert active[1..][k] == active[k + 1];
        }
        None
  }

  /** The reader's state: the finger count of the last BTN_TOOL_* press, the
      assumed slot count, the slot table, the current slot (the local `slot`
      of `run`) and the device's axes. */
  datatype Reader = Reader(nTouches: int, nSlots: nat, slots: seq<Slot>, current: int, axes: Axes)

  /** The constructor followed by the start of `run`. */
  function NewReader(caps: seq<(int, AxisRange)>): (r: Reader)
    ensures r.nTouches == 0 && r.nSlots == DefaultSlots && r.slots == [] && r.current == 0
    ensures r.axes == AxesOf(caps)
  {
    Reader(0, DefaultSlots, [], 0, AxesOf(caps))
  }

  /** What `synchronize` does. */
  datatype SyncResult =
    | Emitted(reader: Reader, update: TouchpadUpdate)
    | Skipped(reader: Reader)
    | SyncFailed

  /** `synchronize` at wall-clock time `now`. */
  function Synchronize(rd: Reader, now: real): (r: SyncResult)
    ensures r.Emitted? ==> r.update.t == now && r.update.nTouches == r.reader.nTouches
    ensures !r.SyncFailed? ==> r.reader == rd.(nTouches := r.reader.nTouches)
  {
    var active := ActiveSlots(rd.slots);
    var n := if |active| == 0 then 0 else rd.nTouches;
    var rd' := rd.(nTouches := n);
    if n >= rd.nSlots && |active| < rd.nSlots then Skipped(rd')
    else
      match TouchesOf(active, rd.axes)
      case None => SyncFailed
      case Some(ts) => Emitted(rd', TouchpadUpdate(now, n, ts))
  }

  /** With no active slot the finger count drops to 0, and the frame that
      follows is empty. */
  lemma SyncNoActive(rd: Reader, now: real)
    requires forall k :: 0 <= k < |rd.slots| ==> !Active(rd.slots[k])
    ensures Synchronize(rd, now) == Emitted(rd.(nTouches := 0), TouchpadUpdate(now, 0, []))
  {
  }

  /** A bogus sync is suppressed exactly when the finger count has reached
      the slot count while fewer slots are active. */
  lemma SyncSkipsBogus(rd: Reader, now: real)
    ensures Synchronize(rd, now).Skipped? <==>
            (|ActiveSlots(rd.slots)| > 0 && rd.nTouches >= rd.nSlots && |ActiveSlots(rd.slots)| < rd.nSlots)
  {
  }

  /** Each emitted touch carries its slot's tracking id and the slot's
      coordinates normalised against the axis ranges; without a pressure
      axis its pressure is 1.0. */
  lemma TouchOfSpec(sl: Slot, axes: Axes)
    requires TouchOf(sl, axes).Some?
    ensures var t := TouchOf(sl, axes).value;
            && t.id == sl.trackingId
            && t.x * (axes.x.value.max - axes.x.value.min) as real == (sl.x - axes.x.value.min) as real
            && t.y * (axes.y.value.max - axes.y.value.min) as real == (sl.y - axes.y.value.min) as real
            && (axes.z.None? ==> t.z == 1.0)
  {
  }

  /** An emitted frame lists exactly the active slots, in slot order, each
      as its `TouchOf` tuple, and every listed id is non-negative. */
  lemma SyncEmitsActive(rd: Reader, now: real)
    requires Synchronize(rd, now).Emitted?
    ensures var u := Synchronize(rd, now).update;
            var active := ActiveSlots(rd.slots);
            && |u.touches| == |active|
            && (forall k :: 0 <= k < |active| ==> Active(active[k]) && TouchOf(active[k], rd.axes) == Some(u.touches[k]))
            && (forall k :: 0 <= k < |active| ==> u.touches[k].id >= 0)
            && (SlotsWf(rd.slots) ==> forall i, j :: 0 <= i < j < |active| ==> active[i].n < active[j].n)
  {
    var active := ActiveSlots(rd.slots);
    if SlotsWf(rd.slots) {
      ActiveSlotsInOrder(rd.slots, 0);
    }
    var ts := TouchesOf(active, rd.axes).value;
    assert Synchronize(rd, now).update.touches == ts;
    forall k | 0 <= k < |active|
      ensures Active(active[k]) && TouchOf(active[k], rd.axes) == Some(ts[k]) && ts[k].id >= 0
    {
      assert active[k] in active;
    }
  }

  /** An emitted frame that reports at least as many fingers as slots lists
      at least that many touches. */
  lemma SyncEmitsEnough(rd: Reader, now: real)
    requires Synchronize(rd, now).Emitted?
    ensures var u := Synchronize(rd, now).update;
            u.nTouches >= rd.nSlots ==> |u.touches| >= rd.nSlots
  {
  }

  /** One event from the device, with the wall-clock time at which it is
      handled. */
  datatype InputEvent = InputEvent(t: real, kind: int, code: int, value: int)

  /** The finger count a BTN_TOOL_* key press announces; None for other
      keys. */
  function ToolFingers(code: int): (r: Option<int>)
    ensures r.Some? ==> 1 <= r.value <= 5
  {
    if code == BTN_TOOL_FINGER then Some(1)
    else if code == BTN_TOOL_DOUBLETAP then Some(2)
    else if code == BTN_TOOL_TRIPLETAP then Some(3)
    else if code == BTN_TOOL_QUADTAP then Some(4)
    else if code == BTN_TOOL_QUINTTAP then Some(5)
    else None
  }

  /** The slot field an ABS code writes; None for codes the reader ignores
      (and for ABS_MT_SLOT, which is handled separately). */
  function FieldOf(code: int): Option<SlotField>
  {
    if code == ABS_MT_TRACKING_ID then Some(TrackingId)
    else if code == ABS_MT_POSITION_X then Some(PosX)
    else if code == ABS_MT_POSITION_Y then Some(PosY)
    else if code == ABS_MT_PRESSURE then Some(Pressure)
    else None
  }

  /** The reader after one event, with the frame it emitted if any. */
  datatype Step = Running(reader: Reader, emitted: Option<TouchpadUpdate>) | Crashed

  /** One iteration of the dispatch in `run`. */
  function HandleEvent(rd: Reader, ev: InputEvent): (r: Step)
    ensures r.Running? && r.emitted.Some? ==> ev.kind == EV_SYN
    ensures r.Crashed? ==> ev.kind == EV_SYN || (ev.kind == EV_ABS && rd.current < 0)
  {
    if ev.kind == EV_SYN then
      match Synchronize(rd, ev.t)
      case Emitted(rd', u) => Running(rd', Some(u))
      case Skipped(rd') => Running(rd', None)
      case SyncFailed => Crashed
    else if ev.kind == EV_KEY then
      if ev.value == 1 && ToolFingers(ev.code).Some? then Running(rd.(nTouches := ToolFingers(ev.code).value), None)
      else Running(rd, None)
    else if ev.kind == EV_ABS then
      if ev.code == ABS_MT_SLOT then Running(rd.(current := ev.value), None)
      else match FieldOf(ev.code)
        case None => Running(rd, None)
        case Some(f) =>
          match WriteSlot(rd.slots, rd.current, f, ev.value)
          case None => Crashed
          case Some(slots) => Running(rd.(slots := slots), None)
    else Running(rd, None)
  }

  /** Only a press (value 1) of one of the five BTN_TOOL_* keys changes the
      finger count, to 1..5 respectively; every other key event changes
      nothing. */
  lemma KeyEventsSetFingerCount(rd: Reader, ev: InputEvent)
    requires ev.kind == EV_KEY
    ensures HandleEvent(rd, ev).Running? && HandleEvent(rd, ev).emitted.None?
    ensures ev.value == 1 && ev.code == BTN_TOOL_FINGER ==> HandleEvent(rd, ev).reader.nTouches == 1
    ensures ev.value == 1 && ev.code == BTN_TOOL_DOUBLETAP ==> HandleEvent(rd, ev).reader.nTouches == 2
    ensures ev.value == 1 && ev.code == BTN_TOOL_TRIPLETAP ==> HandleEvent(rd, ev).reader.nTouches == 3
    ensures ev.value == 1 && ev.code == BTN_TOOL_QUADTAP ==> HandleEvent(rd, ev).reader.nTouches == 4
    ensures ev.value == 1 && ev.code == BTN_TOOL_QUINTTAP ==> HandleEvent(rd, ev).reader.nTouches == 5
    ensures HandleEvent(rd, ev).reader.(nTouches := rd.nTouches) == rd
    ensures (ev.value != 1 || ToolFingers(ev.code).None?) ==> HandleEvent(rd, ev).reader == rd
  {
  }

  /** ABS_MT_SLOT switches the current slot and nothing else; the four slot
      codes write only the current slot (growing the table with fresh slots
      where needed) and fail on a negative slot. */
  lemma AbsEventsTouchCurrentSlot(rd: Reader, ev: InputEvent)
    requires ev.kind == EV_ABS && SlotsWf(rd.slots)
    ensures ev.code == ABS_MT_SLOT ==> HandleEvent(rd, ev) == Running(rd.(current := ev.value), None)
    ensures FieldOf(ev.code).Some? ==> (HandleEvent(rd, ev).Crashed? <==> rd.current < 0)
    ensures FieldOf(ev.code).Some? && HandleEvent(rd, ev).Running? ==>
              var s := HandleEvent(rd, ev).reader.slots;
              && SlotsWf(s)
              && (forall k :: 0 <= k < |rd.slots| && k != rd.current ==> s[k] == rd.slots[k])
              && s[rd.current].n == rd.current
              && HandleEvent(rd, ev).reader == rd.(slots := s)
  {
    if FieldOf(ev.code).Some? && rd.current >= 0 {
      var f := FieldOf(ev.code).value;
      var s := WriteSlot(rd.slots, rd.current, f, ev.value).value;
      GrowSlotsWf(rd.slots, rd.current);
      forall k | 0 <= k < |s|
        ensures s[k].n == k
      {
        if k >= |rd.slots| && k != rd.current {
          assert s[k] == NewSlot(k);
        }
      }
    }
  }

  /** Outcome of running the loop over a sequence of events. */
  datatype RunResult = RunResult(reader: Reader, updates: seq<TouchpadUpdate>, crashed: bool)

  /** `run` over a finite event sequence: frames are collected in order, and
      the first exception ends the loop. */
  function Run(rd: Reader, evs: seq<InputEvent>): (r: RunResult)
    ensures |r.updates| <= |evs|
    decreases |evs|
  {
    if |evs| == 0 then RunResult(rd, [], false)
    else
      match HandleEvent(rd, evs[0])
      case Crashed => RunResult(rd, [], true)
      case Running(rd', e) =>
        var rest := Run(rd', evs[1..]);
        var out := if e.Some? then [e.value] + rest.updates else rest.updates;
        RunResult(rest.reader, out, rest.crashed)
  }

  /** The slot table stays indexed by slot number over any run. */
  lemma {:induction false} RunKeepsSlotsWf(rd: Reader, evs: seq<InputEvent>)
    requires SlotsWf(rd.slots)
    ensures SlotsWf(Run(rd, evs).reader.slots)
    decreases |evs|
  {
    if |evs| > 0 {
      var ev := evs[0];
      match HandleEvent(rd, ev)
      case Crashed =>
      case Running(rd', e) =>
        if ev.kind == EV_ABS {
          AbsEventsTouchCurrentSlot(rd, ev);
        }
        assert SlotsWf(rd'.slots);
        RunKeepsSlotsWf(rd', evs[1..]);
    }
  }

  /** Every frame emitted over a run carries only non-negative tracking ids. */
  lemma {:induction false} RunEmitsActiveIds(rd: Reader, evs: seq<InputEvent>)
    ensures forall k, i :: 0 <= k < |Run(rd, evs).updates| && 0 <= i < |Run(rd, evs).updates[k].touches|
              ==> Run(rd, evs).updates[k].touches[i].id >= 0
    decreases |evs|
  {
    if |evs| > 0 {
      match HandleEvent(rd, evs[0])
      case Crashed =>
      case Running(rd', e) =>
        RunEmitsActiveIds(rd', evs[1..]);
        if e.Some? {
          SyncEmitsActive(rd, evs[0].t);
        }
    }
  }
}
