/** The older multitouch decoder of pywm/multitouch.py. It keeps a flat list
    of touches, each tagged with the slot it was reported in, and after every
    change of a position (and every lifted finger) reports either the
    touches sorted by slot, or, once, a cancellation when fewer than two
    fingers with known positions remain.

    The reader thread's event source is the input sequence; an exception
    (a missing axis, a degenerate axis range) ends the thread and is the
    flag `crashed`. The `_running` flag and `close` are left out. The device
    lookup `find_multitouch` runs the same scan as `find_touchpad`, modelled
    by the module DeviceScan. */
module Multitouch {
  import opened Util
  import Touchpad

  /** `Touch`: the slot it was reported in, its tracking id and normalised
      position; a position is -1 until the device reports it. */
  datatype MTouch = MTouch(slot: int, id: int, x: real, y: real)

  /** The decoder: its touches, the last reported touch count (`_state`,
      0 after a cancellation), the current slot of `run`, and the axis
      ranges read from the device. */
  datatype Decoder = Decoder(touches: seq<MTouch>, state: int, currentSlot: int, axes: Touchpad.Axes)

  /** The constructor followed by the start of `run`: the last capability
      entry for each axis wins, as in the touchpad reader. */
  function NewDecoder(caps: seq<(int, Touchpad.AxisRange)>): (d: Decoder)
    ensures d.touches == [] && d.state == 0 && d.currentSlot == 0
    ensures d.axes.x.Some? <==> exists k :: 0 <= k < |caps| && caps[k].0 == Touchpad.ABS_MT_POSITION_X
    ensures d.axes.y.Some? <==> exists k :: 0 <= k < |caps| && caps[k].0 == Touchpad.ABS_MT_POSITION_Y
  {
    Decoder([], 0, 0, Touchpad.AxesOf(caps))
  }

  /** What the listener receives: None (a cancellation) or the touches. */
  datatype Emission = Cancel | Touches(ts: seq<MTouch>)

  // ---------------------------------------------------------------------
  // Sorting by slot. Python's `sorted` is stable.
  // ---------------------------------------------------------------------

  ghost predicate SortedBySlot(ts: seq<MTouch>)
  {
    forall i, j :: 0 <= i < j < |ts| ==> ts[i].slot <= ts[j].slot
  }

  /** The touches of slot `s`, in order. */
  function InSlot(ts: seq<MTouch>, s: int): seq<MTouch>
  {
    if |ts| == 0 then []
    else InSlot(ts[..|ts| - 1], s) + (if ts[|ts| - 1].slot == s then [ts[|ts| - 1]] else [])
  }

  /** Dropping the last touch keeps the list sorted. */
  lemma SortedPrefix(ts: seq<MTouch>)
    requires SortedBySlot(ts) && |ts| > 0
    ensures SortedBySlot(ts[..|ts| - 1])
    ensures forall u :: u in ts[..|ts| - 1] ==> u.slot <= ts[|ts| - 1].slot
  {
  }

  /** Appending a touch of a slot no lower than every listed one keeps the
      list sorted. */
  lemma SortedSnoc(ts: seq<MTouch>, t: MTouch)
    requires SortedBySlot(ts)
    requires forall u :: u in ts ==> u.slot <= t.slot
    ensures SortedBySlot(ts + [t])
  {
    var r := ts + [t];
    forall i, j | 0 <= i < j < |r|
      ensures r[i].slot <= r[j].slot
    {
      if j == |ts| {
        assert r[i] in ts;
      }
    }
  }

  /** Inserting `t` into a sorted list after every touch of a slot no
      greater than its own. */
  function InsertBySlot(t: MTouch, ts: seq<MTouch>): (r: seq<MTouch>)
    requires SortedBySlot(ts)
    ensures SortedBySlot(r)
    ensures multiset(r) == multiset(ts) + multiset{t}
    ensures |r| == |ts| + 1
    ensures forall u :: u in r ==> u == t || u in ts
    decreases |ts|
  {
    if |ts| == 0 then [t]
    else
      var last := ts[|ts| - 1];
      var init := ts[..|ts| - 1];
      assert ts == init + [last];
      SortedPrefix(ts);
      if t.slot < last.slot then
        var mid := InsertBySlot(t, init);
        assert forall u :: u in mid ==> u.slot <= last.slot;
        SortedSnoc(mid, last);
        mid + [last]
      else
        SortedSnoc(ts, t);
        ts + [t]
  }

  /** `sorted(touches, key=lambda t: t.slot)`, built by inserting the
      touches in order. */
  function SortBySlot(ts: seq<MTouch>): (r: seq<MTouch>)
    ensures SortedBySlot(r)
    ensures multiset(r) == multiset(ts)
    ensures |r| == |ts|
  {
    if |ts| == 0 then []
    else
      var init := ts[..|ts| - 1];
      assert ts == init + [ts[|ts| - 1]];
      InsertBySlot(ts[|ts| - 1], SortBySlot(init))
  }

  /** The touches of slot `s` after appending one touch. */
  lemma InSlotSnoc(ts: seq<MTouch>, t: MTouch, s: int)
    ensures InSlot(ts + [t], s) == InSlot(ts, s) + (if t.slot == s then [t] else [])
  {
    assert (ts + [t])[..|ts|] == ts;
  }

  /** Inserting a touch of a slot below that of the last touch: the last
      touch stays last. */
  lemma InsertBeforeLast(t: MTouch, ts: seq<MTouch>)
    requires SortedBySlot(ts) && |ts| > 0 && t.slot < ts[|ts| - 1].slot
    ensures SortedBySlot(ts[..|ts| - 1])
    ensures InsertBySlot(t, ts) == InsertBySlot(t, ts[..|ts| - 1]) + [ts[|ts| - 1]]
  {
  }

  /** Inserting a touch of a slot no lower than that of every touch appends it. */
  lemma InsertAtEnd(t: MTouch, ts: seq<MTouch>)
    requires SortedBySlot(ts) && (|ts| == 0 || t.slot >= ts[|ts| - 1].slot)
    ensures InsertBySlot(t, ts) == ts + [t]
  {
  }

  lemma {:induction false} InsertKeepsSlots(t: MTouch, ts: seq<MTouch>, s: int)
    requires SortedBySlot(ts)
    ensures InSlot(InsertBySlot(t, ts), s) == InSlot(ts, s) + (if t.slot == s then [t] else [])
    decreases |ts|
  {
    if |ts| > 0 && t.slot < ts[|ts| - 1].slot {
      var last := ts[|ts| - 1];
      var init := ts[..|ts| - 1];
      assert ts == init + [last];
      InsertBeforeLast(t, ts);
      InsertKeepsSlots(t, init, s);
      InSlotSnoc(init, last, s);
      InSlotSnoc(InsertBySlot(t, init), last, s);
      if t.slot == s {
        assert last.slot != s;
      }
    } else {
      InsertAtEnd(t, ts);
      InSlotSnoc(ts, t, s);
    }
  }

  /** The sort is stable: the touches of each slot keep their order. */
  lemma {:induction false} SortKeepsSlots(ts: seq<MTouch>, s: int)
    ensures InSlot(SortBySlot(ts), s) == InSlot(ts, s)
    decreases |ts|
  {
    if |ts| > 0 {
      var init := ts[..|ts| - 1];
      SortKeepsSlots(init, s);
      InsertKeepsSlots(ts[|ts| - 1], SortBySlot(init), s);
    }
  }

  // ---------------------------------------------------------------------
  // `update` and `Touch.process`
  // ---------------------------------------------------------------------

  /** The touches describe a two-finger (or larger) contact whose positions
      are all known. */
  predicate Reportable(ts: seq<MTouch>)
  {
    |ts| >= 2 && forall k :: 0 <= k < |ts| ==> ts[k].x >= 0.0 && ts[k].y >= 0.0
  }

  /** `Multitouch.update`. */
  function Update(d: Decoder): (r: (Decoder, seq<Emission>))
    ensures r.0.touches == d.touches && r.0.currentSlot == d.currentSlot && r.0.axes == d.axes
    ensures !Reportable(d.touches) ==>
              && r.0.state == 0
              && (r.1 == [Cancel] <==> d.state != 0)
              && (d.state == 0 ==> r.1 == [])
    ensures Reportable(d.touches) ==>
              && r.0.state == |d.touches|
              && |r.1| == 1 && r.1[0].Touches?
              && SortedBySlot(r.1[0].ts)
              && multiset(r.1[0].ts) == multiset(d.touches)
  {
    if !Reportable(d.touches) then
      if d.state != 0 then (d.(state := 0), [Cancel]) else (d, [])
    else (d.(state := |d.touches|), [Touches(SortBySlot(d.touches))])
  }

  /** `Touch.process`: code 53 sets x and code 54 sets y to the normalised
      value; None where the axis is missing or its range is empty (Python
      raises). */
  function Process(t: MTouch, code: int, value: int, axes: Touchpad.Axes): (r: Option<MTouch>)
    ensures code == Touchpad.ABS_MT_POSITION_X ==>
              (r.Some? <==> Touchpad.Normalise(value, axes.x).Some?)
              && (r.Some? ==> r.value == t.(x := Touchpad.Normalise(value, axes.x).value))
    ensures code == Touchpad.ABS_MT_POSITION_Y ==>
              (r.Some? <==> Touchpad.Normalise(value, axes.y).Some?)
              && (r.Some? ==> r.value == t.(y := Touchpad.Normalise(value, axes.y).value))
    ensures code != Touchpad.ABS_MT_POSITION_X && code != Touchpad.ABS_MT_POSITION_Y ==> r == Some(t)
  {
    if code == Touchpad.ABS_MT_POSITION_X then
      match Touchpad.Normalise(value, axes.x)
      case None => None
      case Some(v) => Some(t.(x := v))
    else if code == Touchpad.ABS_MT_POSITION_Y then
      match Touchpad.Normalise(value, axes.y)
      case None => None
      case Some(v) => Some(t.(y := v))
    else Some(t)
  }

  /** The touches of the current slot from index `k` on are processed in
      list order, each followed by an `update`. */
  function ProcessFrom(d: Decoder, code: int, value: int, k: nat): (r: Option<(Decoder, seq<Emission>)>)
    requires k <= |d.touches|
    ensures r.Some? ==> |r.value.0.touches| == |d.touches| && r.value.0.currentSlot == d.currentSlot && r.value.0.axes == d.axes
    ensures r.Some? ==> forall j :: 0 <= j < |d.touches| ==> r.value.0.touches[j].slot == d.touches[j].slot && r.value.0.touches[j].id == d.touches[j].id
    decreases |d.touches| - k
  {
    if k == |d.touches| then Some((d, []))
    else if d.touches[k].slot != d.currentSlot then ProcessFrom(d, code, value, k + 1)
    else
      match Process(d.touches[k], code, value, d.axes)
      case None => None
      case Some(t) =>
        var (d', emitted) := Update(d.(touches := d.touches[k := t]));
        match ProcessFrom(d', code, value, k + 1)
        case None => None
        case Some((d'', rest)) => Some((d'', emitted + rest))
  }

  /** The number of touches in slot `s` from index `k` on. */
  function CountSlot(ts: seq<MTouch>, s: int, k: nat): nat
    requires k <= |ts|
    decreases |ts| - k
  {
    if k == |ts| then 0 else (if ts[k].slot == s then 1 else 0) + CountSlot(ts, s, k + 1)
  }

  /** Processing a position event calls `update` once per touch of the
      current slot, and each update emits at most once. */
  lemma {:induction false} ProcessFromEmissions(d: Decoder, code: int, value: int, k: nat)
    requires k <= |d.touches|
    requires ProcessFrom(d, code, value, k).Some?
    ensures |ProcessFrom(d, code, value, k).value.1| <= CountSlot(d.touches, d.currentSlot, k)
    decreases |d.touches| - k
  {
    if k < |d.touches| {
      if d.touches[k].slot != d.currentSlot {
        ProcessFromEmissions(d, code, value, k + 1);
      } else {
        var t := Process(d.touches[k], code, value, d.axes).value;
        var (d', emitted) := Update(d.(touches := d.touches[k := t]));
        SameSlotsSameCount(d.touches, d'.touches, d.currentSlot, k + 1);
        ProcessFromEmissions(d', code, value, k + 1);
      }
    }
  }

  lemma {:induction false} SameSlotsSameCount(a: seq<MTouch>, b: seq<MTouch>, s: int, k: nat)
    requires |a| == |b| && k <= |a|
    requires forall j :: 0 <= j < |a| ==> a[j].slot == b[j].slot
    ensures CountSlot(a, s, k) == CountSlot(b, s, k)
    decreases |a| - k
  {
    if k < |a| {
      SameSlotsSameCount(a, b, s, k + 1);
    }
  }

  /** The touches not in slot `s`. */
  function WithoutSlot(ts: seq<MTouch>, s: int): (r: seq<MTouch>)
    ensures forall t :: t in r <==> t in ts && t.slot != s
  {
    if |ts| == 0 then []
    else (if ts[0].slot == s then [] else [ts[0]]) + WithoutSlot(ts[1..], s)
  }

  /** One raw input event. */
  datatype RawEvent = RawEvent(kind: int, code: int, value: int)

  /** The body of the loop of `run` for one event; None where processing
      raised. */
  function HandleEvent(d: Decoder, ev: RawEvent): (r: Option<(Decoder, seq<Emission>)>)
  {
    if ev.kind != Touchpad.EV_ABS then Some((d, []))
    else if ev.code == Touchpad.ABS_MT_SLOT then Some((d.(currentSlot := ev.value), []))
    else if ev.code == Touchpad.ABS_MT_TRACKING_ID then
      if ev.value == -1 then Some(Update(d.(touches := WithoutSlot(d.touches, d.currentSlot))))
      else if d.currentSlot != -1 then Some((d.(touches := d.touches + [MTouch(d.currentSlot, ev.value, -1.0, -1.0)]), []))
      else Some((d, []))
    else ProcessFrom(d, ev.code, ev.value, 0)
  }

  /** Events other than ABS are ignored; a slot event only switches the
      slot; a lifted tracking id removes every touch of the current slot and
      updates; a new tracking id adds an unpositioned touch unless the
      current slot is -1, without updating. */
  lemma HandleEventSpec(d: Decoder, ev: RawEvent)
    ensures ev.kind != Touchpad.EV_ABS ==> HandleEvent(d, ev) == Some((d, []))
    ensures ev.kind == Touchpad.EV_ABS && ev.code == Touchpad.ABS_MT_SLOT ==>
              HandleEvent(d, ev) == Some((d.(currentSlot := ev.value), []))
    ensures ev.kind == Touchpad.EV_ABS && ev.code == Touchpad.ABS_MT_TRACKING_ID && ev.value == -1 ==>
              var r := HandleEvent(d, ev).value;
              && r.0.currentSlot == d.currentSlot
              && (forall t :: t in r.0.touches <==> t in d.touches && t.slot != d.currentSlot)
              && |r.1| <= 1
    ensures ev.kind == Touchpad.EV_ABS && ev.code == Touchpad.ABS_MT_TRACKING_ID && ev.value != -1 ==>
              var r := HandleEvent(d, ev).value;
              && r.1 == []
              && (d.currentSlot != -1 ==> r.0.touches == d.touches + [MTouch(d.currentSlot, ev.value, -1.0, -1.0)])
              && (d.currentSlot == -1 ==> r.0 == d)
  {
  }

  /** Running the decoder over a sequence of events. */
  function Run(d: Decoder, evs: seq<RawEvent>): (r: (Decoder, seq<Emission>, bool))
    decreases |evs|
  {
    if |evs| == 0 then (d, [], false)
    else match HandleEvent(d, evs[0])
      case None => (d, [], true)
      case Some((d', out)) =>
        var (fin, rest, crashed) := Run(d', evs[1..]);
        (fin, out + rest, crashed)
  }

  // ---------------------------------------------------------------------
  // At most one cancellation per lost contact.
  // ---------------------------------------------------------------------

  /** Between any two cancellations the listener got touches. */
  ghost predicate CancelsSeparated(out: seq<Emission>)
  {
    forall i, j :: 0 <= i < j < |out| && out[i].Cancel? && out[j].Cancel? ==>
      exists k :: i < k < j && out[k].Touches?
  }

  /** What the decoder keeps true of what it has emitted so far: the last
      emission being a cancellation means the state is 0. */
  ghost predicate Coherent(out: seq<Emission>, d: Decoder)
  {
    CancelsSeparated(out) && (|out| > 0 && out[|out| - 1].Cancel? ==> d.state == 0)
  }

  lemma UpdateCoherent(out: seq<Emission>, d: Decoder)
    requires Coherent(out, d)
    ensures Coherent(out + Update(d).1, Update(d).0)
  {
    var (d', e) := Update(d);
    var all := out + e;
    if e == [Cancel] {
      forall i, j | 0 <= i < j < |all| && all[i].Cancel? && all[j].Cancel?
        ensures exists k :: i < k < j && all[k].Touches?
      {
        if j < |out| {
          assert out[i].Cancel? && out[j].Cancel?;
          var k :| i < k < j && out[k].Touches?;
          assert all[k] == out[k];
        } else {
          assert all[|out| - 1] == out[|out| - 1];
        }
      }
    } else if |e| == 1 {
      forall i, j | 0 <= i < j < |all| && all[i].Cancel? && all[j].Cancel?
        ensures exists k :: i < k < j && all[k].Touches?
      {
        assert out[i].Cancel? && out[j].Cancel?;
        var k :| i < k < j && out[k].Touches?;
        assert all[k] == out[k];
      }
    } else {
      assert all == out;
    }
  }

  lemma {:induction false} ProcessFromCoherent(prior: seq<Emission>, d: Decoder, code: int, value: int, k: nat)
    requires k <= |d.touches| && Coherent(prior, d)
    requires ProcessFrom(d, code, value, k).Some?
    ensures var r := ProcessFrom(d, code, value, k).value;
            Coherent(prior + r.1, r.0)
    decreases |d.touches| - k, 1
  {
    if k == |d.touches| {
      assert prior + [] == prior;
    } else if d.touches[k].slot != d.currentSlot {
      ProcessFromCoherent(prior, d, code, value, k + 1);
    } else {
      ProcessHereCoherent(prior, d, code, value, k);
    }
  }

  /** The step of `ProcessFromCoherent` at a touch of the current slot:
      the emissions of its update keep the listener's view coherent, and so
      do those of the touches after it. */
  lemma {:induction false} ProcessHereCoherent(prior: seq<Emission>, d: Decoder, code: int, value: int, k: nat)
    requires k < |d.touches| && d.touches[k].slot == d.currentSlot && Coherent(prior, d)
    requires ProcessFrom(d, code, value, k).Some?
    ensures var r := ProcessFrom(d, code, value, k).value;
            Coherent(prior + r.1, r.0)
    decreases |d.touches| - k, 0
  {
    var t := Process(d.touches[k], code, value, d.axes).value;
    var d1 := d.(touches := d.touches[k := t]);
    assert Coherent(prior, d1);
    UpdateCoherent(prior, d1);
    var (d', emitted) := Update(d1);
    ProcessFromCoherent(prior + emitted, d', code, value, k + 1);
    var rest := ProcessFrom(d', code, value, k + 1).value.1;
    assert prior + (emitted + rest) == (prior + emitted) + rest;
  }

  lemma HandleEventCoherent(prior: seq<Emission>, d: Decoder, ev: RawEvent)
    requires Coherent(prior, d) && HandleEvent(d, ev).Some?
    ensures var r := HandleEvent(d, ev).value;
            Coherent(prior + r.1, r.0)
  {
    var r := HandleEvent(d, ev).value;
    if ev.kind != Touchpad.EV_ABS || ev.code == Touchpad.ABS_MT_SLOT {
      assert prior + r.1 == prior;
    } else if ev.code == Touchpad.ABS_MT_TRACKING_ID {
      if ev.value == -1 {
        UpdateCoherent(prior, d.(touches := WithoutSlot(d.touches, d.currentSlot)));
      } else {
        assert prior + r.1 == prior;
      }
    } else {
      ProcessFromCoherent(prior, d, ev.code, ev.value, 0);
    }
  }

  /** Over a whole run, the listener never gets two cancellations without
      touches in between: `None` is reported at most once per lost
      contact. */
  lemma {:induction false} RunCancelsOnce(d: Decoder, evs: seq<RawEvent>, prior: seq<Emission>)
    requires Coherent(prior, d)
    ensures CancelsSeparated(prior + Run(d, evs).1)
    decreases |evs|
  {
    if |evs| == 0 {
      assert prior + [] == prior;
    } else if HandleEvent(d, evs[0]).None? {
      assert prior + [] == prior;
    } else {
      var (d', out) := HandleEvent(d, evs[0]).value;
      HandleEventCoherent(prior, d, evs[0]);
      RunCancelsOnce(d', evs[1..], prior + out);
      assert prior + Run(d, evs).1 == (prior + out) + Run(d', evs[1..]).1;
    }
  }

  /** Every reported list of touches is sorted by slot, stable within a
      slot, and a permutation of the decoder's touches at that moment. */
  lemma UpdateReportsSorted(d: Decoder, s: int)
    requires Reportable(d.touches)
    ensures var e := Update(d).1[0];
            && SortedBySlot(e.ts)
            && multiset(e.ts) == multiset(d.touches)
            && InSlot(e.ts, s) == InSlot(d.touches, s)
  {
    SortKeepsSlots(d.touches, s);
  }
}
