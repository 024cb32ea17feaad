/** The displacement accounting of the higher swipe in
    pywm/touchpad/gestures.py: the per-touch moves that `Displacement`
    sums, and what the swipe's accumulators do when every finger moves by
    the same amount. */
module SwipeDisplacement {
  import opened Util
  import opened TouchData
  import opened Gestures

  /** Touches whose ids the previous frame does not list contribute no
      displacement. */
  lemma {:induction false} DisplacementOfNewIds(prev: seq<Touch>, cur: seq<Touch>)
    requires forall k :: 0 <= k < |cur| ==> IndexOfId(prev, cur[k].id).None?
    ensures Displacement(prev, cur) == (0.0, 0.0, 0.0)
  {
    if |cur| > 0 {
      var init := cur[..|cur| - 1];
      assert forall k :: 0 <= k < |init| ==> init[k] == cur[k];
      DisplacementOfNewIds(prev, init);
    }
  }

  /** Only touches whose id the previous frame lists contribute. */
  lemma {:induction false} DisplacementIgnoresNewIds(prev: seq<Touch>, cur: seq<Touch>, t: Touch)
    requires IndexOfId(prev, t.id).None?
    ensures Displacement(prev, cur + [t]) == Displacement(prev, cur)
  {
    assert (cur + [t])[..|cur|] == cur;
  }

  /** The displacement of a frame is the sum of its touches'
      displacements: the loop over the touches adds one term per touch, in
      any split of the frame. */
  lemma {:induction false} DisplacementAppend(prev: seq<Touch>, a: seq<Touch>, b: seq<Touch>)
    ensures var da, db, dab := Displacement(prev, a), Displacement(prev, b), Displacement(prev, a + b);
            dab == (da.0 + db.0, da.1 + db.1, da.2 + db.2)
    decreases |b|
  {
    if |b| == 0 {
      assert a + b == a;
    } else {
      var init := b[..|b| - 1];
      assert (a + b)[..|a + b| - 1] == a + init;
      assert (a + b)[|a + b| - 1] == b[|b| - 1];
      DisplacementAppend(prev, a, init);
    }
  }

  /** The displacement of one touch: its move from the first touch of the
      previous frame with its id, and the squared length of that move; none
      when the previous frame lacks the id. */
  lemma DisplacementOne(prev: seq<Touch>, t: Touch)
    ensures IndexOfId(prev, t.id).None? ==> Displacement(prev, [t]) == (0.0, 0.0, 0.0)
    ensures IndexOfId(prev, t.id).Some? ==>
              var p := prev[IndexOfId(prev, t.id).value];
              Displacement(prev, [t]) == (t.x - p.x, t.y - p.y, SquaredNorm(t.x - p.x, t.y - p.y))
  {
    var one := [t];
    assert one[..|one| - 1] == [] && one[|one| - 1] == t;
    assert Displacement(prev, []) == (0.0, 0.0, 0.0);
    if IndexOfId(prev, t.id).Some? {
      var p := prev[IndexOfId(prev, t.id).value];
      assert Displacement(prev, one) == (0.0 + (t.x - p.x), 0.0 + (t.y - p.y), 0.0 + SquaredNorm(t.x - p.x, t.y - p.y));
    }
  }

  /** `cur` is `prev` with every touch moved by `(a, b)`, under the same
      ids, which are distinct. */
  ghost predicate Shifted(prev: seq<Touch>, cur: seq<Touch>, a: real, b: real)
  {
    && |cur| == |prev|
    && (forall i, j :: 0 <= i < j < |prev| ==> prev[i].id != prev[j].id)
    && (forall k :: 0 <= k < |cur| ==> cur[k].id == prev[k].id && cur[k].x == prev[k].x + a && cur[k].y == prev[k].y + b)
  }

  /** `v` added up `m` times. */
  function Times(m: nat, v: real): (r: real)
    ensures r == m as real * v
  {
    if m == 0 then 0.0 else Times(m - 1, v) + v
  }

  /** When every finger moves by `(a, b)`, the summed displacement over the
      first `m` touches is `m` times that move. */
  lemma {:induction false} DisplacementOfShiftPrefix(prev: seq<Touch>, cur: seq<Touch>, a: real, b: real, m: nat)
    requires Shifted(prev, cur, a, b) && m <= |cur|
    ensures Displacement(prev, cur[..m]) == (Times(m, a), Times(m, b), Times(m, SquaredNorm(a, b)))
    decreases m
  {
    if m > 0 {
      var init := cur[..m - 1];
      DisplacementOfShiftPrefix(prev, cur, a, b, m - 1);
      IndexOfDistinct(prev, m - 1);
      var t := cur[m - 1];
      assert cur[..m] == init + [t];
      assert t.x - prev[m - 1].x == a && t.y - prev[m - 1].y == b;
      ShiftOneMore(prev, init, t, m - 1, a, b, m);
    }
  }

  /** The step of the shift: one more moved finger adds one more move. */
  lemma ShiftOneMore(prev: seq<Touch>, init: seq<Touch>, t: Touch, i: nat, a: real, b: real, m: nat)
    requires m > 0 && i < |prev| && IndexOfId(prev, t.id) == Some(i)
    requires t.x - prev[i].x == a && t.y - prev[i].y == b
    requires Displacement(prev, init) == (Times(m - 1, a), Times(m - 1, b), Times(m - 1, SquaredNorm(a, b)))
    ensures Displacement(prev, init + [t]) == (Times(m, a), Times(m, b), Times(m, SquaredNorm(a, b)))
  {
    DisplacementAppend(prev, init, [t]);
    DisplacementOne(prev, t);
  }

  /** With distinct ids, the lookup of a touch's id finds that touch. */
  lemma IndexOfDistinct(ts: seq<Touch>, k: nat)
    requires k < |ts| && forall i, j :: 0 <= i < j < |ts| ==> ts[i].id != ts[j].id
    ensures IndexOfId(ts, ts[k].id) == Some(k)
  {
  }

  /** The higher swipe follows the fingers: when all of the nominal number
      of fingers move by `(a, b)` since the reference frame, the swipe's
      `delta_x` and `delta_y` grow by exactly `a` and `b`, and its
      accumulated squared displacement by `a * a + b * b`. */
  lemma HigherSwipeAccumulates(g: Gesture, u: TouchpadUpdate, c: Config, hypot: (real, real) -> real, a: real, b: real)
    requires g.kind.HigherSwipe? && g.kind.n >= 3
    requires Process(g, u, c, hypot).Continue? && |u.touches| == g.kind.n
    requires Shifted(g.kind.last.touches, u.touches, a, b)
    ensures var k, k' := g.kind, Process(g, u, c, hypot).g.kind;
            k'.dx == k.dx + a && k'.dy == k.dy + b && k'.d2s == k.d2s + SquaredNorm(a, b)
  {
    var k := g.kind;
    assert u.touches[..|u.touches|] == u.touches;
    DisplacementOfShiftPrefix(k.last.touches, u.touches, a, b, |u.touches|);
    ProcessHigher(g, u, c, hypot);
    var e := Displacement(k.last.touches, u.touches);
    ShareOfShift(k, u, e, a, b);
  }

  /** The higher step for `n` equal moves adds one move. */
  lemma ShareOfShift(k: Kind, u: TouchpadUpdate, e: (real, real, real), a: real, b: real)
    requires k.HigherSwipe? && k.n > 0
    requires e == (Times(k.n, a), Times(k.n, b), Times(k.n, SquaredNorm(a, b)))
    ensures var k' := HigherStep(k, u, e);
            k'.dx == k.dx + a && k'.dy == k.dy + b && k'.d2s == k.d2s + SquaredNorm(a, b)
  {
    var k' := HigherStep(k, u, e);
    var n := k.n as real;
    assert k'.dx == k.dx + e.0 / n && k'.dy == k.dy + e.1 / n && k'.d2s == k.d2s + e.2 / n;
    TimesShare(k.n, a);
    TimesShare(k.n, b);
    TimesShare(k.n, SquaredNorm(a, b));
  }

  /** `m` equal shares divided among `m` are one share. */
  lemma TimesShare(m: nat, a: real)
    requires m > 0
    ensures Times(m, a) / m as real == a
  {
  }

  /** A continued higher swipe with touches takes the step for the
      displacement from its reference frame. */
  lemma ProcessHigher(g: Gesture, u: TouchpadUpdate, c: Config, hypot: (real, real) -> real)
    requires g.kind.HigherSwipe? && g.kind.n >= 3
    requires Process(g, u, c, hypot).Continue? && |u.touches| > 0
    ensures Process(g, u, c, hypot).g.kind == HigherStep(g.kind, u, Displacement(g.kind.last.touches, u.touches))
  {
  }

  /** The accumulated squared displacement sums each finger's squared move,
      not the square of the summed move: two fingers moving apart leave
      `delta_x` unchanged and still add to it. */
  lemma SquaresOfMovesNotOfSum()
    ensures var prev := [Touch(1, 0.4, 0.5, 1.0), Touch(2, 0.6, 0.5, 1.0)];
            var cur := [Touch(1, 0.3, 0.5, 1.0), Touch(2, 0.7, 0.5, 1.0)];
            Displacement(prev, cur) == (0.0, 0.0, 0.02)
  {
    var prev := [Touch(1, 0.4, 0.5, 1.0), Touch(2, 0.6, 0.5, 1.0)];
    var cur := [Touch(1, 0.3, 0.5, 1.0), Touch(2, 0.7, 0.5, 1.0)];
    DisplacementAppend(prev, [cur[0]], [cur[1]]);
    assert [cur[0]] + [cur[1]] == cur;
    DisplacementOne(prev, cur[0]);
    DisplacementOne(prev, cur[1]);
    assert IndexOfId(prev, 1) == Some(0);
    assert IndexOfId(prev, 2) == Some(1);
  }
}
