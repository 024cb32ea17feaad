/** Server-wide bookkeeping of src/wm/wm_server.c: the z-index sort of the
    content list, the lock percentage, the name check for virtual outputs,
    and the throttle of the update callback. Clocks are parameters; the
    linked list of contents is a sequence, front first. */
module WmServer {
  import opened Util
  import WmContent

  type Content = WmContent.Content

  // ---------------------------------------------------------------------
  // The z-sort of `wm_server_update_contents`
  // ---------------------------------------------------------------------

  /** Front to back, z-indices do not increase. */
  ghost predicate NonIncreasing(cs: seq<Content>)
  {
    forall i, j :: 0 <= i < j < |cs| ==> cs[i].zIndex >= cs[j].zIndex
  }

  /** The contents of z-index `z`, in list order. */
  function AtZ(cs: seq<Content>, z: int): seq<Content>
  {
    if |cs| == 0 then [] else (if cs[0].zIndex == z then [cs[0]] else []) + AtZ(cs[1..], z)
  }

  /** The position of the first adjacent pair whose front element has the
      strictly smaller z-index. */
  function FirstInversion(cs: seq<Content>): (r: Option<nat>)
    ensures r.Some? ==> r.value + 1 < |cs| && cs[r.value].zIndex < cs[r.value + 1].zIndex
    ensures r.Some? ==> forall k :: 0 <= k < r.value ==> cs[k].zIndex >= cs[k + 1].zIndex
    ensures r.None? ==> forall k :: 0 <= k < |cs| - 1 ==> cs[k].zIndex >= cs[k + 1].zIndex
  {
    if |cs| < 2 then None
    else if cs[0].zIndex < cs[1].zIndex then Some(0)
    else match FirstInversion(cs[1..])
      case None => None
      case Some(i) => Some(i + 1)
  }

  /** Exchanging the elements at `i` and `i + 1`. */
  function SwapAt(cs: seq<Content>, i: nat): (r: seq<Content>)
    requires i + 1 < |cs|
    ensures |r| == |cs| && r[i] == cs[i + 1] && r[i + 1] == cs[i]
    ensures forall k :: 0 <= k < |cs| && k != i && k != i + 1 ==> r[k] == cs[k]
    ensures multiset(r) == multiset(cs)
  {
    var r := cs[i := cs[i + 1]][i + 1 := cs[i]];
    assert r == cs[..i] + [cs[i + 1], cs[i]] + cs[i + 2..];
    assert cs == cs[..i] + [cs[i], cs[i + 1]] + cs[i + 2..];
    r
  }

  /** One pass of the do-while loop. After a swap the two cursors coincide
      for the rest of the pass, so nothing else is swapped: a pass exchanges
      the first adjacent strict inversion, if there is one. */
  function Pass(cs: seq<Content>): (r: (seq<Content>, bool))
    ensures r.1 <==> FirstInversion(cs).Some?
    ensures r.1 ==> r.0 == SwapAt(cs, FirstInversion(cs).value)
    ensures !r.1 ==> r.0 == cs
  {
    match FirstInversion(cs)
    case None => (cs, false)
    case Some(i) => (SwapAt(cs, i), true)
  }

  /** How many contents behind `c` have a greater z-index. */
  function Above(c: Content, cs: seq<Content>): nat
  {
    if |cs| == 0 then 0 else (if c.zIndex < cs[0].zIndex then 1 else 0) + Above(c, cs[1..])
  }

  /** The number of pairs out of order: the termination measure. */
  function Inversions(cs: seq<Content>): nat
  {
    if |cs| == 0 then 0 else Above(cs[0], cs[1..]) + Inversions(cs[1..])
  }

  lemma {:induction false} AboveSwap(c: Content, cs: seq<Content>, i: nat)
    requires i + 1 < |cs|
    ensures Above(c, SwapAt(cs, i)) == Above(c, cs)
    decreases i
  {
    var s := SwapAt(cs, i);
    if i == 0 {
      assert s[2..] == cs[2..];
      assert s[1..][1..] == s[2..] && cs[1..][1..] == cs[2..];
    } else {
      assert s[1..] == SwapAt(cs[1..], i - 1);
      AboveSwap(c, cs[1..], i - 1);
    }
  }

  lemma {:induction false} AtZSwap(cs: seq<Content>, i: nat, z: int)
    requires i + 1 < |cs| && cs[i].zIndex != cs[i + 1].zIndex
    ensures AtZ(SwapAt(cs, i), z) == AtZ(cs, z)
    decreases i
  {
    var s := SwapAt(cs, i);
    if i == 0 {
      assert s[2..] == cs[2..];
      assert s[1..][1..] == s[2..] && cs[1..][1..] == cs[2..];
    } else {
      assert s[1..] == SwapAt(cs[1..], i - 1);
      AtZSwap(cs[1..], i - 1, z);
    }
  }

  /** Exchanging an adjacent strict inversion removes exactly one
      inversion. */
  lemma {:induction false} SwapRemovesInversion(cs: seq<Content>, i: nat)
    requires i + 1 < |cs| && cs[i].zIndex < cs[i + 1].zIndex
    ensures Inversions(SwapAt(cs, i)) + 1 == Inversions(cs)
    decreases i
  {
    var s := SwapAt(cs, i);
    if i == 0 {
      assert s[2..] == cs[2..];
      assert s[1..][1..] == s[2..] && cs[1..][1..] == cs[2..];
    } else {
      assert s[1..] == SwapAt(cs[1..], i - 1);
      AboveSwap(cs[0], cs[1..], i - 1);
      SwapRemovesInversion(cs[1..], i - 1);
    }
  }

  /** `wm_server_update_contents`: lists of at most one element are left
      alone; otherwise passes repeat until one swaps nothing. The result
      is ordered by non-increasing z-index, is a permutation of the input,
      and keeps contents of equal z-index in their relative order. */
  method UpdateContents(cs: seq<Content>) returns (r: seq<Content>)
    ensures |cs| <= 1 ==> r == cs
    ensures NonIncreasing(r)
    ensures multiset(r) == multiset(cs)
    ensures forall z :: AtZ(r, z) == AtZ(cs, z)
  {
    if |cs| <= 1 {
      return cs;
    }
    r := cs;
    var swapped := true;
    while swapped
      invariant multiset(r) == multiset(cs)
      invariant forall z :: AtZ(r, z) == AtZ(cs, z)
      invariant !swapped ==> FirstInversion(r).None?
      decreases Inversions(r) + (if swapped then 1 else 0)
    {
      var i := FirstInversion(r);
      if i.Some? {
        SwapRemovesInversion(r, i.value);
        forall z
          ensures AtZ(SwapAt(r, i.value), z) == AtZ(r, z)
        {
          AtZSwap(r, i.value, z);
        }
      }
      var next := Pass(r);
      r, swapped := next.0, next.1;
    }
    AdjacentOrdered(r);
  }

  /** Adjacent order implies order. */
  lemma AdjacentOrdered(cs: seq<Content>)
    requires FirstInversion(cs).None?
    ensures NonIncreasing(cs)
  {
    forall i, j | 0 <= i < j < |cs|
      ensures cs[i].zIndex >= cs[j].zIndex
    {
      var k := i;
      while k < j
        invariant i <= k <= j
        invariant cs[i].zIndex >= cs[k].zIndex
      {
        k := k + 1;
      }
    }
  }

  // ---------------------------------------------------------------------
  // Lock
  // ---------------------------------------------------------------------

  /** Changes of the lock percentage below this are ignored; the screen is
      locked above it. */
  const LockEpsilon: real := 0.001

  /** `wm_server_is_locked`. */
  predicate IsLocked(lockPerc: real)
  {
    lockPerc > LockEpsilon
  }

  /** What `wm_server_set_locked` does besides storing the value. */
  datatype LockEffect =
    | Ignored        // within the dead zone: nothing at all
    | ClearFocus     // now locked: the layout is damaged and the seat loses focus
    | UpdateCursor   // now unlocked: the layout is damaged and the cursor refreshed

  /** `wm_server_set_locked`. */
  function SetLocked(lockPerc: real, req: real): (r: (real, LockEffect))
    ensures r.1.Ignored? <==> Abs(req - lockPerc) < LockEpsilon
    ensures r.1.Ignored? ==> r.0 == lockPerc
    ensures !r.1.Ignored? ==> r.0 == req && (r.1.ClearFocus? <==> IsLocked(req))
    ensures Abs(r.0 - req) < LockEpsilon
  {
    if Abs(req - lockPerc) < LockEpsilon then (lockPerc, Ignored)
    else (req, if IsLocked(req) then ClearFocus else UpdateCursor)
  }

  /** Repeating a request is ignored. */
  lemma SetLockedIdempotent(lockPerc: real, req: real)
    ensures var once := SetLocked(lockPerc, req).0;
            SetLocked(once, req) == (once, Ignored)
  {
  }

  // ---------------------------------------------------------------------
  // Virtual outputs
  // ---------------------------------------------------------------------

  /** The size of the name buffer of a wlroots output, terminator
      included. */
  const OutputNameSize: nat := 24

  datatype VirtualOutput =
    | NameTooLong          // rejected before anything is created
    | CreationFailed       // the headless backend returned no output
    | Created(name: string)

  /** `wm_server_open_virtual_output`; `created` is whether the headless
      backend produced an output. */
  function OpenVirtualOutput(name: string, created: bool): (r: VirtualOutput)
    ensures r.NameTooLong? <==> |name| > 23
    ensures r.Created? <==> |name| <= 23 && created
    ensures r.Created? ==> r.name == name && |r.name| + 1 <= OutputNameSize
  {
    if |name| > 23 then NameTooLong
    else if !created then CreationFailed
    else Created(name)
  }

  // ---------------------------------------------------------------------
  // Callback throttle
  // ---------------------------------------------------------------------

  /** A monotonic clock reading. */
  datatype Timespec = Timespec(sec: int, nsec: int)

  predicate ValidTime(t: Timespec)
  {
    0 <= t.nsec < 1000000000
  }

  /** The milliseconds between two readings, as the timer computes them:
      the nanosecond fields are truncated to milliseconds separately. */
  function MsDiff(now: Timespec, last: Timespec): (r: int)
    requires ValidTime(now) && ValidTime(last)
    ensures now == last ==> r == 0
    ensures now.sec == last.sec && now.nsec >= last.nsec ==> r >= 0
  {
    now.nsec / 1000000 - last.nsec / 1000000 + (now.sec - last.sec) * 1000
  }

  /** Readings in clock order. */
  predicate NotBefore(a: Timespec, b: Timespec)
  {
    a.sec > b.sec || (a.sec == b.sec && a.nsec >= b.nsec)
  }

  /** The truncated difference never decreases as the clock advances, so a
      callback that is due stays due. */
  lemma MsDiffMonotone(now1: Timespec, now2: Timespec, last: Timespec)
    requires ValidTime(now1) && ValidTime(now2) && ValidTime(last)
    requires NotBefore(now2, now1)
    ensures MsDiff(now2, last) >= MsDiff(now1, last)
  {
    if now2.sec > now1.sec {
      assert now1.nsec / 1000000 < 1000;
      assert (now2.sec - last.sec) * 1000 >= (now1.sec - last.sec) * 1000 + 1000;
    } else {
      assert now2.nsec / 1000000 >= now1.nsec / 1000000;
    }
  }

  /** The condition of `callback_timer_handler`: more than 0.9 frame
      intervals of the fastest output (given in mHz) have passed. A zero
      rate makes the C threshold infinite. */
  predicate ShouldFire(msDiff: int, fastestMHz: real)
  {
    fastestMHz != 0.0 && msDiff as real > 900000.0 / fastestMHz
  }

  /** With a positive rate the callback fires exactly when the elapsed time
      exceeds 0.9 frame intervals, and never when no time has passed. */
  lemma ThrottleSpec(msDiff: int, fastestMHz: real)
    requires fastestMHz > 0.0
    ensures ShouldFire(msDiff, fastestMHz) <==> msDiff as real * fastestMHz > 900000.0
    ensures !ShouldFire(0, fastestMHz)
  {
    AboveQuotient(msDiff as real, 900000.0, fastestMHz);
    AboveQuotient(0.0, 900000.0, fastestMHz);
  }

  /** `x > a / m` and `x * m > a` agree for a positive `m`. */
  lemma AboveQuotient(x: real, a: real, m: real)
    requires m > 0.0
    ensures x > a / m <==> x * m > a
  {
    var t := a / m;
    assert t * m == a;
    assert (x - t) * m == x * m - a;
    if x > t {
      assert (x - t) * m > 0.0;
    } else {
      assert (t - x) * m >= 0.0;
    }
  }

  /** The fallback timer back-dates the last callback by a second, so the
      next regular timer sees 1000 ms more. */
  function Backdate(last: Timespec): (r: Timespec)
    ensures ValidTime(last) ==> ValidTime(r)
    ensures forall now :: ValidTime(now) && ValidTime(last) ==> MsDiff(now, r) == MsDiff(now, last) + 1000
  {
    last.(sec := last.sec - 1)
  }
}
