/** The supervisor of pywm/touchpad/daemon.py. It keeps a list of tracked
    touchpads, each a reader for a device path paired with the recogniser it
    feeds, and periodically reconciles that list against the devices that
    discovery reports: unknown paths get a new pad appended and started,
    tracked pads that were not reported are stopped and removed.

    Discovery (`find_all_touchpads`, not part of this model) is the input
    `found`; starting and stopping reader threads become a list of actions.
    The half-second sleep of the supervision loop is left out: a run is a
    sequence of discovery rounds. */
module Daemon {
  import opened Util
  import Gestures

  /** A tracked touchpad: the device path its reader opened and the
      recogniser that reader feeds. */
  datatype Pad = Pad(path: string, gestures: Gestures.Recogniser)

  /** One device reported by discovery. */
  datatype Discovered = Discovered(name: string, path: string)

  /** Starting (`touchpad.start()`) or stopping and joining
      (`touchpad.stop(); touchpad.join()`) the reader of a path. */
  datatype Action = Start(path: string) | Stop(path: string)

  function Paths(pads: seq<Pad>): seq<string>
  {
    seq(|pads|, i requires 0 <= i < |pads| => pads[i].path)
  }

  function FoundPaths(found: seq<Discovered>): seq<string>
  {
    seq(|found|, i requires 0 <= i < |found| => found[i].path)
  }

  /** `_start_pad` for each path: a fresh recogniser per pad. */
  function FreshPads(paths: seq<string>): seq<Pad>
  {
    seq(|paths|, i requires 0 <= i < |paths| => Pad(paths[i], Gestures.NewRecogniser))
  }

  function Starts(paths: seq<string>): seq<Action>
  {
    seq(|paths|, i requires 0 <= i < |paths| => Start(paths[i]))
  }

  /** Where the first loop of `update` ends: after the last reported path,
      or at the IndexError, with the pads appended and started before it. */
  datatype Pass =
    | Passed(pads: seq<Pad>, validated: seq<bool>, started: seq<Action>)
    | Raised(pads: seq<Pad>, started: seq<Action>)

  /** The first loop of `update`: each reported path is looked up among the
      tracked pads (including those appended earlier in this pass). A hit
      below the length of `validated` marks that pad; a miss appends and
      starts a new pad; a hit on a pad appended in this pass indexes past
      the end of `validated`, the IndexError that ends the pass as Raised. */
  function Discover(pads: seq<Pad>, validated: seq<bool>, found: seq<string>, started: seq<Action>): (r: Pass)
    requires |validated| <= |pads|
    ensures r.Passed? ==> |r.validated| == |validated| <= |r.pads|
    decreases |found|
  {
    if |found| == 0 then Passed(pads, validated, started)
    else
      var p := found[0];
      match FirstIndexOf(Paths(pads), p)
      case None => Discover(pads + [Pad(p, Gestures.NewRecogniser)], validated, found[1..], started + [Start(p)])
      case Some(i) =>
        if i < |validated| then Discover(pads, validated[i := true], found[1..], started)
        else Raised(pads, started)
  }

  /** The second loop of `update`: indices below `k` are visited from the
      highest down, and each unmarked pad is stopped and deleted. */
  function StopUnvalidated(pads: seq<Pad>, validated: seq<bool>, k: nat, stopped: seq<Action>): (r: (seq<Pad>, seq<Action>))
    requires k <= |validated| && k <= |pads|
    decreases k
  {
    if k == 0 then (pads, stopped)
    else
      var i := k - 1;
      if validated[i] then StopUnvalidated(pads, validated, i, stopped)
      else StopUnvalidated(pads[..i] + pads[i + 1..], validated, i, stopped + [Stop(pads[i].path)])
  }

  /** The outcome of `TouchpadDaemon.update`: the tracked pads and the
      actions taken, up to the IndexError when it raised. */
  datatype Reconciled =
    | Reconciled(pads: seq<Pad>, actions: seq<Action>)
    | UpdateFailed(pads: seq<Pad>, actions: seq<Action>)

  /** `TouchpadDaemon.update`. */
  function Update(pads: seq<Pad>, found: seq<Discovered>): Reconciled
  {
    match Discover(pads, seq(|pads|, _ => false), FoundPaths(found), [])
    case Raised(grown, started) => UpdateFailed(grown, started)
    case Passed(grown, validated, started) =>
      var (kept, stopped) := StopUnvalidated(grown, validated, |validated|, []);
      Reconciled(kept, started + stopped)
  }

  // ---------------------------------------------------------------------
  // Reference definitions of what `update` computes.
  // ---------------------------------------------------------------------

  /** Some path not in `known` is reported twice. */
  ghost predicate DuplicateNew(found: seq<string>, known: set<string>)
  {
    exists i, j :: 0 <= i < j < |found| && found[i] == found[j] && found[i] !in known
  }

  /** The reported paths not in `known`, each once, in order of first
      report. */
  function Novel(found: seq<string>, known: set<string>): seq<string>
    decreases |found|
  {
    if |found| == 0 then []
    else if found[0] in known then Novel(found[1..], known)
    else [found[0]] + Novel(found[1..], known + {found[0]})
  }

  /** The new paths are exactly the reported paths not in `known`. */
  lemma {:induction false} NovelMembers(found: seq<string>, known: set<string>)
    ensures forall p :: p in Novel(found, known) <==> p in found && p !in known
    decreases |found|
  {
    if |found| > 0 {
      var rest := found[1..];
      assert forall p :: p in found <==> p == found[0] || p in rest;
      if found[0] in known {
        NovelMembers(rest, known);
      } else {
        NovelMembers(rest, known + {found[0]});
      }
    }
  }

  /** Pad `i` is the first tracked pad with its path: the one a lookup by
      path finds. */
  predicate FirstWithPath(pads: seq<Pad>, i: nat)
    requires i < |pads|
  {
    FirstIndexOf(Paths(pads), pads[i].path) == Some(i)
  }

  /** Which tracked pads a pass validates: the first pad of each reported
      path. */
  function Validated(pads: seq<Pad>, found: seq<string>): (r: seq<bool>)
    ensures |r| == |pads|
    ensures forall i :: 0 <= i < |pads| ==> (r[i] <==> FirstWithPath(pads, i) && pads[i].path in found)
  {
    seq(|pads|, i requires 0 <= i < |pads| => FirstWithPath(pads, i) && pads[i].path in found)
  }

  /** The pads whose flag is set, in their original order. */
  function Kept(pads: seq<Pad>, flags: seq<bool>): seq<Pad>
    requires |flags| == |pads|
  {
    if |pads| == 0 then []
    else
      var i := |pads| - 1;
      Kept(pads[..i], flags[..i]) + (if flags[i] then [pads[i]] else [])
  }

  /** Stop actions for the pads whose flag is clear, highest index first. */
  function Dropped(pads: seq<Pad>, flags: seq<bool>): seq<Action>
    requires |flags| == |pads|
  {
    if |pads| == 0 then []
    else
      var i := |pads| - 1;
      (if flags[i] then [] else [Stop(pads[i].path)]) + Dropped(pads[..i], flags[..i])
  }

  // ---------------------------------------------------------------------
  // The implementation agrees with the reference.
  // ---------------------------------------------------------------------

  lemma PathsAppend(a: seq<Pad>, b: seq<Pad>)
    ensures Paths(a + b) == Paths(a) + Paths(b)
  {
  }

  lemma StartsAppend(a: seq<string>, b: seq<string>)
    ensures Starts(a + b) == Starts(a) + Starts(b)
  {
  }

  /** Looking a path up in the tracked paths followed by those appended in
      this pass. */
  lemma FirstIndexOfAppend(tracked: seq<string>, added: seq<string>, p: string)
    ensures FirstIndexOf(tracked + added, p).None? <==> p !in tracked && p !in added
    ensures p in tracked ==> FirstIndexOf(tracked + added, p) == FirstIndexOf(tracked, p)
    ensures p !in tracked && p in added ==> FirstIndexOf(tracked + added, p).value >= |tracked|
  {
    var s := tracked + added;
    if p in tracked {
      var i := FirstIndexOf(tracked, p).value;
      assert s[i] == p;
      assert FirstIndexOf(s, p).value <= i;
      assert FirstIndexOf(s, p).value >= i;
    }
  }

  /** A path that is already known contributes no duplicate. */
  lemma DuplicateNewKnownHead(found: seq<string>, known: set<string>)
    requires |found| > 0 && found[0] in known
    ensures DuplicateNew(found, known) <==> DuplicateNew(found[1..], known)
  {
    var rest := found[1..];
    if DuplicateNew(found, known) {
      var i, j :| 0 <= i < j < |found| && found[i] == found[j] && found[i] !in known;
      assert i > 0;
      assert rest[i - 1] == rest[j - 1];
    }
    if DuplicateNew(rest, known) {
      var i, j :| 0 <= i < j < |rest| && rest[i] == rest[j] && rest[i] !in known;
      assert found[i + 1] == found[j + 1];
    }
  }

  /** A new path at the head is a duplicate exactly when it is reported
      again later, or some other new path is reported twice. */
  lemma DuplicateNewFreshHead(found: seq<string>, known: set<string>)
    requires |found| > 0 && found[0] !in known
    ensures DuplicateNew(found, known) <==> found[0] in found[1..] || DuplicateNew(found[1..], known + {found[0]})
  {
    var p, rest := found[0], found[1..];
    if DuplicateNew(found, known) {
      var i, j :| 0 <= i < j < |found| && found[i] == found[j] && found[i] !in known;
      if i == 0 {
        assert rest[j - 1] == p;
      } else if found[i] == p {
        assert rest[i - 1] == p;
      } else {
        assert rest[i - 1] == rest[j - 1] && rest[i - 1] !in known + {p};
      }
    }
    if p in rest {
      var j :| 0 <= j < |rest| && rest[j] == p;
      assert found[0] == found[j + 1];
    }
    if DuplicateNew(rest, known + {p}) {
      var i, j :| 0 <= i < j < |rest| && rest[i] == rest[j] && rest[i] !in known + {p};
      assert found[i + 1] == found[j + 1];
    }
  }

  /** The first loop of `update` fails exactly when a reported path is one
      appended in this pass, or a path unknown so far is reported twice. */
  lemma {:induction false} DiscoverFails(tracked: seq<Pad>, added: seq<string>, validated: seq<bool>, found: seq<string>, started: seq<Action>)
    requires |validated| == |tracked|
    requires forall k :: 0 <= k < |added| ==> added[k] !in Paths(tracked)
    ensures var known := set p | p in Paths(tracked) + added;
            var failed := Discover(tracked + FreshPads(added), validated, found, started).Raised?;
            failed <==> (exists k :: 0 <= k < |found| && found[k] in added) || DuplicateNew(found, known)
    decreases |found|
  {
    var known := set p | p in Paths(tracked) + added;
    var pads := tracked + FreshPads(added);
    PathsAppend(tracked, FreshPads(added));
    assert Paths(FreshPads(added)) == added;
    if |found| == 0 {
      return;
    }
    var p, rest := found[0], found[1..];
    FirstIndexOfAppend(Paths(tracked), added, p);
    assert forall k :: 1 <= k < |found| ==> found[k] == rest[k - 1];
    if p in Paths(tracked) {
      var i := FirstIndexOf(Paths(tracked), p).value;
      DiscoverFails(tracked, added, validated[i := true], rest, started);
      DuplicateNewKnownHead(found, known);
    } else if p in added {
    } else {
      var added' := added + [p];
      assert tracked + FreshPads(added') == pads + [Pad(p, Gestures.NewRecogniser)];
      DiscoverFails(tracked, added', validated, rest, started + [Start(p)]);
      assert (set q | q in Paths(tracked) + added') == known + {p};
      DuplicateNewFreshHead(found, known);
      if p in rest {
        var j :| 0 <= j < |rest| && rest[j] == p;
        assert rest[j] in added';
      }
    }
  }

  /** What the first loop of `update` leaves when it succeeds: the paths new
      so far appended and started in order of first report, and every first
      pad of a reported path marked. */
  lemma {:induction false} DiscoverResult(tracked: seq<Pad>, added: seq<string>, validated: seq<bool>, found: seq<string>, started: seq<Action>)
    requires |validated| == |tracked|
    requires forall k :: 0 <= k < |added| ==> added[k] !in Paths(tracked)
    requires Discover(tracked + FreshPads(added), validated, found, started).Passed?
    ensures var known := set p | p in Paths(tracked) + added;
            var novel := Novel(found, known);
            var r := Discover(tracked + FreshPads(added), validated, found, started);
            && r.pads == tracked + FreshPads(added + novel)
            && r.started == started + Starts(novel)
            && forall i :: 0 <= i < |tracked| ==> (r.validated[i] <==> validated[i] || Validated(tracked, found)[i])
    decreases |found|
  {
    var known := set p | p in Paths(tracked) + added;
    var pads := tracked + FreshPads(added);
    PathsAppend(tracked, FreshPads(added));
    assert Paths(FreshPads(added)) == added;
    if |found| == 0 {
      assert added + [] == added;
      return;
    }
    var p, rest := found[0], found[1..];
    FirstIndexOfAppend(Paths(tracked), added, p);
    assert forall q :: q in found <==> q == p || q in rest;
    if p in Paths(tracked) {
      var i := FirstIndexOf(Paths(tracked), p).value;
      DiscoverResult(tracked, added, validated[i := true], rest, started);
      forall j | 0 <= j < |tracked|
        ensures Validated(tracked, found)[j] <==> j == i || Validated(tracked, rest)[j]
      {
        if tracked[j].path == p {
          assert FirstWithPath(tracked, j) <==> j == i;
        }
      }
    } else {
      var added' := added + [p];
      assert tracked + FreshPads(added') == pads + [Pad(p, Gestures.NewRecogniser)];
      DiscoverResult(tracked, added', validated, rest, started + [Start(p)]);
      assert (set q | q in Paths(tracked) + added') == known + {p};
      var novel := Novel(rest, known + {p});
      assert added' + novel == added + ([p] + novel);
      StartsAppend([p], novel);
      forall j | 0 <= j < |tracked|
        ensures Validated(tracked, found)[j] == Validated(tracked, rest)[j]
      {
        assert Paths(tracked)[j] == tracked[j].path;
      }
    }
  }

  /** The second loop of `update` keeps the marked pads below `k` in order,
      and stops the others from the highest index down. */
  lemma {:induction false} StopUnvalidatedSpec(pads: seq<Pad>, validated: seq<bool>, k: nat, stopped: seq<Action>)
    requires k <= |validated| && k <= |pads|
    ensures StopUnvalidated(pads, validated, k, stopped)
            == (Kept(pads[..k], validated[..k]) + pads[k..], stopped + Dropped(pads[..k], validated[..k]))
    decreases k
  {
    if k == 0 {
      assert Kept(pads[..0], validated[..0]) == [];
      assert Dropped(pads[..0], validated[..0]) == [];
      assert [] + pads[0..] == pads && stopped + [] == stopped;
      return;
    }
    var i := k - 1;
    var kept, dropped := Kept(pads[..i], validated[..i]), Dropped(pads[..i], validated[..i]);
    assert pads[..k][..i] == pads[..i] && validated[..k][..i] == validated[..i];
    if validated[i] {
      StopUnvalidatedSpec(pads, validated, i, stopped);
      assert Kept(pads[..k], validated[..k]) == kept + [pads[i]];
      assert Dropped(pads[..k], validated[..k]) == [] + dropped == dropped;
      assert pads[i..] == [pads[i]] + pads[k..];
      assert (kept + [pads[i]]) + pads[k..] == kept + pads[i..];
    } else {
      var pads' := pads[..i] + pads[i + 1..];
      var stop := Stop(pads[i].path);
      StopUnvalidatedSpec(pads', validated, i, stopped + [stop]);
      assert pads'[..i] == pads[..i];
      assert pads'[i..] == pads[k..];
      assert Kept(pads[..k], validated[..k]) == kept + [] == kept;
      assert Dropped(pads[..k], validated[..k]) == [stop] + dropped;
      assert (stopped + [stop]) + dropped == stopped + ([stop] + dropped);
    }
  }

  /** `update` fails exactly when a path that was not tracked is reported
      twice. */
  lemma UpdateFails(pads: seq<Pad>, found: seq<Discovered>)
    ensures Update(pads, found).UpdateFailed? <==> DuplicateNew(FoundPaths(found), set p | p in Paths(pads))
  {
    var none := seq(|pads|, _ => false);
    assert pads + FreshPads([]) == pads;
    assert Paths(pads) + [] == Paths(pads);
    DiscoverFails(pads, [], none, FoundPaths(found), []);
  }

  /** Report `k` of a pass raises IndexError: its path was not tracked
      before the pass and has been appended in it, before the pass or by an
      earlier report. */
  ghost predicate RaisesAt(found: seq<string>, tracked: set<string>, added: seq<string>, k: int)
  {
    0 <= k < |found| && found[k] !in tracked && (found[k] in added || found[k] in found[..k])
  }

  /** Report `k` is the first of the pass to raise. */
  ghost predicate FirstRaise(found: seq<string>, tracked: set<string>, added: seq<string>, k: int)
  {
    RaisesAt(found, tracked, added, k) && forall k' :: 0 <= k' < k ==> !RaisesAt(found, tracked, added, k')
  }

  /** Where the first loop of `update` raises: at the first raising report,
      with the pads new up to it appended and started in order of first
      report. */
  lemma {:induction false} DiscoverRaised(tracked: seq<Pad>, added: seq<string>, validated: seq<bool>, found: seq<string>, started: seq<Action>)
    requires |validated| == |tracked|
    requires forall k :: 0 <= k < |added| ==> added[k] !in Paths(tracked)
    requires Discover(tracked + FreshPads(added), validated, found, started).Raised?
    ensures var t := set p | p in Paths(tracked);
            var known := set p | p in Paths(tracked) + added;
            var r := Discover(tracked + FreshPads(added), validated, found, started);
            exists k :: && FirstRaise(found, t, added, k)
                        && r.pads == tracked + FreshPads(added + Novel(found[..k], known))
                        && r.started == started + Starts(Novel(found[..k], known))
    decreases |found|, 1
  {
    if |found| > 0 {
      if found[0] in Paths(tracked) {
        DiscoverRaisedTracked(tracked, added, validated, found, started);
      } else if found[0] in added {
        var t := set p | p in Paths(tracked);
        assert RaisesAt(found, t, added, 0);
        assert found[..0] == [] && added + [] == added && started + [] == started;
        PathsAppend(tracked, FreshPads(added));
        assert Paths(FreshPads(added)) == added;
        FirstIndexOfAppend(Paths(tracked), added, found[0]);
      } else {
        DiscoverRaisedNew(tracked, added, validated, found, started);
      }
    }
  }

  /** `DiscoverRaised` when the first report is a tracked path. */
  lemma {:induction false} DiscoverRaisedTracked(tracked: seq<Pad>, added: seq<string>, validated: seq<bool>, found: seq<string>, started: seq<Action>)
    requires |validated| == |tracked|
    requires forall k :: 0 <= k < |added| ==> added[k] !in Paths(tracked)
    requires Discover(tracked + FreshPads(added), validated, found, started).Raised?
    requires |found| > 0 && found[0] in Paths(tracked)
    ensures var t := set p | p in Paths(tracked);
            var known := set p | p in Paths(tracked) + added;
            var r := Discover(tracked + FreshPads(added), validated, found, started);
            exists k :: && FirstRaise(found, t, added, k)
                        && r.pads == tracked + FreshPads(added + Novel(found[..k], known))
                        && r.started == started + Starts(Novel(found[..k], known))
    decreases |found|, 0
  {
    var t := set p | p in Paths(tracked);
    var known := set p | p in Paths(tracked) + added;
    var r := Discover(tracked + FreshPads(added), validated, found, started);
    PathsAppend(tracked, FreshPads(added));
    assert Paths(FreshPads(added)) == added;
    var p, rest := found[0], found[1..];
    FirstIndexOfAppend(Paths(tracked), added, p);
    var i := FirstIndexOf(Paths(tracked), p).value;
    DiscoverRaised(tracked, added, validated[i := true], rest, started);
    var k :| && FirstRaise(rest, t, added, k)
              && r.pads == tracked + FreshPads(added + Novel(rest[..k], known))
              && r.started == started + Starts(Novel(rest[..k], known));
    RaisedStep(found, t, added, added, known, k);
  }

  /** `DiscoverRaised` when the first report is a path neither tracked nor
      added before. */
  lemma {:induction false} DiscoverRaisedNew(tracked: seq<Pad>, added: seq<string>, validated: seq<bool>, found: seq<string>, started: seq<Action>)
    requires |validated| == |tracked|
    requires forall k :: 0 <= k < |added| ==> added[k] !in Paths(tracked)
    requires Discover(tracked + FreshPads(added), validated, found, started).Raised?
    requires |found| > 0 && found[0] !in Paths(tracked) && found[0] !in added
    ensures var t := set p | p in Paths(tracked);
            var known := set p | p in Paths(tracked) + added;
            var r := Discover(tracked + FreshPads(added), validated, found, started);
            exists k :: && FirstRaise(found, t, added, k)
                        && r.pads == tracked + FreshPads(added + Novel(found[..k], known))
                        && r.started == started + Starts(Novel(found[..k], known))
    decreases |found|, 0
  {
    var t := set p | p in Paths(tracked);
    var known := set p | p in Paths(tracked) + added;
    var pads := tracked + FreshPads(added);
    var r := Discover(pads, validated, found, started);
    PathsAppend(tracked, FreshPads(added));
    assert Paths(FreshPads(added)) == added;
    var p, rest := found[0], found[1..];
    FirstIndexOfAppend(Paths(tracked), added, p);
    var added' := added + [p];
    assert tracked + FreshPads(added') == pads + [Pad(p, Gestures.NewRecogniser)];
    DiscoverRaised(tracked, added', validated, rest, started + [Start(p)]);
    var known' := set q | q in Paths(tracked) + added';
    assert known' == known + {p};
    var k :| && FirstRaise(rest, t, added', k)
              && r.pads == tracked + FreshPads(added' + Novel(rest[..k], known'))
              && r.started == (started + [Start(p)]) + Starts(Novel(rest[..k], known'));
    RaisedStep(found, t, added, added', known, k);
    FreshConcat(added, p, Novel(rest[..k], known'), started);
  }

  /** Appending the head's fresh pad and start before the rest's. */
  lemma FreshConcat(added: seq<string>, p: string, novel: seq<string>, started: seq<Action>)
    ensures (added + [p]) + novel == added + ([p] + novel)
    ensures (started + [Start(p)]) + Starts(novel) == started + Starts([p] + novel)
  {
    StartsAppend([p], novel);
  }

  /** The first raise of the rest of a pass is, one report later, the first
      raise of the whole pass, and the head's new path leads the new ones. */
  lemma RaisedStep(found: seq<string>, t: set<string>, added: seq<string>, added': seq<string>, known: set<string>, k: nat)
    requires |found| > 0 && found[0] !in added
    requires found[0] in t ==> added' == added
    requires found[0] !in t ==> added' == added + [found[0]]
    requires forall q :: q in known <==> q in t || q in added
    requires FirstRaise(found[1..], t, added', k)
    ensures FirstRaise(found, t, added, k + 1)
    ensures found[0] in t ==> Novel(found[..k + 1], known) == Novel(found[1..][..k], known)
    ensures found[0] !in t ==> Novel(found[..k + 1], known) == [found[0]] + Novel(found[1..][..k], known + {found[0]})
  {
    RaisesShift(found, t, added, added', k);
    forall k' | 0 <= k' < k + 1
      ensures !RaisesAt(found, t, added, k')
    {
      if k' > 0 {
        RaisesShift(found, t, added, added', k' - 1);
      }
    }
    var prefix := found[..k + 1];
    assert prefix[0] == found[0] && prefix[1..] == found[1..][..k];
  }

  /** A report after the head raises exactly when it raises in the rest of
      the pass, with the head appended when it was new. */
  lemma RaisesShift(found: seq<string>, t: set<string>, added: seq<string>, added': seq<string>, k: nat)
    requires |found| > 0
    requires found[0] in t ==> added' == added
    requires found[0] !in t ==> added' == added + [found[0]]
    ensures RaisesAt(found, t, added, k + 1) <==> RaisesAt(found[1..], t, added', k)
  {
    if k + 1 < |found| {
      assert found[..k + 1] == [found[0]] + found[1..][..k];
      assert found[k + 1] == found[1..][k];
    }
  }

  /** A raising `update` leaves the tracked pads followed by a fresh pad for
      each path new before the first raising report, each started, and
      stops nothing: the pads the IndexError strands are still tracked. */
  lemma UpdateFailedSpec(pads: seq<Pad>, found: seq<Discovered>)
    requires Update(pads, found).UpdateFailed?
    ensures var paths := FoundPaths(found);
            var t := set p | p in Paths(pads);
            var r := Update(pads, found);
            exists k :: && FirstRaise(paths, t, [], k)
                        && r.pads == pads + FreshPads(Novel(paths[..k], t))
                        && r.actions == Starts(Novel(paths[..k], t))
  {
    var none := seq(|pads|, _ => false);
    assert pads + FreshPads([]) == pads;
    assert Paths(pads) + [] == Paths(pads);
    DiscoverRaised(pads, [], none, FoundPaths(found), []);
    var t := set p | p in Paths(pads);
    assert forall x: seq<string> :: [] + x == x;
    assert forall x: seq<Action> :: [] + x == x;
  }

  /** A raising `update` starts exactly the pads it adds and stops none. */
  lemma UpdateFailedBalance(pads: seq<Pad>, found: seq<Discovered>)
    requires Update(pads, found).UpdateFailed?
    ensures var r := Update(pads, found);
            CountStarts(r.actions) + |pads| == |r.pads| && CountStops(r.actions) == 0
  {
    UpdateFailedSpec(pads, found);
    var paths := FoundPaths(found);
    var t := set p | p in Paths(pads);
    var k :| && FirstRaise(paths, t, [], k)
              && Update(pads, found).pads == pads + FreshPads(Novel(paths[..k], t))
              && Update(pads, found).actions == Starts(Novel(paths[..k], t));
    CountUniform(Novel(paths[..k], t), [], []);
  }

  /** A round reporting one new path twice starts the pads up to the repeat,
      and the shutdown of `run` stops them again, last first. */
  lemma FailedRoundStopsItsStarts()
    ensures RunRounds([], [[Discovered("a", "/x"), Discovered("b", "/y"), Discovered("c", "/y")]])
            == [Start("/x"), Start("/y"), Stop("/y"), Stop("/x")]
  {
    var found := [Discovered("a", "/x"), Discovered("b", "/y"), Discovered("c", "/y")];
    var x, y := Pad("/x", Gestures.NewRecogniser), Pad("/y", Gestures.NewRecogniser);
    assert FoundPaths(found) == ["/x", "/y", "/y"];
    var none: seq<Pad> := [];
    assert seq(|none|, _ => false) == [];
    RepeatRaises();
    assert Update([], found) == UpdateFailed([x, y], [Start("/x"), Start("/y")]);
    assert Shutdown([x, y]).1 == [Stop("/y"), Stop("/x")];
  }

  /** The first loop over "/x", "/y", "/y" with nothing tracked starts both
      paths and raises on the repeat. */
  lemma RepeatRaises()
    ensures var x, y := Pad("/x", Gestures.NewRecogniser), Pad("/y", Gestures.NewRecogniser);
            Discover([], [], ["/x", "/y", "/y"], []) == Raised([x, y], [Start("/x"), Start("/y")])
  {
    var x, y := Pad("/x", Gestures.NewRecogniser), Pad("/y", Gestures.NewRecogniser);
    RepeatFirstStep();
    RepeatSecondStep();
    assert Paths([x, y]) == ["/x", "/y"];
    assert FirstIndexOf(Paths([x, y]), "/y") == Some(1);
  }

  lemma RepeatFirstStep()
    ensures Discover([], [], ["/x", "/y", "/y"], [])
            == Discover([Pad("/x", Gestures.NewRecogniser)], [], ["/y", "/y"], [Start("/x")])
  {
    var none: seq<Pad> := [];
    assert Paths(none) == [];
    assert FirstIndexOf(Paths(none), "/x") == None;
    assert ["/x", "/y", "/y"][1..] == ["/y", "/y"];
    assert none + [Pad("/x", Gestures.NewRecogniser)] == [Pad("/x", Gestures.NewRecogniser)];
  }

  lemma RepeatSecondStep()
    ensures var x, y := Pad("/x", Gestures.NewRecogniser), Pad("/y", Gestures.NewRecogniser);
            Discover([x], [], ["/y", "/y"], [Start("/x")]) == Discover([x, y], [], ["/y"], [Start("/x"), Start("/y")])
  {
    var x, y := Pad("/x", Gestures.NewRecogniser), Pad("/y", Gestures.NewRecogniser);
    assert Paths([x]) == ["/x"];
    assert FirstIndexOf(Paths([x]), "/y") == None;
    assert ["/y", "/y"][1..] == ["/y"];
    assert [x] + [y] == [x, y];
  }

  /** The first loop of a successful `update` appends and starts the new
      paths and marks the first pad of each reported path. */
  lemma UpdateDiscovers(pads: seq<Pad>, found: seq<Discovered>)
    requires Discover(pads, seq(|pads|, _ => false), FoundPaths(found), []).Passed?
    ensures var paths := FoundPaths(found);
            var novel := Novel(paths, set p | p in Paths(pads));
            Discover(pads, seq(|pads|, _ => false), paths, [])
              == Passed(pads + FreshPads(novel), Validated(pads, paths), Starts(novel))
  {
    var paths := FoundPaths(found);
    var none := seq(|pads|, _ => false);
    assert pads + FreshPads([]) == pads;
    assert Paths(pads) + [] == Paths(pads);
    DiscoverResult(pads, [], none, paths, []);
    var r := Discover(pads, none, paths, []);
    assert |r.validated| == |pads|;
    assert forall i :: 0 <= i < |pads| ==> r.validated[i] == Validated(pads, paths)[i];
    assert r.validated == Validated(pads, paths);
  }

  /** When `update` succeeds, the tracked list becomes the validated pads
      in their old order followed by one fresh pad per new path, in order
      of first report; the new pads are started first, then the pads that
      were not validated are stopped from the highest index down. */
  lemma UpdateSpec(pads: seq<Pad>, found: seq<Discovered>)
    requires Update(pads, found).Reconciled?
    ensures var paths := FoundPaths(found);
            var novel := Novel(paths, set p | p in Paths(pads));
            var flags := Validated(pads, paths);
            var r := Update(pads, found);
            && r.pads == Kept(pads, flags) + FreshPads(novel)
            && r.actions == Starts(novel) + Dropped(pads, flags)
  {
    var paths := FoundPaths(found);
    var novel := Novel(paths, set p | p in Paths(pads));
    var flags := Validated(pads, paths);
    UpdateDiscovers(pads, found);
    var grown := pads + FreshPads(novel);
    assert Discover(pads, seq(|pads|, _ => false), paths, []) == Passed(grown, flags, Starts(novel));
    assert |flags| == |pads|;
    StopUnvalidatedSpec(grown, flags, |flags|, []);
    assert grown[..|flags|] == pads && grown[|flags|..] == FreshPads(novel);
    assert flags[..|flags|] == flags;
    var stopped := StopUnvalidated(grown, flags, |flags|, []);
    assert stopped == (Kept(pads, flags) + FreshPads(novel), [] + Dropped(pads, flags));
    assert [] + Dropped(pads, flags) == Dropped(pads, flags);
  }

  lemma {:induction false} KeptPaths(pads: seq<Pad>, flags: seq<bool>, p: string)
    requires |flags| == |pads|
    ensures p in Paths(Kept(pads, flags)) <==> exists i :: 0 <= i < |pads| && flags[i] && pads[i].path == p
    decreases |pads|
  {
    if |pads| > 0 {
      var i := |pads| - 1;
      var init := Kept(pads[..i], flags[..i]);
      var tail := if flags[i] then [pads[i]] else [];
      KeptPaths(pads[..i], flags[..i], p);
      PathsAppend(init, tail);
      assert Kept(pads, flags) == init + tail;
      if exists j :: 0 <= j < |pads| && flags[j] && pads[j].path == p {
        var j :| 0 <= j < |pads| && flags[j] && pads[j].path == p;
        if j < i {
          assert pads[..i][j] == pads[j] && flags[..i][j] == flags[j];
        } else {
          assert Paths(tail)[0] == p;
        }
      }
      if p in Paths(init) {
        var j :| 0 <= j < i && flags[..i][j] && pads[..i][j].path == p;
        assert flags[j] && pads[j].path == p;
      }
    }
  }

  lemma {:induction false} KeptDroppedSizes(pads: seq<Pad>, flags: seq<bool>)
    requires |flags| == |pads|
    ensures |Kept(pads, flags)| + |Dropped(pads, flags)| == |pads|
    ensures forall a :: a in Dropped(pads, flags) ==> a.Stop? && a.path in Paths(pads)
    decreases |pads|
  {
    if |pads| > 0 {
      var i := |pads| - 1;
      KeptDroppedSizes(pads[..i], flags[..i]);
      var head := if flags[i] then [] else [Stop(pads[i].path)];
      assert Dropped(pads, flags) == head + Dropped(pads[..i], flags[..i]);
      forall a | a in Dropped(pads, flags)
        ensures a.Stop? && a.path in Paths(pads)
      {
        if a in Dropped(pads[..i], flags[..i]) {
          var j :| 0 <= j < i && Paths(pads[..i])[j] == a.path;
          assert Paths(pads)[j] == a.path;
        } else {
          assert Paths(pads)[i] == a.path;
        }
      }
    }
  }

  /** After a successful `update` the tracked paths are exactly the reported
      ones; only pads tracked before are stopped, and only paths that were
      not tracked are started. */
  lemma UpdateTracksFound(pads: seq<Pad>, found: seq<Discovered>)
    requires Update(pads, found).Reconciled?
    ensures var r := Update(pads, found);
            && (forall p :: p in Paths(r.pads) <==> p in FoundPaths(found))
            && (forall a :: a in r.actions && a.Stop? ==> a.path in Paths(pads))
            && (forall a :: a in r.actions && a.Start? ==> a.path !in Paths(pads))
  {
    UpdatePathsAreFound(pads, found);
    UpdateActionSides(pads, found);
  }

  /** After a successful `update` the tracked paths are the reported ones. */
  lemma UpdatePathsAreFound(pads: seq<Pad>, found: seq<Discovered>)
    requires Update(pads, found).Reconciled?
    ensures forall p :: p in Paths(Update(pads, found).pads) <==> p in FoundPaths(found)
  {
    var paths := FoundPaths(found);
    var known := set p | p in Paths(pads);
    var novel := Novel(paths, known);
    var flags := Validated(pads, paths);
    NovelMembers(paths, known);
    UpdateSpec(pads, found);
    var r := Update(pads, found);
    PathsAppend(Kept(pads, flags), FreshPads(novel));
    assert Paths(FreshPads(novel)) == novel;
    forall p
      ensures p in Paths(r.pads) <==> p in paths
    {
      KeptPaths(pads, flags, p);
      if p in paths && p in Paths(pads) {
        var i := FirstIndexOf(Paths(pads), p).value;
        assert flags[i];
      }
    }
  }

  /** A successful `update` stops only tracked pads and starts only
      untracked paths. */
  lemma UpdateActionSides(pads: seq<Pad>, found: seq<Discovered>)
    requires Update(pads, found).Reconciled?
    ensures forall a :: a in Update(pads, found).actions && a.Stop? ==> a.path in Paths(pads)
    ensures forall a :: a in Update(pads, found).actions && a.Start? ==> a.path !in Paths(pads)
  {
    var paths := FoundPaths(found);
    var known := set p | p in Paths(pads);
    var flags := Validated(pads, paths);
    NovelMembers(paths, known);
    UpdateSpec(pads, found);
    KeptDroppedSizes(pads, flags);
  }

  /** With distinct reported paths, `update` succeeds. */
  lemma DistinctFoundSucceeds(pads: seq<Pad>, found: seq<Discovered>)
    requires forall i, j :: 0 <= i < j < |found| ==> found[i].path != found[j].path
    ensures Update(pads, found).Reconciled?
  {
    UpdateFails(pads, found);
  }

  /** `reset_gestures`: every tracked recogniser drops its gesture without
      terminating it; nothing else changes. */
  function ResetGestures(pads: seq<Pad>): (r: seq<Pad>)
    ensures |r| == |pads|
    ensures forall i :: 0 <= i < |pads| ==>
              && r[i].path == pads[i].path
              && r[i].gestures == Gestures.Handle(pads[i].gestures, Gestures.Reset, (x, y) => 0.0).r
  {
    seq(|pads|, i requires 0 <= i < |pads| => pads[i].(gestures := pads[i].gestures.(active := None)))
  }

  /** `update_config`: every tracked recogniser gets the same configuration;
      nothing else changes. */
  function UpdateConfig(pads: seq<Pad>, twoFingerMinDist: real, lpFreq: real, lpInertia: real, validateThreshold: real): (r: seq<Pad>)
    ensures |r| == |pads|
    ensures forall i :: 0 <= i < |pads| ==>
              && r[i].path == pads[i].path
              && r[i].gestures.active == pads[i].gestures.active
              && r[i].gestures.nextSerial == pads[i].gestures.nextSerial
              && r[i].gestures.config == Gestures.UpdateConfig(twoFingerMinDist, lpFreq, lpInertia, validateThreshold)
  {
    var c := Gestures.UpdateConfig(twoFingerMinDist, lpFreq, lpInertia, validateThreshold);
    seq(|pads|, i requires 0 <= i < |pads| => pads[i].(gestures := pads[i].gestures.(config := c)))
  }

  /** The `finally` clause of `run`: every tracked pad is stopped, from the
      last one to the first, and removed. */
  function Shutdown(pads: seq<Pad>): (r: (seq<Pad>, seq<Action>))
    ensures r.0 == []
    ensures |r.1| == |pads|
    ensures forall k :: 0 <= k < |pads| ==> r.1[k] == Stop(pads[|pads| - 1 - k].path)
  {
    if |pads| == 0 then ([], [])
    else
      var i := |pads| - 1;
      var (_, rest) := Shutdown(pads[..i]);
      ([], [Stop(pads[i].path)] + rest)
  }

  /** `run`: reconciliation rounds until discovery runs out (the daemon is
      asked to stop) or an update raises; then the shutdown, which also
      stops the pads a raising update started before the IndexError. */
  function RunRounds(pads: seq<Pad>, rounds: seq<seq<Discovered>>): (r: seq<Action>)
    decreases |rounds|
  {
    if |rounds| == 0 then Shutdown(pads).1
    else match Update(pads, rounds[0])
      case UpdateFailed(pads', acts) => acts + Shutdown(pads').1
      case Reconciled(pads', acts) => acts + RunRounds(pads', rounds[1..])
  }

  function CountStarts(acts: seq<Action>): nat
  {
    if |acts| == 0 then 0 else (if acts[0].Start? then 1 else 0) + CountStarts(acts[1..])
  }

  function CountStops(acts: seq<Action>): nat
  {
    if |acts| == 0 then 0 else (if acts[0].Stop? then 1 else 0) + CountStops(acts[1..])
  }

  lemma {:induction false} CountAppend(a: seq<Action>, b: seq<Action>)
    ensures CountStarts(a + b) == CountStarts(a) + CountStarts(b)
    ensures CountStops(a + b) == CountStops(a) + CountStops(b)
    decreases |a|
  {
    if |a| == 0 {
      assert a + b == b;
    } else {
      assert (a + b)[0] == a[0];
      assert (a + b)[1..] == a[1..] + b;
      CountAppend(a[1..], b);
    }
  }

  lemma {:induction false} CountUniform(paths: seq<string>, pads: seq<Pad>, flags: seq<bool>)
    requires |flags| == |pads|
    ensures CountStarts(Starts(paths)) == |paths| && CountStops(Starts(paths)) == 0
    ensures CountStarts(Dropped(pads, flags)) == 0 && CountStops(Dropped(pads, flags)) == |Dropped(pads, flags)|
    decreases |paths| + |pads|
  {
    if |paths| > 0 {
      assert Starts(paths)[1..] == Starts(paths[1..]);
      CountUniform(paths[1..], pads, flags);
    } else if |pads| > 0 {
      var i := |pads| - 1;
      CountUniform(paths, pads[..i], flags[..i]);
      CountAppend(if flags[i] then [] else [Stop(pads[i].path)], Dropped(pads[..i], flags[..i]));
    }
  }

  lemma {:induction false} CountShutdown(pads: seq<Pad>)
    ensures CountStarts(Shutdown(pads).1) == 0 && CountStops(Shutdown(pads).1) == |pads|
    decreases |pads|
  {
    if |pads| > 0 {
      CountShutdown(pads[..|pads| - 1]);
    }
  }

  /** Each round starts as many readers as it adds to the tracked list and
      stops as many as it removes. */
  lemma UpdateBalance(pads: seq<Pad>, found: seq<Discovered>)
    requires Update(pads, found).Reconciled?
    ensures var r := Update(pads, found);
            CountStarts(r.actions) + |pads| == CountStops(r.actions) + |r.pads|
  {
    var paths := FoundPaths(found);
    var novel := Novel(paths, set p | p in Paths(pads));
    var flags := Validated(pads, paths);
    UpdateSpec(pads, found);
    KeptDroppedSizes(pads, flags);
    CountUniform(novel, pads, flags);
    CountAppend(Starts(novel), Dropped(pads, flags));
  }

  /** Over a whole run, every reader started is stopped: a run that begins
      with `pads` tracked stops exactly `|pads|` more readers than it
      starts. */
  lemma {:induction false} RunStopsEverything(pads: seq<Pad>, rounds: seq<seq<Discovered>>)
    ensures CountStops(RunRounds(pads, rounds)) == CountStarts(RunRounds(pads, rounds)) + |pads|
    decreases |rounds|
  {
    if |rounds| == 0 {
      CountShutdown(pads);
    } else if Update(pads, rounds[0]).UpdateFailed? {
      var r := Update(pads, rounds[0]);
      UpdateFailedBalance(pads, rounds[0]);
      CountShutdown(r.pads);
      CountAppend(r.actions, Shutdown(r.pads).1);
    } else {
      var r := Update(pads, rounds[0]);
      UpdateBalance(pads, rounds[0]);
      RunStopsEverything(r.pads, rounds[1..]);
      CountAppend(r.actions, RunRounds(r.pads, rounds[1..]));
    }
  }
}
