# pywm core in Dafny

A model of the core of pywm, a Wayland compositor written in C with a window manager frontend in Python, together with proofs about that model. It covers three parts:

- **The touchpad gesture pipeline** of `pywm/touchpad/`, plus the older decoder in `pywm/multitouch.py`. It has four stages:
  - raw evdev multitouch events are decoded into per-frame snapshots (`Touchpad`, `TouchData`);
  - the unstable hardware tracking ids are remapped to logical ids by a mutual-nearest-neighbour match (`Sanitize`);
  - frames are classified into single-finger, two-finger and higher swipe gestures, each behind a dead-zone gate (`Gestures`), with the higher swipe's displacement accounting in `SwipeDisplacement`;
  - the set of tracked touchpads is reconciled against the devices discovery reports (`Daemon`).
  - `DeviceScan` models the parse of `/proc/bus/input/devices` that both decoders use to find their device.
- **The compositor's bookkeeping** in `src/wm/` and `src/py/`:
  - the z-index sort of the content list, the lock state, the virtual output name check and the update throttle (`WmServer`);
  - the handle registries of views and widgets (`Registry`, `PyViews`, `PyWidgets`);
  - the content setters with their dead zones (`WmContent`);
  - the exclusivity of widget textures and shader primitives (`WmWidget`);
  - the output configuration list and the cursor size from the environment (`WmConfig`);
  - gesture forwarding and the cursor image (`WmCursor`);
  - the blur extent and the compose tree that splits damage among composites (`WmComposite`);
  - the size rules of Xwayland and layer-shell views (`WmViewXwayland`, `WmViewLayer`).
- **The Python frontend**:
  - the pending, read-once state handed between `PyWM` and the compositor (`PyWm`);
  - the view and widget mirrors (`PyView`, `PyWidget`);
  - the damage tree of `DamageTracked` (`DamageTracked`).

Each source file has its own module; the higher swipe's displacement proofs about `pywm/touchpad/gestures.py` sit in a second one. State is held in immutable datatypes. Every operation is a pure function from the old state and its inputs to the new state plus what it emits. Listener callbacks become emitted event lists, and threads become sequences of inputs. Coordinates and C doubles are exact reals.

Things the source gets from its environment are parameters of the model:

- the clock;
- the device and file contents;
- the window manager's callback answers;
- the square root of the two-finger distance (the function `hypot`);
- the buffer size of output names.

An exception that ends a reader thread, a daemon round or the frontend's `_update` is an error result, not a precondition.

Where the code and its natural reading differ, the model follows the code:

- a bogus frame is suppressed when the reported finger count is *at least* the slot count (`pywm/touchpad/touchpad.py:96-99`);
- a higher swipe *terminates* when the finger count rises within 0.2 s of its start (`pywm/touchpad/gestures.py:224-226`), so the next classification replaces it;
- the frame that validates a gesture is delivered to the gesture's listeners before the recogniser announces the gesture (`pywm/touchpad/gestures.py:131-133` and `:308-311`). The frontend attaches its listener only when the gesture is announced (`pywm/pywm.py:376-379`), so the validating frame, which carries exactly the gate's centers, reaches no listener;
- a frame that ends the active gesture and then fails the next gesture's constructor assertion has already delivered `terminate` (`pywm/touchpad/gestures.py:296-306`), so the model's failing frame keeps that event;
- `process` is marked `@abstractmethod`, but `PyWM` is not an abstract base class (`pywm/pywm.py:89`, `:449-454`), so the default body returning None is allowed; `_update` stores that None and raises on it until a later `process` returns a state (`pywm/pywm.py:349-357`);
- a view's `_update` looks its parent up in `self.wm.views` (`pywm/pywm_view.py:32-35`), but `PyWM` keeps its views in `_views` and defines no `views` (`pywm/pywm.py:115`). So under `PyWM` an update that reports a parent raises AttributeError before it touches anything. `_update_view` logs that for a known view and answers None; for a new view the exception leaves the callback after the view is registered, and `_execute_view_main` is never run for it (`pywm/pywm.py:270-288`). The model keeps the `views` lookup as a parameter, which a subclass may define;
- the Xwayland view header lacks the `children` and `configure_upon_child` fields that `src/wm/wm_view_xwayland.c` uses; the source is followed.

## Model

| member | source | states |
|---|---|---|
| TouchData.Ids | pywm/touchpad/sanitize_bogus_ids.py:85-86 | the ids of a touch list, one per touch, in list order |
| TouchData.IdSet | pywm/touchpad/sanitize_bogus_ids.py:85-86 | definition: the set of hardware ids a frame carries; an id is in it exactly when some touch carries it |
| TouchData.IndexOfId | pywm/touchpad/gestures.py:242 | the first position holding the id, no earlier position holds it, and None (Python's ValueError) exactly when no touch has the id |
| Touchpad.SetTrackingId | pywm/touchpad/touchpad.py:18-23 | the slot becomes active exactly when the id is non-negative; a negative id resets x, y and z to -1, a non-negative one keeps them |
| Touchpad.GrowSlots | pywm/touchpad/touchpad.py:77-84 | a negative slot number fails ("Invalid slot"); otherwise the list is extended to cover slot n with fresh slots numbered by position, and the existing slots are untouched |
| Touchpad.GrowSlotsWf | pywm/touchpad/touchpad.py:81-84 | after growing, every slot sits at the index of its own number and slot n exists |
| Touchpad.WriteSlot | pywm/touchpad/touchpad.py:140-147 | writing a field of slot n fails only for a negative n, changes only slot n and fills any gap with fresh slots |
| Touchpad.AxesOf | pywm/touchpad/touchpad.py:56-71 | an axis range is known exactly when the capabilities list its code |
| Touchpad.Normalise | pywm/touchpad/touchpad.py:104-105 | the normalised value times the range width equals the offset from the minimum; it is undefined exactly when the range is missing or empty |
| Touchpad.NormaliseUnit | pywm/touchpad/touchpad.py:104-105 | a value inside a proper range normalises into [0, 1] |
| Touchpad.PressureOf | pywm/touchpad/touchpad.py:106 | definition of the pressure entry: 1.0 without a pressure axis, otherwise the normalised pressure |
| Touchpad.TouchOf | pywm/touchpad/touchpad.py:103-107 | definition of a slot's tuple: it exists exactly when all three normalisations do and carries the tracking id and the normalised coordinates |
| Touchpad.ActiveSlots | pywm/touchpad/touchpad.py:90 | a slot is listed exactly when it is in the table and active; with no active slot the list is empty |
| Touchpad.ActiveSlotsFromTable | pywm/touchpad/touchpad.py:103-107 | in a table numbered by position, every listed slot is the table's entry for its slot number |
| Touchpad.ActiveSlotsInOrder | pywm/touchpad/touchpad.py:103-107 | the comprehension keeps the table's order: the slot numbers of the listed slots strictly increase |
| Touchpad.ActiveSlotsCount | pywm/touchpad/touchpad.py:89-99 | in a table indexed by slot number, the list is as long as the number of active slots the table holds, the count `synchronize` compares |
| Touchpad.TouchesOf | pywm/touchpad/touchpad.py:103-107 | one tuple per active slot, in slot order, and the frame fails exactly when one of the tuples does |
| Touchpad.NewReader | pywm/touchpad/touchpad.py:41-71 | a new reader has no fingers, two nominal slots, an empty slot table, current slot 0 and the axis ranges of its capabilities |
| Touchpad.Synchronize | pywm/touchpad/touchpad.py:89-111 | an emitted frame carries the reader's finger count and the current time; apart from the finger count the reader is unchanged |
| Touchpad.SyncNoActive | pywm/touchpad/touchpad.py:90-91 | with no active slot the finger count drops to 0 and an empty frame is emitted |
| Touchpad.SyncSkipsBogus | pywm/touchpad/touchpad.py:96-99 | a sync is skipped exactly when some slot is active, the finger count has reached the slot count and fewer slots than that are active |
| Touchpad.TouchOfSpec | pywm/touchpad/touchpad.py:103-107 | each emitted touch carries its slot's tracking id and coordinates normalised against the axis ranges, and pressure 1.0 without a pressure axis |
| Touchpad.SyncEmitsActive | pywm/touchpad/touchpad.py:101-108 | an emitted frame lists one tuple per active slot, each that slot's tuple, every listed id non-negative, and with a table indexed by slot number the slot numbers strictly increase |
| Touchpad.SyncEmitsEnough | pywm/touchpad/touchpad.py:96-108 | a frame reporting at least as many fingers as slots lists at least that many touches |
| Touchpad.ToolFingers | pywm/touchpad/touchpad.py:125-135 | a tool key announces between one and five fingers |
| Touchpad.HandleEvent | pywm/touchpad/touchpad.py:119-147 | frames are emitted only on SYN events, and an event fails only on a sync or on a slot write while the current slot is negative |
| Touchpad.KeyEventsSetFingerCount | pywm/touchpad/touchpad.py:124-135 | a press of BTN_TOOL_FINGER ... BTN_TOOL_QUINTTAP sets the finger count to 1 ... 5; every other key event leaves the reader unchanged |
| Touchpad.AbsEventsTouchCurrentSlot | pywm/touchpad/touchpad.py:137-147 | ABS_MT_SLOT only switches the current slot; the four slot codes write only the current slot and fail exactly when it is negative |
| Touchpad.RunKeepsSlotsWf | pywm/touchpad/touchpad.py:113-147 | over any run of events the slot table stays indexed by slot number |
| Touchpad.RunEmitsActiveIds | pywm/touchpad/touchpad.py:113-150 | every frame emitted over a run carries only non-negative tracking ids |
| DeviceScan.Field1 | pywm/touchpad/touchpad.py:161 | `split(c)[1]` fails exactly when `c` does not occur, and the field never contains `c` |
| DeviceScan.WordLength | pywm/touchpad/touchpad.py:166 | the leading word has no separator and is followed by one or by the end |
| DeviceScan.Words | pywm/touchpad/touchpad.py:166 | `split()` yields only non-empty words without separators |
| DeviceScan.FirstEventHandler | pywm/touchpad/touchpad.py:167-169 | the first handler starting with "event"; None exactly when no handler does |
| DeviceScan.HandlersLineHasField | pywm/touchpad/touchpad.py:165-166 | a handler line always has a field after "=" |
| DeviceScan.Classify | pywm/touchpad/touchpad.py:160-165 | a line is a name line, a malformed name line, a handler line or neither, by its prefix; a name line matches exactly when its quoted name contains the device name |
| DeviceScan.ScanKindsSpec | pywm/touchpad/touchpad.py:159-170 | the scan from a line, with the flag of the lines before, returns the handler of the first eligible line unless a malformed name line comes first, and NotFound exactly when neither exists |
| DeviceScan.FindDeviceSpec | pywm/touchpad/touchpad.py:156-171 | `find_touchpad` returns the event handler of the first handler line after a matching name line, fails on an earlier unquoted name line, and finds nothing exactly when neither exists |
| DeviceScan.FoundPathShape | pywm/multitouch.py:103-107 | a found device path is "/dev/input/" followed by an `event*` handler |
| DeviceScan.NoMatchNotFound | pywm/multitouch.py:94-109 | without a name line matching the device name nothing is found |
| Sanitize.ArgMin | pywm/touchpad/sanitize_bogus_ids.py:46 | numpy's argmin: an index of a minimal entry, with no minimal entry before it |
| Sanitize.ArgMinUnique | pywm/touchpad/sanitize_bogus_ids.py:46 | the first minimal index is the only index argmin can return |
| Sanitize.Cost | pywm/touchpad/sanitize_bogus_ids.py:33-38 | the coherence of two touches is their squared distance, never negative |
| Sanitize.Bounded | pywm/touchpad/sanitize_bogus_ids.py:43 | definition of a matrix entry: a coherence within the bound 0.02 (line 12) is kept and any larger one becomes the no-match value 2.0 |
| Sanitize.Column | pywm/touchpad/sanitize_bogus_ids.py:45-50 | definition: column j after the row reduction, one entry per old touch, each as the row reduction leaves it |
| Sanitize.FinalColumn | pywm/touchpad/sanitize_bogus_ids.py:51-55 | column j after both reductions has one entry per old touch |
| Sanitize.Partner | pywm/touchpad/sanitize_bogus_ids.py:60-62 | a new touch is matched to an existing old touch or to none |
| Sanitize.Row | pywm/touchpad/sanitize_bogus_ids.py:32-43 | definition: row i holds the squared distance of old touch i to each new touch, replaced by 2 above the coherence bound 0.02 |
| Sanitize.RowReducedNearest | pywm/touchpad/sanitize_bogus_ids.py:45-49 | after the row reduction an entry is within the bound exactly when the new touch is the old touch's nearest (first on ties), and then it holds the distance |
| Sanitize.PartnerIsMutual | pywm/touchpad/sanitize_bogus_ids.py:43-62 | the row reduction, the column reduction and the test against 1 match new touch j to old touch i exactly when they are mutual nearest neighbours within the bound |
| Sanitize.PartnerInjective | pywm/touchpad/sanitize_bogus_ids.py:51-62 | no old touch is matched to two new touches |
| Sanitize.PartnerWithinBound | pywm/touchpad/sanitize_bogus_ids.py:43-62 | a matched pair is within the coherence bound |
| Sanitize.Rebind | pywm/touchpad/sanitize_bogus_ids.py:66-69 | the new hardware id takes over the old id's logical id, the old entry disappears, nothing else changes, and a missing old id is the KeyError |
| Sanitize.RemapFrom | pywm/touchpad/sanitize_bogus_ids.py:60-69 | the replacements introduce no logical id that was not already handed out |
| Sanitize.Unmatched | pywm/touchpad/sanitize_bogus_ids.py:74-75 | every id collected belongs to a new touch without a partner |
| Sanitize.UnmatchedSpec | pywm/touchpad/sanitize_bogus_ids.py:74-75 | the ids collected are exactly those of the new touches without a partner |
| Sanitize.Mint | pywm/touchpad/sanitize_bogus_ids.py:74-77 | the ids get consecutive fresh logical ids from the counter, which advances by their number; other entries are kept |
| Sanitize.MintInjective | pywm/touchpad/sanitize_bogus_ids.py:74-77 | distinct ids get distinct fresh logical ids |
| Sanitize.Sanitise | pywm/touchpad/sanitize_bogus_ids.py:28-77 | an empty frame on either side changes nothing; otherwise the counter never decreases and every logical id is an old one or a fresh one below the new counter |
| Sanitize.NoInterference | pywm/touchpad/sanitize_bogus_ids.py:60-69 | when hardware ids are distinct in each frame and a persisting id stays on its matched touch, no other replacement rewrites either id of a matched pair |
| Sanitize.MatchedNotMinted | pywm/touchpad/sanitize_bogus_ids.py:60-77 | under the same condition a matched touch's id gets no fresh logical id |
| Sanitize.SanitiseAssigns | pywm/touchpad/sanitize_bogus_ids.py:28-77 | under the same condition, with every old id mapped, `_sanitize` succeeds, a matched touch inherits its old touch's logical id, and each unmatched touch gets its own fresh one from the counter on |
| Sanitize.Substitute | pywm/touchpad/sanitize_bogus_ids.py:89-92 | definition of the frame passed on: each touch keeps its position and pressure and gets its logical id |
| Sanitize.OnUpdate | pywm/touchpad/sanitize_bogus_ids.py:79-99 | the frame passed on keeps the finger count, the length and every coordinate, the frame is remembered as the last, and an empty frame clears the map |
| Sanitize.OnUpdateAfterChange | pywm/touchpad/sanitize_bogus_ids.py:79-99 | when the id set changes between frames that meet the condition, the frame passed on gives a matched touch its old touch's logical id, a persisting hardware id keeps its logical id, and an unmatched touch a fresh id below the new counter that no other touch of the frame carries |
| Sanitize.CrossedIdsRaise | pywm/touchpad/sanitize_bogus_ids.py:60-92 | when a persisting hardware id moves to another touch, the replacements can lose it: `on_update` raises the KeyError |
| Sanitize.ReassignBounds | pywm/touchpad/sanitize_bogus_ids.py:79-87 | after reassignment every logical id is below the counter, which has not decreased |
| Sanitize.OnUpdateKeepsWf | pywm/touchpad/sanitize_bogus_ids.py:79-99 | logical ids stay below the counter and the counter never decreases, so a fresh id never collides with one handed out before |
| Sanitize.FreshStart | pywm/touchpad/sanitize_bogus_ids.py:80-83 | on a first frame or after an empty one every touch gets a fresh logical id and the counter advances by the number of touches |
| Sanitize.SameIdsKeepMap | pywm/touchpad/sanitize_bogus_ids.py:85-92 | with the same id set as the last frame the map is left alone and each touch gets its mapped id |
| Sanitize.CloseTouchKeepsId | pywm/touchpad/sanitize_bogus_ids.py:60-69 | a touch that reappears close by under a new hardware id keeps its logical id |
| Sanitize.FarTouchGetsFreshId | pywm/touchpad/sanitize_bogus_ids.py:74-77 | a touch that appears far away under a new hardware id gets the next fresh logical id |
| Gestures.ConfigThresholds | pywm/touchpad/gestures.py:28-41 | every key's threshold is the validate threshold except delta2_s, which gets its square; the defaults are 0.1, 200, 0.8 and 0.02 |
| Gestures.UpdateGate | pywm/touchpad/gestures.py:118-134 | a pending gesture stays pending until a value leaves its dead zone; on that frame it records the offset and delivers the centers; afterwards it delivers each value minus the offset |
| Gestures.TwoFingerMeasure | pywm/touchpad/gestures.py:175-183 | the centre of gravity of the two touches and their distance, floored at the configured minimum |
| Gestures.NewGesture | pywm/touchpad/gestures.py:300-306 | no gesture starts without fingers; one finger needs one touch, two fingers two touches, and more than five fingers fail the assertion; a new gesture is pending |
| Gestures.Feed | pywm/touchpad/gestures.py:119-134 | a continuing gesture keeps its serial number and kind, and delivers nothing while it is still pending |
| Gestures.Process | pywm/touchpad/gestures.py:119-134 | whatever the gesture kind, a continuing gesture keeps its serial number and delivers nothing while pending |
| Gestures.Accumulated | pywm/touchpad/gestures.py:252-254 | the increment times the finger count is the frame's displacement |
| Gestures.HigherStep | pywm/touchpad/gestures.py:252-266 | the displacement divided by the nominal finger count is added to each running sum and the frame becomes the reference |
| SwipeDisplacement.DisplacementOfNewIds | pywm/touchpad/gestures.py:240-250 | touches whose id the previous frame does not list contribute nothing |
| SwipeDisplacement.DisplacementIgnoresNewIds | pywm/touchpad/gestures.py:240-250 | appending a touch with an unseen id leaves the displacement unchanged |
| Gestures.GateDeliversCentersFirst | pywm/touchpad/gestures.py:119-134 | a pending gesture delivers nothing while pending and the centers of its keys on the validating frame |
| Gestures.SingleFingerSpec | pywm/touchpad/gestures.py:152-160 | the single-finger gesture ends exactly when the frame is not one finger with one touch, and reports the displacement from its first frame minus the offset |
| Gestures.TwoFingerSpec | pywm/touchpad/gestures.py:185-199 | the two-finger gesture ends exactly when the finger count is not 2, ignores frames with another number of touches, and reports the scale as distance over initial distance, and the centre's moves in x and in y, each minus the offset |
| Gestures.HigherSwipeSpec | pywm/touchpad/gestures.py:220-267 | the higher swipe ends on a rise of the finger count within 0.2 s of its start or when no finger is left, ignores frames without touches, and its squared displacement never decreases |
| SwipeDisplacement.HigherSwipeAccumulates | pywm/touchpad/gestures.py:237-266 | when all the swipe's fingers move by (a, b) since the reference frame, `delta_x` and `delta_y` grow by exactly a and b and `delta2_s` by a² + b² |
| SwipeDisplacement.DisplacementAppend | pywm/touchpad/gestures.py:240-250 | the displacement of a frame is the sum of its touches' displacements |
| SwipeDisplacement.DisplacementOne | pywm/touchpad/gestures.py:240-250 | one touch contributes its move from the first previous touch with its id and that move's squared length, or nothing when its id is new |
| SwipeDisplacement.DisplacementOfShiftPrefix | pywm/touchpad/gestures.py:240-250 | when every finger moves by (a, b), m touches displace by m·a, m·b and m·(a² + b²) |
| SwipeDisplacement.SquaresOfMovesNotOfSum | pywm/touchpad/gestures.py:240-250 | the squared term sums each finger's squared move, not the square of the summed move: two fingers moving apart by 0.1 each add 0.02 while the summed move is zero |
| Gestures.PinchDoublesScale | pywm/touchpad/gestures.py:166-199 | two fingers 0.2 apart that move to 0.4 apart validate with scale offset 1 |
| Gestures.OnFrameEvents | pywm/touchpad/gestures.py:291-311 | a frame only reports on the gesture active before it; a termination is its last event and leaves no gesture or a fresh one; otherwise the same gesture stays; all of this also for a frame that raises, over the events delivered before the raise |
| Gestures.FailedFrame | pywm/touchpad/gestures.py:291-306 | a frame raises exactly when the active gesture's `process` raises, delivering nothing and changing nothing, or when no gesture survives it and the next constructor fails its assertion; then the ended gesture's termination has been delivered and no gesture is left |
| Gestures.TerminationBeforeFailedConstructor | pywm/touchpad/gestures.py:291-306 | one finger over two listed touches ends a single-finger move: its `terminate` is reported, the next constructor's assertion fails, and the run stops with no gesture |
| Gestures.StartedOnlyOnValidation | pywm/touchpad/gestures.py:308-311 | listeners learn of a gesture only on the frame where that gesture stops being pending |
| Gestures.ValidationDeliversBeforeStart | pywm/touchpad/gestures.py:131-133 | on the frame that validates a gesture, the delivery of the gate's centers comes before the announcement, which is the last event of that frame |
| Gestures.Classification | pywm/touchpad/gestures.py:300-306 | with no gesture active, one finger starts a single-finger move, two a swipe/pinch, more a higher swipe with that count, none nothing; the new gesture is pending |
| Gestures.HandleAvoids | pywm/touchpad/gestures.py:285-311 | one input (frame, reset or configuration), including a frame that raises, never reports on a retired gesture and a termination is its last event |
| Gestures.TerminatedIsFinal | pywm/touchpad/gestures.py:285-311 | once a gesture's termination is reported no event about it follows, over runs that end in a raise as well |
| Gestures.RunAvoids | pywm/touchpad/gestures.py:285-311 | over a run, including the events of a raising last input, no event names a retired gesture and terminations are final |
| Daemon.NovelMembers | pywm/touchpad/daemon.py:41-47 | the new pads are exactly the reported paths that were not tracked |
| Daemon.Validated | pywm/touchpad/daemon.py:40-44 | a tracked pad is marked exactly when it is the first with a reported path |
| Daemon.FirstIndexOfAppend | pywm/touchpad/daemon.py:43 | a lookup in the tracked paths followed by the paths added in this pass finds a tracked path where it was, and an added one past the end of `validated` |
| Daemon.DiscoverFails | pywm/touchpad/daemon.py:41-47 | the first loop raises exactly when a path added in this pass is reported again, or an unknown path is reported twice |
| Daemon.DiscoverResult | pywm/touchpad/daemon.py:41-47 | the first loop appends and starts the new paths in order of first report and marks the first pad of every reported path |
| Daemon.DiscoverRaised | pywm/touchpad/daemon.py:41-47 | a pass that raises has appended and started, in order of first report, exactly the paths new before the first raising report |
| Daemon.StopUnvalidatedSpec | pywm/touchpad/daemon.py:49-52 | the second loop keeps the marked pads in order and stops the others from the highest index down |
| Daemon.UpdateFails | pywm/touchpad/daemon.py:39-52 | `update` raises exactly when a path that was not tracked is reported twice |
| Daemon.UpdateDiscovers | pywm/touchpad/daemon.py:40-47 | the first loop of a successful update appends and starts the new paths and marks the validated pads |
| Daemon.UpdateSpec | pywm/touchpad/daemon.py:39-52 | after `update` the tracked pads are the validated ones in their old order followed by one fresh pad per new path; the new pads are started, then the rest stopped from the highest index |
| Daemon.UpdateFailedSpec | pywm/touchpad/daemon.py:39-47 | a raising `update` keeps the tracked pads, adds and starts one fresh pad for each path new before the first raising report, and stops nothing |
| Daemon.UpdateFailedBalance | pywm/touchpad/daemon.py:39-47 | a raising `update` starts as many readers as it adds and stops none |
| Daemon.FailedRoundStopsItsStarts | pywm/touchpad/daemon.py:66-73 | a round that reports a new path twice starts the pads up to the repeat, and the shutdown stops them again, last first |
| Daemon.KeptDroppedSizes | pywm/touchpad/daemon.py:49-52 | every pad is either kept or stopped, and only tracked pads are stopped |
| Daemon.UpdateTracksFound | pywm/touchpad/daemon.py:39-52 | after `update` the tracked paths are exactly the reported ones; only tracked pads are stopped and only untracked paths started |
| Daemon.DistinctFoundSucceeds | pywm/touchpad/daemon.py:39-52 | with distinct reported paths `update` never raises |
| Daemon.ResetGestures | pywm/touchpad/daemon.py:57-59 | every recogniser drops its gesture; paths and order are unchanged |
| Daemon.UpdateConfig | pywm/touchpad/daemon.py:61-63 | every recogniser gets the same new configuration and keeps its gesture; paths and order are unchanged |
| Daemon.Shutdown | pywm/touchpad/daemon.py:71-73 | every pad is stopped, from the last to the first, and none remains |
| Daemon.UpdateBalance | pywm/touchpad/daemon.py:21-52 | each round starts as many readers as it adds and stops as many as it removes |
| Daemon.RunStopsEverything | pywm/touchpad/daemon.py:66-73 | over a whole run, also one an `update` ends by raising, every reader started is stopped, as well as every reader tracked at the start |
| Multitouch.NewDecoder | pywm/multitouch.py:29-47 | a new decoder has no touches, state 0, current slot 0, and knows an axis exactly when the capabilities list it |
| Multitouch.InsertBySlot | pywm/multitouch.py:61 | inserting into a slot-sorted list keeps it sorted and adds exactly the one touch |
| Multitouch.SortBySlot | pywm/multitouch.py:61 | the result is sorted by slot and a permutation of the touches |
| Multitouch.SortKeepsSlots | pywm/multitouch.py:61 | the sort is stable: the touches of each slot keep their order |
| Multitouch.Update | pywm/multitouch.py:52-62 | with fewer than two touches or an unknown position the listener gets None once, when the state was non-zero, and the state becomes 0; otherwise it gets the touches sorted by slot and the state becomes their number |
| Multitouch.Process | pywm/multitouch.py:13-19 | code 53 sets x and code 54 sets y to the normalised value, failing where the axis range is missing or empty; other codes change nothing |
| Multitouch.ProcessFrom | pywm/multitouch.py:85-88 | processing the touches of the current slot keeps every touch's slot and id and the list length |
| Multitouch.ProcessFromEmissions | pywm/multitouch.py:85-88 | a position event causes at most one emission per touch of the current slot |
| Multitouch.WithoutSlot | pywm/multitouch.py:76-77 | a touch is kept exactly when it is not in the lifted slot |
| Multitouch.HandleEventSpec | pywm/multitouch.py:64-88 | non-ABS events are ignored; a slot event only switches the slot; a lifted id removes the slot's touches and updates once; a new id adds an unpositioned touch unless the slot is -1 |
| Multitouch.UpdateCoherent | pywm/multitouch.py:52-62 | after an update that cancelled, the state is 0 |
| Multitouch.RunCancelsOnce | pywm/multitouch.py:64-88 | over a run the listener never gets two cancellations without touches in between |
| Multitouch.UpdateReportsSorted | pywm/multitouch.py:59-62 | every reported list is sorted by slot, stable within a slot, and a permutation of the current touches |
| WmServer.FirstInversion | src/wm/wm_server.c:529 | the first adjacent pair whose front element has the strictly smaller z-index; None exactly when the list is already non-increasing |
| WmServer.SwapAt | src/wm/wm_server.c:530-537 | the relinking exchanges two neighbours and leaves every other element and the multiset unchanged |
| WmServer.Pass | src/wm/wm_server.c:521-543 | one pass swaps exactly when there is a strict inversion, and then only the first one, because the two cursors coincide after a swap |
| WmServer.SwapRemovesInversion | src/wm/wm_server.c:529-542 | swapping an adjacent strict inversion removes exactly one inversion, so the do-while loop terminates |
| WmServer.UpdateContents | src/wm/wm_server.c:513-546 | lists of at most one element are untouched; the result is ordered by non-increasing z-index, a permutation of the input, and keeps contents of equal z-index in their relative order |
| WmServer.AtZSwap | src/wm/wm_server.c:529-542 | swapping a strict inversion never reorders contents of equal z-index |
| WmServer.AdjacentOrdered | src/wm/wm_server.c:523-529 | a list with no adjacent inversion is ordered |
| WmServer.SetLocked | src/wm/wm_server.c:560-571 | a request within 0.001 of the current value is ignored; otherwise it is stored, and the focus is cleared exactly when the new value locks |
| WmServer.SetLockedIdempotent | src/wm/wm_server.c:560-561 | repeating a lock request is ignored |
| WmServer.OpenVirtualOutput | src/wm/wm_server.c:475-494 | a name longer than 23 characters is refused without creating an output; otherwise the output exists exactly when the backend creates one, and it carries the name |
| WmServer.MsDiff | src/wm/wm_server.c:184-185 | the elapsed milliseconds are 0 for the same reading and non-negative within one second |
| WmServer.MsDiffMonotone | src/wm/wm_server.c:184-185 | the truncated difference never decreases as the clock advances, so a due callback stays due |
| WmServer.ThrottleSpec | src/wm/wm_server.c:187 | with a positive rate the update callback fires exactly when the elapsed milliseconds exceed 0.9 frame intervals of the fastest output, and never when no time has passed |
| WmServer.Backdate | src/wm/wm_server.c:219 | back-dating the last callback by a second makes every later reading 1000 ms further from it |
| Registry.Empty | src/py/_pywm_view.c:10 | the registry starts empty |
| Registry.ObjIndex | src/py/_pywm_view.c:65-68 | the first node for the object, or None exactly when no node holds it |
| Registry.HandleIndex | src/py/_pywm_view.c:73-77 | the first node with the handle, or None exactly when no node has it |
| Registry.Add | src/py/_pywm_view.c:12-36 | the new node is appended at the tail under a handle one above the last one issued, which is above every handle in the list |
| Registry.Remove | src/py/_pywm_view.c:38-63 | the first node for the object is unlinked and its handle returned; the other nodes keep their order; None exactly when no node holds it |
| Registry.GetHandle | src/py/_pywm_view.c:65-71 | the handle of a node holding the object, and 0 exactly when there is none |
| Registry.ContainerFromHandle | src/py/_pywm_view.c:73-80 | the node with the handle, or NULL exactly when no node has it |
| Registry.FromHandle | src/py/_pywm_view.c:82-89 | the object of the node with the handle, or NULL exactly when no node has it |
| Registry.HandleUnique | src/py/_pywm_view.c:12-16 | handles are unique in a registry built by these operations |
| Registry.AddThenFind | src/py/_pywm_view.c:23-36 | a handle just issued leads back to its object, at the tail, and was not in use before |
| Registry.RemoveSpec | src/py/_pywm_view.c:38-63 | removal keeps handles unique and increasing, shortens the list by one, returns the handle `get_handle` would have, and that handle no longer resolves |
| Registry.HandlesIncrease | src/py/_pywm_view.c:12-16 | two adds issue strictly increasing handles that both resolve to their objects |
| PyViews.Add | src/py/_pywm_view.c:12-36 | a view is appended under the next handle with no focus or size request pending |
| PyViews.Remove | src/py/_pywm_view.c:38-63 | the returned handle is the view's, or 0 with the registry unchanged when it is not registered; a removed handle no longer resolves |
| PyViews.SetDimensions | src/py/_pywm_view.c:177-197 | an unknown handle is an error that changes nothing; otherwise only that node's size request is set and its focus request is kept |
| PyViews.Focus | src/py/_pywm_view.c:199-216 | an unknown handle is an error that changes nothing; otherwise only that node's focus request is set and its size request is kept |
| PyViews.Update | src/py/_pywm_view.c:218-230 | every node keeps its handle and view and has no request pending afterwards |
| PyViews.UpdateIssues | src/py/_pywm_view.c:218-230 | a focus or resize is issued exactly for the nodes that had that request pending |
| PyViews.UpdateViews | src/py/_pywm_view.c:218-230 | the registry keeps its handles and views and no request stays pending |
| PyViews.QuietUpdate | src/py/_pywm_view.c:218-230 | with no request pending, an update issues nothing |
| PyViews.SetDimensionsThenUpdate | src/py/_pywm_view.c:177-230 | a size request through a live handle is issued by the next update and not by the one after |
| PyWidgets.Add | src/py/_pywm_widget.c:79-92 | a widget is appended at the tail under the next handle, which then advances by one, and the handle resolves to it |
| PyWidgets.FirstHandleIsOne | src/py/_pywm_widget.c:14-19 | the first widget handle issued is 1 |
| PyWidgets.Remove | src/py/_pywm_widget.c:94-113 | removing an unregistered widget aborts (the assertion); otherwise the node is unlinked, its handle returned and no longer resolvable |
| PyWidgets.ApplyReply | src/py/_pywm_widget.c:45-52 | opacity, mask, z-index, lock flag and output are always applied (within their dead zones); the box only when its width and height are non-negative; the layout is damaged exactly when something changed |
| WmContent.Init | src/wm/wm_content.c:15-36 | a new content has an empty display box at the origin, corner radius 0, no fixed output, workspace width and height -1 (so no workspace), z-index 0 and no lock |
| WmContent.InsertContent | src/wm/wm_content.c:33 | a new content is linked at the head of the content list |
| WmContent.SetBoxField | src/wm/wm_content.c:88-102 | a request within L1 distance 0.01 of the stored box is ignored; any other replaces all four components |
| WmContent.SetBox | src/wm/wm_content.c:88-102 | only the display box changes; it ends within the dead zone of the request, and the layout is damaged exactly when the request was outside it |
| WmContent.SetWorkspace | src/wm/wm_content.c:61-75 | only the workspace changes, with the same dead-zone rule |
| WmContent.SetWorkspaceHasWorkspace | src/wm/wm_content.c:61-86 | after a workspace request outside the dead zone the content has a workspace exactly when the requested width and height are non-negative; inside it, exactly when it had one |
| WmContent.DeadZoneHidesWorkspace | src/wm/wm_content.c:61-86 | a stored workspace width of -0.001 survives a request for width 0, so the content still has no workspace |
| WmContent.SetMask | src/wm/wm_content.c:132-144 | only the mask changes, with the same dead-zone rule |
| WmContent.SetBoxIdempotent | src/wm/wm_content.c:88-92 | setting the same box twice leaves the second call without effect |
| WmContent.SetZIndex | src/wm/wm_content.c:111-116 | the z-index takes the value, and damage happens exactly when it differed |
| WmContent.SetLockEnabled | src/wm/wm_content.c:162-167 | the lock flag takes the value, and damage happens exactly when it differed |
| WmContent.SetOpacity | src/wm/wm_content.c:121-126 | opacity changes by less than 0.01 are ignored; otherwise the value is taken and the layout damaged |
| WmContent.SetCornerRadius | src/wm/wm_content.c:155-160 | corner radius changes by less than 0.01 are ignored; otherwise the value is taken and the layout damaged |
| WmContent.SetOutput | src/wm/wm_content.c:42-59 | a NULL or empty name unpins the content; another name pins it to the first output with that name, or unpins it when none has it; damage happens exactly when the pin changes |
| WmContent.GetMaskAsWritten | src/wm/wm_content.c:145-153 | the stored mask, except that a negative width is replaced so the mask ends one unit past the display width, and a negative height h by -h + display height + 1, as written |
| WmContent.GetMaskHeightAsWrittenMisses | src/wm/wm_content.c:152 | a mask at y = 10 with negative height on a display 100 high comes out 102 high and does not end at the display's far edge |
| WmContent.GetMask | src/wm/wm_content.c:145-153 | with the height rule written like the width rule, a negative extent always ends the mask one unit past the display box; it agrees with the code whenever the height is non-negative |
| WmWidget.Init | src/wm/wm_widget.c:15-24 | a new widget has neither a texture nor a primitive |
| WmWidget.SetPrimitive | src/wm/wm_widget.c:49-71 | the primitive is replaced, and the texture is dropped exactly when a named primitive arrives; a widget never shows both |
| WmWidget.SetPixels | src/wm/wm_widget.c:37-47 | the pixels go into the existing texture or a newly created one, and the primitive is cleared; a widget never shows both |
| WmWidget.ApplyExclusive | src/wm/wm_widget.c:37-71 | after any sequence of pixel and primitive updates the widget holds at most one of texture and named primitive |
| WmWidget.Render | src/wm/wm_widget.c:86-117 | the texture is drawn exactly when there is one; otherwise the named primitive only with a custom renderer and enough int and float parameters for the shader; a lock-enabled widget is not dimmed |
| WmWidget.RenderAfterSet | src/wm/wm_widget.c:37-117 | after pixels arrive the texture is drawn; after a named primitive arrives it never is |
| WmConfig.StrToUL | src/wm/wm_config.c:23-36 | the value read from the variable never exceeds the largest unsigned long, as `strtoul` saturates |
| WmConfig.CursorSize | src/wm/wm_config.c:23-36 | the cursor size fits the unsigned int it is stored in, and is 24 whenever the variable is unset, empty or does not parse completely |
| WmConfig.DecimalValueOfDecimal | src/wm/wm_config.c:23-36 | a string of decimal digits is read back as the number it writes |
| WmConfig.DigitRunAll | src/wm/wm_config.c:23-36 | a string of digits is consumed entirely by the number parser |
| WmConfig.CursorSizeOfDecimal | src/wm/wm_config.c:23-36 | a decimal cursor size in the environment is taken as written (modulo the unsigned int width) |
| WmConfig.CursorSizeTrailing | src/wm/wm_config.c:29-33 | anything after the digits makes the whole value invalid, so the default size is used |
| WmConfig.InitDefault | src/wm/wm_config.c:12-46 | Xwayland off, callback frequency 20, empty keyboard layout strings, no outputs, the default theme, natural scrolling, tap to click and focus-follows-mouse on, popups unconstrained, client decorations encouraged, debugging off, and the cursor size from the environment |
| WmConfig.ResetDefault | src/wm/wm_config.c:48-55 | after a reset the configuration is the initial one and holds no outputs |
| WmConfig.Destroy | src/wm/wm_config.c:112-118 | all output entries are released and every other setting stays |
| WmConfig.Truncate | src/wm/wm_config.c:71-89 | a stored name is a prefix of the given one, shorter than the buffer, and equal to it when it fits |
| WmConfig.AddOutput | src/wm/wm_config.c:71-89 | a missing name leaves the list unchanged; otherwise one entry with the (truncated) name and the given settings goes to the head |
| WmConfig.NameIndex | src/wm/wm_config.c:91-110 | the first entry whose stored name equals the queried one, and no entry when none does |
| WmConfig.FindOutput | src/wm/wm_config.c:91-110 | a missing name finds nothing; otherwise the first entry with that name |
| WmConfig.AddThenFind | src/wm/wm_config.c:71-110 | the output added last is the one found under its name, and a name too long for the buffer is not found under its full spelling through the new entry |
| WmCursor.Init | src/wm/wm_cursor.c:225-228 | a new cursor has no started pinch or swipe gesture and starts hidden |
| WmCursor.HandleGesture | src/wm/wm_cursor.c:89-176 | begin and update events reach the client exactly when the gesture is not captured; an end reaches it when not captured or when a begin was forwarded; a forwarded begin marks the gesture started and a forwarded end clears the mark |
| WmCursor.RunStartedIsOpen | src/wm/wm_cursor.c:89-176 | after any sequence of gesture events the started mark is set exactly when the client has seen a begin without its end |
| WmCursor.ForwardedBeginGetsEnd | src/wm/wm_cursor.c:89-176 | a client that has seen a begin also sees the next end, even when capture was switched on in between |
| WmCursor.HandleMotion | src/wm/wm_cursor.c:22-36 | while motion is captured the cursor does not move and no motion update is sent; otherwise it moves by the delta |
| WmCursor.HandleMotionAbsolute | src/wm/wm_cursor.c:38-54 | the window manager is told the delta to the target; while captured the cursor stays put, otherwise it lands on the target |
| WmCursor.SetImage | src/wm/wm_cursor.c:285-299 | a named image replaces any client image and is shown only while the cursor is visible |
| WmCursor.SetImageSurface | src/wm/wm_cursor.c:301-319 | without a surface the default arrow is set; a client surface is remembered and shown only while visible |
| WmCursor.SetVisible | src/wm/wm_cursor.c:272-283 | showing the cursor brings back the client's image, or the default arrow when there is none; hiding it shows nothing |
| WmCursor.HiddenShowsNothing | src/wm/wm_cursor.c:272-319 | a hidden cursor shows nothing whatever image is set meanwhile, and a client surface set while hidden appears once the cursor is shown |
| WmComposite.TruncDiv | src/wm/wm_composite.c:53-55 | the conversion of a fractional extent to `int` truncates toward zero, so it never changes the sign |
| WmComposite.BlurExtend | src/wm/wm_composite.c:53-55 | for a non-negative pass count the extent is the radius doubled once per pass |
| WmComposite.BlurParams | src/wm/wm_composite.c:70-71 | the radius and the pass count are the first two int parameters when present, and 1 and 2 otherwise |
| WmComposite.BlurExtendNonNegative | src/wm/wm_composite.c:53-55 | a blur with a non-negative radius never has a negative extent, whatever the pass count |
| WmComposite.DefaultExtend | src/wm/wm_composite.c:68-72 | a blur without parameters extends by 4 pixels, and one with only a radius by four times the radius |
| WmComposite.OnDamageBelow | src/wm/wm_composite.c:57-101 | at most one region is damaged again per damage rectangle, and each is non-empty and lies inside the composite's box |
| WmComposite.OnDamageBelowCovers | src/wm/wm_composite.c:84-100 | what is damaged again is exactly the damage grown by the extent, cut to the composite's box |
| WmComposite.InflateContains | src/wm/wm_composite.c:164-173 | a composite always reads at least the pixels it writes |
| WmComposite.InflateUnion | src/wm/wm_composite.c:164-173 | growing a region rectangle by rectangle grows the whole region, whatever the decomposition |
| WmComposite.InflateRect | src/wm/wm_composite.c:168-172 | growing one rectangle's points by the extent gives the points of the rectangle widened by the extent on every side |
| WmComposite.Insert | src/wm/wm_composite.c:141-182 | the node's own output and identity stay; the part of its remaining input inside the composite's box leaves it and, when non-empty, becomes a new head child reading that part grown by the extent; older children keep their outputs |
| WmComposite.PartitionStep | src/wm/wm_composite.c:149-163 | moving part of a node's remaining input into a new child, while the older children keep their outputs, keeps the node's pixels split without overlap |
| WmComposite.InsertPartition | src/wm/wm_composite.c:141-182 | inserting a composite keeps every node's pixels split between its remaining input and its children without overlap; a new child stands for the composite, writes only inside its box and reads at least what it writes |
| WmComposite.Root | src/wm/wm_composite.c:210-218 | the root produces the damage and, before any insertion, takes all of it from below |
| WmComposite.InsertAll | src/wm/wm_composite.c:220-235 | inserting composites never changes the root's output or identity |
| WmComposite.TreeFromDamage | src/wm/wm_composite.c:206-241 | the root stands for no composite and produces exactly the damage; when bypassing it has no children and takes all the damage from below |
| WmComposite.InsertAllPartition | src/wm/wm_composite.c:220-235 | the split without overlap survives inserting any sequence of composites |
| WmComposite.TreeFromDamagePartition | src/wm/wm_composite.c:206-241 | however the composites overlap, every damaged pixel is rendered exactly once: either from below at the root or by exactly one child |
| WmViewXwayland.Init | src/wm/wm_view_xwayland.c:153-174 | a new view has no children and no remembered configure position |
| WmViewXwayland.SizeConstraints | src/wm/wm_view_xwayland.c:201-214 | the constraints are the window's size hints, and all -1 when it has none |
| WmViewXwayland.FloatingIffFixedSize | src/wm/wm_view_xwayland.c:301-305 | a window floats exactly when its hints fix one positive width and one positive height; a window without hints never floats |
| WmViewXwayland.Size | src/wm/wm_view_xwayland.c:216-227 | the size is that of the committed surface, and 0x0 before there is one |
| WmViewXwayland.ConfigureSurface | src/wm/wm_view_xwayland.c:102 | configuring a window sets its recorded position and size to the configured ones and leaves its id, parent, hints and committed surface alone |
| WmViewXwayland.RequestSize | src/wm/wm_view_xwayland.c:195-199 | a size request configures the window at the origin with exactly the requested size, and the window records that geometry; its children and any remembered position are kept |
| WmViewXwayland.RequestConfigure | src/wm/wm_view_xwayland.c:98-107 | the window is configured with the requested size at the origin and records that geometry, and the requested position is remembered; its id, parent, hints, committed surface and children are kept |
| WmViewXwayland.ChildRequestConfigure | src/wm/wm_view_xwayland.c:24-29 | a child window is configured with exactly the requested geometry, position included, and records it |
| WmViewXwayland.FindParent | src/wm/wm_view_xwayland.c:50-69 | the parent found is the first view that owns the parent window, itself or through a child, and none is found exactly when no view owns it |
| WmViewXwayland.Map | src/wm/wm_view_xwayland.c:41-96 | a window becomes a child exactly when it has a parent that some view owns, then of the first such view, with its recorded size, at its recorded position unless a configure request came first; every other window becomes a view |
| WmViewXwayland.AddChild | src/wm/wm_view_xwayland.c:126-143 | the child goes to the head of the parent's children, the parent then owns the child's window, and it keeps owning everything it owned |
| WmViewXwayland.ConfigureThenMap | src/wm/wm_view_xwayland.c:75-87 | a window that sent a configure request before being mapped as a child is placed at the requested position with the requested size, and the view it joins then owns it |
| WmViewXwayland.ConfigureThenMapExample | src/wm/wm_view_xwayland.c:75-107 | a window at (10, 10) of size 100x80 asking for (50, 60) and 300x200 is configured as a child at (50, 60) with size 300x200 |
| WmViewXwayland.NoParentIsView | src/wm/wm_view_xwayland.c:50-95 | a window without a parent always becomes a view of its own |
| WmViewLayer.Commit | src/wm/wm_view_layer.c:59-77 | the committed size is always stored, and the window manager is told exactly when it differs from the stored one |
| WmViewLayer.CommitSettles | src/wm/wm_view_layer.c:59-77 | the reported size is that of the last commit, and committing the same size again tells nobody |
| WmViewLayer.SetResizing | src/wm/wm_view_layer.c:190-192 | a layer view is never resizing, whatever is asked, and nothing else changes |
| WmViewLayer.SetFullscreen | src/wm/wm_view_layer.c:194-196 | a layer view is never fullscreen, whatever is asked, and nothing else changes |
| WmViewLayer.SetMaximized | src/wm/wm_view_layer.c:198-200 | a layer view is never maximised, whatever is asked, and nothing else changes |
| WmViewLayer.SettersIgnoreArgument | src/wm/wm_view_layer.c:190-200 | the three setters ignore their argument and do not change the reported size |
| WmViewLayer.Offset | src/wm/wm_view_layer.c:164-167 | a layer surface is never offset inside its box |
| WmViewLayer.SizeConstraints | src/wm/wm_view_layer.c:146-162 | there are always exactly nine constraint values |
| WmViewLayer.ConstraintsRoundTrip | src/wm/wm_view_layer.c:146-162 | the nine values hold the whole layer state, one field per position, so reading them back in that order gives the state back, and no other nine values do |
| WmViewLayer.Info | src/wm/wm_view_layer.c:138-144 | the title is always "Layer Shell" and the role "layer"; the app id is the surface's namespace |
| PyWm.Callback | pywm/pywm.py:51-60 | a callback that raises yields None; one that returns passes its value on |
| PyWm.CallbackNoneIff | pywm/pywm.py:51-60 | the wrapped result is None exactly when the callback raised or returned None, so the two cannot be told apart |
| PyWm.Copy | pywm/pywm.py:37-38 | a copy has the same lock percentage |
| PyWm.OrEmpty | pywm/pywm.py:44-45 | a missing name is handed over as the empty string, a present one unchanged |
| PyWm.Get | pywm/pywm.py:40-47 | the tuple handed to the compositor carries the cursor request, the lock percentage, the output names with None as "" and the terminate flag |
| PyWm.GetNoneIsEmpty | pywm/pywm.py:40-47 | no output request and a request with an empty name are handed over alike, and a copied state reports the same lock percentage |
| PyWm.Init | pywm/pywm.py:115-138 | a new frontend is undamaged and uncaptured, has no pending request (cursor -1), no widgets, empty queues, last absolute position (0, 0) and a downstream state with lock percentage 0 |
| PyWm.Damage | pywm/pywm.py:369-370 | damage only raises the damaged flag |
| PyWm.UpdateCursor | pywm/pywm.py:431-432 | the cursor request becomes 1 when enabling and 0 when disabling; nothing else changes |
| PyWm.OpenVirtualOutput | pywm/pywm.py:420-421 | only the pending open request changes, to the name |
| PyWm.CloseVirtualOutput | pywm/pywm.py:423-424 | only the pending close request changes, to the name |
| PyWm.Terminate | pywm/pywm.py:413-418 | only the pending terminate flag changes, to true |
| PyWm.Update | pywm/pywm.py:349-367 | the flag is always cleared; when damaged, what `process` returns is stored, None included, and a raise keeps the stored state; the update answers None exactly when `process` raised or the stored state is None, keeping the pending requests; otherwise the requests are handed over through `get` and reset to -1/None/None/False |
| PyWm.UpdateHandsOverOnce | pywm/pywm.py:349-367 | requests reach the compositor with the next update only; an update without new damage keeps the processed state and ignores `process` |
| PyWm.DamageThenUpdate | pywm/pywm.py:349-353 | after damage the next update adopts the processed state, and the frontend is locked exactly when its lock percentage is non-zero |
| PyWm.IsLocked | pywm/pywm.py:434-435 | locked exactly when the stored lock percentage is non-zero; raises when the stored state is None |
| PyWm.ProcessNoneRaisesUntilProcessed | pywm/pywm.py:349-367 | a `process` returning None is stored, so that update and every later undamaged one raise and keep the requests, until a damaged update's `process` returns a state and the requests are handed over |
| PyWm.UndamagedUpdatesRaise | pywm/pywm.py:349-357 | over a stored None, an undamaged update raises and changes nothing, however many follow |
| PyWm.RaisedUpdateDefersRequests | pywm/pywm.py:349-367 | after a `process` that raises, the stored state is kept, and the next update hands the same requests over with it; over a stored None it raises again |
| PyWm.CreateWidget | pywm/pywm.py:426-429 | the new widget joins the end of the queue of widgets waiting for a handle |
| PyWm.QueryNewWidget | pywm/pywm.py:332-340 | the answer is true exactly when a widget is waiting; the oldest then leaves the queue and is registered under the new handle; otherwise nothing changes |
| PyWm.WidgetDestroy | pywm/pywm.py:372-374 | the widget leaves the registry (only if it has a handle) and joins the destruction queue |
| PyWm.QueryDestroyWidget | pywm/pywm.py:342-347 | the oldest widget awaiting destruction leaves the queue and its handle is returned; None with an empty queue |
| PyWm.WidgetLifeCycle | pywm/pywm.py:332-374 | a created widget takes the offered handle; destroyed, it leaves the registry and the compositor is told exactly that handle |
| PyWm.HandlesInCreationOrder | pywm/pywm.py:332-340 | widgets receive handles in the order they were created |
| PyWm.RelativeMotion | pywm/pywm.py:208-218 | motion is swallowed exactly while the touchpad is captured; otherwise the delta is divided by the layout size where that size is positive |
| PyWm.AbsoluteMotion | pywm/pywm.py:220-230 | while captured the motion is swallowed and the last position kept; otherwise the change from the last position is passed on and the new position remembered |
| PyWm.AbsoluteRun | pywm/pywm.py:220-230 | a run of absolute motions yields one answer per motion |
| PyWm.AbsoluteRunTelescopes | pywm/pywm.py:220-230 | while nothing is captured the deltas passed on add up to the distance from the start to the last position |
| PyWm.Gesture | pywm/pywm.py:376-379 | the touchpad is captured exactly when `on_gesture` accepts the gesture |
| PyWm.GestureFinished | pywm/pywm.py:381-382 | a finished gesture releases the capture |
| PyWm.ReallowGesture | pywm/pywm.py:384-389 | the daemon's gestures are reset exactly when nothing is captured |
| PyWm.CaptureWindow | pywm/pywm.py:376-389 | an accepted gesture swallows cursor motion and blocks the reset until it finishes; a declined one does neither |
| PyView.Init | pywm/pywm_view.py:2-24 | a new view has its handle, no parent or title, box (0, 0, 1, 1), size (1, 1), z-index 0, accepts input and has no pending request |
| PyView.Keep | pywm/pywm_view.py:37-50 | a value given as None leaves the attribute as it was |
| PyView.Absorb | pywm/pywm_view.py:27-56 | a reported parent raises exactly when the window manager has no `views` attribute, and then nothing is touched; otherwise the parent is set only to a listed view's handle, each None field keeps its value, the constraints change only when min <= max on both axes and the size only when both components are positive; the box, requests, z-index and input flag are kept |
| PyView.Update | pywm/pywm_view.py:27-61 | the update answers exactly when the parent lookup does not raise; an answer carries the box, the pending requests, the input flag and the z-index from before and leaves focus not pending and the size request (-1, -1); a raise leaves the view as it was, requests still pending |
| PyView.EmptyReportKeeps | pywm/pywm_view.py:32-56 | an update that reports nothing valid changes no attribute, whatever the window manager lists |
| PyView.ParentNeverSetWithoutViews | pywm/pywm_view.py:32-35 | when the window manager has no `views` attribute, no update changes the parent, and an update leaves the view as it is without an answer exactly when it reports a parent |
| PyView.UpdateView | pywm/pywm.py:270-288 | an update answers None exactly when the view's `_update` raises; a known view is updated as `_update` does; a new view that raises is stored as freshly made and its hook is not run; otherwise the hook runs exactly once and the answer is the hooked view's reply, with no request left pending |
| PyView.ParentReportedViewNeverStarts | pywm/pywm.py:270-288 | under `PyWM`, a new view whose first report names a parent is stored as freshly made, answered None and never started, and each later report naming a parent changes nothing |
| PyView.Focus | pywm/pywm_view.py:64-65 | only the focus request changes, to pending |
| PyView.SetSize | pywm/pywm_view.py:70-71 | only the size request changes |
| PyView.SetBox | pywm/pywm_view.py:67-68 | only the box changes |
| PyView.SetZIndex | pywm/pywm_view.py:73-74 | only the z-index changes |
| PyView.SetAcceptsInput | pywm/pywm_view.py:76-77 | only the input flag changes |
| PyView.RequestsReportedOnce | pywm/pywm_view.py:58-77 | a focus or size request is reported by the next answering update only, an update that raises in between keeps it pending, and the z-index set meanwhile is reported every time |
| PyWidget.Init | pywm/pywm_widget.py:15-26 | a new widget has no handle, box (0, 0, 0, 0), z-index 0 and no pending pixels |
| PyWidget.Update | pywm/pywm_widget.py:28-29 | the compositor is told the box and the z-index |
| PyWidget.UpdatePixels | pywm/pywm_widget.py:31-37 | the pending pixels are returned and are no longer pending |
| PyWidget.SetBox | pywm/pywm_widget.py:40-41 | only the box changes |
| PyWidget.SetZIndex | pywm/pywm_widget.py:43-44 | only the z-index changes |
| PyWidget.SetPixels | pywm/pywm_widget.py:49-50 | exactly the given (fmt, stride, width, height, data) becomes pending, replacing what was |
| PyWidget.PixelsHandedOverOnce | pywm/pywm_widget.py:28-50 | pixels set are handed over exactly as last given, once; box and z-index are reported as last set |
| DamageTracked.Empty | pywm/damage_tracked.py:4-12 | no object exists before any is constructed |
| DamageTracked.New | pywm/damage_tracked.py:5-12 | a new object is undamaged and childless; with a parent it is appended to the parent's children, and no other object changes |
| DamageTracked.RemoveFirst | pywm/damage_tracked.py:16 | `list.remove` drops one occurrence of the element and raises exactly when it is absent |
| DamageTracked.Finish | pywm/damage_tracked.py:14-16 | without a parent nothing happens; otherwise one occurrence of the object leaves the parent's children, raising exactly when it was already gone, and no other object changes |
| DamageTracked.RemoveFirstCuts | pywm/damage_tracked.py:16 | `list.remove` cuts out exactly the first occurrence |
| DamageTracked.RemoveAppended | pywm/damage_tracked.py:9-16 | removing an element appended to a list that lacked it gives the list back |
| DamageTracked.NewThenFinish | pywm/damage_tracked.py:5-16 | finishing a child right after creating it restores the parent's children exactly and every other object; the child remains, unlinked, and finishing it again raises |
| DamageTracked.Reach | pywm/damage_tracked.py:18-22 | damage always reaches the object itself, only it without propagation, and only objects created after it |
| DamageTracked.Damage | pywm/damage_tracked.py:18-22 | every reached object is flagged and nothing else changes |
| DamageTracked.ReachClosed | pywm/damage_tracked.py:20-22 | propagation reaches every child of a reached object |
| DamageTracked.ReachMinimal | pywm/damage_tracked.py:20-22 | every reached object other than the start is a child of a reached object |
| DamageTracked.ReachTransitive | pywm/damage_tracked.py:20-22 | whatever a child reaches, its parent reaches |
| DamageTracked.DamageSparesParent | pywm/damage_tracked.py:18-22 | damage never affects the parent |
| DamageTracked.IsDamaged | pywm/damage_tracked.py:24-27 | the flag is returned and cleared |
| DamageTracked.DamageReadOnce | pywm/damage_tracked.py:18-27 | after damage the first read reports true and an immediate second read false |

## Left out

- Threads and timing loops are left out because they hold no logic beyond sequencing: the `select`/`read` loop of `Touchpad.run`, the daemon's half-second sleep, `PyWMIdleThread`, and `_update_idle` with its lock and `time.time`. Runs are modelled as input sequences, and time as a field of each input.
- The `_running` flags and `close`/`stop` of the readers are left out because they only end the loops above.
- `LowpassGesture` and its timer thread are left out because the lowpass filter class is not part of this model. Listener events are modelled up to the listener interface.
- Device and file I/O is left out: evdev devices and their capabilities, the reading of `/proc/bus/input/devices` (the scan takes its lines), and the header scan at import in `pywm/pywm_widget.py`.
- `find_all_touchpads` is not part of this model: discovery is the input of `Daemon.Update`.
- GL rendering, shaders, output commits and per-surface damage are left out because they are wlroots and GL calls. Widget rendering is reduced to the branch it takes.
- The rounding of composite boxes to output pixels and `PyWM.round` are left out: boxes reach the compose tree as integer rectangles, and Python's banker's rounding of floats is not modelled.
- Negative blur extents are not modelled by the compose tree, whose composites carry a natural extent.
- Integer overflow of `int` in `blur_extend` and of the `long` handle counters is not modelled; handles and extents are unbounded integers.
- Floating-point rounding in motion, lock percentage and dead zones is not modelled; C doubles and Python floats are exact reals.
- The clamping of the cursor to the output layout by wlroots is not modelled.
- The buffer size `WM_CONFIG_STRLEN` is the parameter `strLen`, because the header that defines it is not in sync with the source.
- The `PyObject_Call` paths of `_pywm_widgets_update` are left out: they are Python C-API glue. The box-acceptance rule they feed is modelled by `PyWidgets.ApplyReply`.
- The Xwayland view's focus, `surface_at` and `for_each_surface` are left out because they are wlroots surface iteration. So are the child map and unmap handlers, which only set a flag.
- Layer-shell popups, subsurfaces, `request_size`, `focus` and credentials are left out: they forward to wlroots without logic of their own.
- `wm_server_close_virtual_output` and `wm_server_view_for_surface` are left out because they are wlroots list iteration.
- `_destroy_view`, `_view_event`, `_update_widget` and `_update_widget_pixels` of `pywm/pywm.py` are left out: they are dictionary lookups that forward to the view and widget objects. Those objects are modelled by `PyView` and `PyWidget`.
- `_button`, `_axis`, `_key`, `_modifiers` and `_layout_change` of `pywm/pywm.py` are left out because they only forward to the window manager.
- Touchpad.Run: its own contract only bounds the number of frames by the number of events. What a run keeps and emits is stated by `Touchpad.RunKeepsSlotsWf` and `Touchpad.RunEmitsActiveIds`.
- Daemon.Discover: its own contract only relates the list lengths. Its outcome is stated by `Daemon.DiscoverFails` and `Daemon.DiscoverResult`.
- Gestures.Run: it carries no contract of its own. What a run emits, including the events an input delivers before it raises, is stated by `Gestures.RunAvoids` and `Gestures.TerminatedIsFinal`.
- Gestures.OnFrame: it carries no contract of its own. What one frame does is stated by `Gestures.OnFrameEvents`, `Gestures.StartedOnlyOnValidation`, `Gestures.ValidationDeliversBeforeStart`, `Gestures.Classification` and, for a frame that raises, `Gestures.FailedFrame`.
- Gestures.Handle: it carries no contract of its own. One input of any kind is stated by `Gestures.HandleAvoids`, and a reset by `Daemon.ResetGestures`.
- Gestures.Displacement: its own contract states only that the squared term is non-negative. Its value is stated by `SwipeDisplacement.DisplacementAppend` and `SwipeDisplacement.DisplacementOne`.
- Daemon.Update: it carries no contract of its own. It is stated by `Daemon.UpdateFails`, `Daemon.UpdateDiscovers`, `Daemon.UpdateSpec` and `Daemon.UpdateFailedSpec`.
- Daemon.StopUnvalidated: its own contract is only its precondition on the indices. What it keeps and stops is stated by `Daemon.StopUnvalidatedSpec`.
- Daemon.RunRounds: it carries no contract of its own. It is stated by `Daemon.RunStopsEverything` and `Daemon.FailedRoundStopsItsStarts`.
- Multitouch.HandleEvent: it carries no contract of its own. It is stated by `Multitouch.HandleEventSpec`.
- Multitouch.Run: it carries no contract of its own. It is stated by `Multitouch.RunCancelsOnce`.
- DeviceScan.FindDevice: it carries no contract of its own. It is stated by `DeviceScan.FindDeviceSpec`, `DeviceScan.FoundPathShape` and `DeviceScan.NoMatchNotFound`.
- DeviceScan.ScanFrom: it carries no contract of its own. It is stated by `DeviceScan.ScanKindsSpec`.
- Sanitize.Reassign: it carries no contract of its own. It is stated by `Sanitize.ReassignBounds`, `Sanitize.FreshStart`, `Sanitize.SameIdsKeepMap` and `Sanitize.AfterChangeMap`.
- WmServer.OpenVirtualOutput: the length limit counts characters, while `strlen` in the C counts UTF-8 bytes; a name with letters outside ASCII can exceed the limit in bytes while within it in characters, so the C refuses names the model accepts.
- WmConfig.Truncate: the buffer holds bytes in the C, the model counts characters; a name outside ASCII can be cut inside a multi-byte character by the C, which the model does not show.
- DeviceScan.IsSpace: only the ASCII whitespace characters separate words; the other Unicode whitespace that Python's `str.split()` also splits on is not modelled.
- Sanitize.Unmatched: its own contract states only that every id collected is unmatched. The converse, that every unmatched id is collected, is `Sanitize.UnmatchedSpec`.
- Sanitize.Sanitise: its own contract bounds the ids only by "old or fresh". Which touch gets which id is `Sanitize.SanitiseAssigns`.
- Sanitize.OnUpdate: its own contract does not say which logical id a touch carries after the id set changes. That is `Sanitize.OnUpdateAfterChange`.
- Sanitize.SanitiseAssigns, Sanitize.OnUpdateAfterChange: the id guarantees are proved only for frames with distinct hardware ids in which a persisting id stays on its matched touch. Without that, `on_update` can raise, as `Sanitize.CrossedIdsRaise` shows.

## Findings

| source | as written | input that shows it | evidently intended | confidence | as-written member | corrected member |
|---|---|---|---|---|---|---|
| src/wm/wm_content.c:152 | a negative mask height becomes `-mask_h + display_height + 1`, while the width rule on the line before uses `-mask_x` | display 100 × 100, mask (x 0, y 10, w 50, h -1): the height comes out 102, so the mask ends at 112 instead of one unit past the display at 101 | `-mask_y + display_height + 1`, mirroring the width rule | not executed | WmContent.GetMaskAsWritten, WmContent.GetMaskHeightAsWrittenMisses | WmContent.GetMask |
