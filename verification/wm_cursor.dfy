/** The cursor of src/wm/wm_cursor.c: which touchpad gestures are forwarded
    to clients when the Python callback may capture them, how captured
    motion leaves the cursor in place, and which image is shown. The
    callbacks' answers are part of each input. Positions are exact reals;
    the clamping of wlroots to the output layout is not modelled. */
module WmCursor {
  import opened Util

  datatype GestureKind = Pinch | Swipe
  datatype Phase = Begin | Update | End

  /** A client-provided cursor surface with its hotspot. */
  datatype ClientImage = ClientImage(surface: nat, hotspotX: int, hotspotY: int)

  /** What wlroots is told to show. */
  datatype Shown = NoImage | Named(name: string) | Surface(img: ClientImage)

  datatype Cursor = Cursor(
    x: real, y: real,
    pinchStarted: bool, swipeStarted: bool,
    visible: bool,
    client: Option<ClientImage>,
    shown: Shown)

  function Started(c: Cursor, k: GestureKind): bool
  {
    if k == Pinch then c.pinchStarted else c.swipeStarted
  }

  function WithStarted(c: Cursor, k: GestureKind, b: bool): (r: Cursor)
    ensures Started(r, k) == b && Started(r, if k == Pinch then Swipe else Pinch) == Started(c, if k == Pinch then Swipe else Pinch)
    ensures r.x == c.x && r.y == c.y && r.visible == c.visible && r.client == c.client && r.shown == c.shown
  {
    if k == Pinch then c.(pinchStarted := b) else c.(swipeStarted := b)
  }

  /** `wm_cursor_init`: no gesture started, cursor invisible. */
  function Init(x: real, y: real): (c: Cursor)
    ensures !c.pinchStarted && !c.swipeStarted && !c.visible
  {
    Cursor(x, y, false, false, false, None, NoImage)
  }

  // ---------------------------------------------------------------------
  // Gestures
  // ---------------------------------------------------------------------

  /** A gesture event together with whether the callback captured it. */
  datatype GestureInput = GestureInput(kind: GestureKind, phase: Phase, captured: bool)

  /** The pinch and swipe handlers: a begin is forwarded, and marks the
      gesture started, unless captured; an update is forwarded unless
      captured; an end is dropped only when captured with no begin
      forwarded, and otherwise clears the flag and is forwarded. */
  function HandleGesture(c: Cursor, g: GestureInput): (r: (Cursor, bool))
    ensures g.phase == Begin ==> (r.1 <==> !g.captured)
    ensures g.phase == Update ==> (r.1 <==> !g.captured)
    ensures g.phase == End ==> (r.1 <==> !g.captured || Started(c, g.kind))
    ensures Started(r.0, g.kind) == (if r.1 && g.phase == Begin then true
                                    else if r.1 && g.phase == End then false
                                    else Started(c, g.kind))
    ensures r.0 == WithStarted(c, g.kind, Started(r.0, g.kind))
  {
    match g.phase
    case Begin => if g.captured then (c, false) else (WithStarted(c, g.kind, true), true)
    case Update => (c, !g.captured)
    case End =>
      if g.captured && !Started(c, g.kind) then (c, false)
      else (WithStarted(c, g.kind, false), true)
  }

  /** The forwarded events of a trace, in order. */
  function RunGestures(c: Cursor, gs: seq<GestureInput>): (r: (Cursor, seq<GestureInput>))
    decreases |gs|
  {
    if |gs| == 0 then (c, [])
    else
      var (c', fwd) := HandleGesture(c, gs[0]);
      var (c'', rest) := RunGestures(c', gs[1..]);
      (c'', (if fwd then [gs[0]] else []) + rest)
  }

  /** Whether, in a forwarded stream, a begin of kind `k` is still open:
      the last begin or end of that kind is a begin. */
  function Open(fwd: seq<GestureInput>, k: GestureKind, init: bool): bool
    decreases |fwd|
  {
    if |fwd| == 0 then init
    else
      var last := fwd[|fwd| - 1];
      if last.kind == k && last.phase == Begin then true
      else if last.kind == k && last.phase == End then false
      else Open(fwd[..|fwd| - 1], k, init)
  }

  lemma {:induction false} OpenAppend(a: seq<GestureInput>, b: seq<GestureInput>, k: GestureKind, init: bool)
    ensures Open(a + b, k, init) == Open(b, k, Open(a, k, init))
    decreases |b|
  {
    if |b| > 0 {
      assert (a + b)[..|a + b| - 1] == a + b[..|b| - 1];
      assert (a + b)[|a + b| - 1] == b[|b| - 1];
      OpenAppend(a, b[..|b| - 1], k, init);
    } else {
      assert a + b == a;
    }
  }

  /** The started flag of a kind is exactly "a forwarded begin of that
      kind awaits its forwarded end"; so an end arriving while a begin is
      open is always forwarded, captured or not. */
  lemma {:induction false} RunStartedIsOpen(c: Cursor, gs: seq<GestureInput>, k: GestureKind)
    ensures var (c', fwd) := RunGestures(c, gs);
            Started(c', k) == Open(fwd, k, Started(c, k))
    decreases |gs|
  {
    if |gs| > 0 {
      var (c1, f) := HandleGesture(c, gs[0]);
      var head: seq<GestureInput> := if f then [gs[0]] else [];
      RunStartedIsOpen(c1, gs[1..], k);
      var (c', rest) := RunGestures(c1, gs[1..]);
      assert RunGestures(c, gs) == (c', head + rest);
      OpenAppend(head, rest, k, Started(c, k));
    }
  }

  /** From a fresh cursor, whenever a begin has been forwarded and not yet
      ended, the next end of that kind reaches the client. */
  lemma ForwardedBeginGetsEnd(c: Cursor, gs: seq<GestureInput>, k: GestureKind, captured: bool)
    requires !Started(c, k)
    requires Open(RunGestures(c, gs).1, k, false)
    ensures HandleGesture(RunGestures(c, gs).0, GestureInput(k, End, captured)).1
  {
    RunStartedIsOpen(c, gs, k);
  }

  // ---------------------------------------------------------------------
  // Motion
  // ---------------------------------------------------------------------

  /** `handle_motion`: the cursor moves by the delta; if the callback
      captures the motion it moves back by the negated delta and no update
      follows. The flag is whether `wm_cursor_update` runs. */
  function HandleMotion(c: Cursor, dx: real, dy: real, captured: bool): (r: (Cursor, bool))
    ensures r.1 <==> !captured
    ensures captured ==> r.0 == c
    ensures !captured ==> r.0 == c.(x := c.x + dx, y := c.y + dy)
  {
    var moved := c.(x := c.x + dx, y := c.y + dy);
    if captured then (moved.(x := moved.x + -dx, y := moved.y + -dy), false) else (moved, true)
  }

  /** `handle_motion_absolute`: the callback sees the delta to the target;
      a captured motion does not move the cursor, otherwise it lands on
      the target. */
  function HandleMotionAbsolute(c: Cursor, lx: real, ly: real, captured: bool): (r: (Cursor, bool, real, real))
    ensures r.2 == lx - c.x && r.3 == ly - c.y
    ensures r.1 <==> !captured
    ensures captured ==> r.0 == c
    ensures !captured ==> r.0 == c.(x := lx, y := ly)
  {
    var dx := lx - c.x;
    var dy := ly - c.y;
    if captured then (c, false, dx, dy) else (c.(x := c.x + dx, y := c.y + dy), true, dx, dy)
  }

  // ---------------------------------------------------------------------
  // Images
  // ---------------------------------------------------------------------

  /** `wm_cursor_set_image`: forgets the client image; shows the named
      image, or nothing when the cursor is invisible. */
  function SetImage(c: Cursor, name: string): (r: Cursor)
    ensures r.client.None?
    ensures r.shown == (if c.visible then Named(name) else NoImage)
    ensures r == c.(client := None, shown := r.shown)
  {
    c.(client := None, shown := if c.visible then Named(name) else NoImage)
  }

  /** `wm_cursor_set_image_surface`: a NULL surface falls back to the
      default arrow; otherwise the client image is remembered and shown
      if the cursor is visible. */
  function SetImageSurface(c: Cursor, surface: Option<ClientImage>): (r: Cursor)
    ensures surface.None? ==> r == SetImage(c, "left_ptr")
    ensures surface.Some? ==> r.client == surface
    ensures surface.Some? ==> r.shown == (if c.visible then Surface(surface.value) else NoImage)
    ensures r.x == c.x && r.y == c.y && r.visible == c.visible
    ensures r.pinchStarted == c.pinchStarted && r.swipeStarted == c.swipeStarted
  {
    if surface.None? then SetImage(c, "left_ptr")
    else c.(client := surface, shown := if c.visible then Surface(surface.value) else NoImage)
  }

  /** `wm_cursor_set_visible`: re-applies the client image, or the default
      arrow when there is none. */
  function SetVisible(c: Cursor, visible: bool): (r: Cursor)
    ensures r.visible == visible && r.client == c.client
    ensures !visible ==> r.shown == NoImage
    ensures visible && c.client.Some? ==> r.shown == Surface(c.client.value)
    ensures visible && c.client.None? ==> r.shown == Named("left_ptr")
  {
    var c' := c.(visible := visible);
    if c.client.Some? then SetImageSurface(c', c.client) else SetImage(c', "left_ptr")
  }

  /** An invisible cursor shows nothing after any image change, and
      hiding then showing the cursor restores a client image. */
  lemma HiddenShowsNothing(c: Cursor, name: string, surface: Option<ClientImage>)
    requires !c.visible
    ensures SetImage(c, name).shown == NoImage
    ensures SetImageSurface(c, surface).shown == NoImage
    ensures surface.Some? ==> SetVisible(SetImageSurface(c, surface), true).shown == Surface(surface.value)
  {
  }
}
