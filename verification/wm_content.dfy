/** The content record of src/wm/wm_content.c: what every view and widget
    shares: its display box, workspace box, mask, opacity, corner radius,
    z-index, lock flag and the output it is pinned to. The setters ignore
    changes below a dead zone; a change damages the layout. Damage and the
    recomputation of the outputs a content overlaps are reported as a flag,
    not modelled. C doubles are modelled as exact reals. */
module WmContent {
  import opened Util

  /** Four doubles describing a rectangle: position and size. */
  datatype Box = Box(x: real, y: real, w: real, h: real)

  /** The L1 distance of two boxes, as the setters compute it. */
  function L1(a: Box, b: Box): real
  {
    Abs(a.x - b.x) + Abs(a.y - b.y) + Abs(a.w - b.w) + Abs(a.h - b.h)
  }

  /** Changes of a box below this L1 distance, and of opacity or corner
      radius below it, are ignored. */
  const DeadZone: real := 0.01

  /** `struct wm_content`. The pinned output is an index into the layout's
      output list (by address); None is NULL. */
  datatype Content = Content(
    display: Box,
    cornerRadius: real,
    fixedOutput: Option<nat>,
    workspace: Box,
    zIndex: int,
    lockEnabled: bool,
    opacity: real,
    mask: Box)

  /** A setter's outcome: the content and whether the layout was damaged. */
  datatype Set = Set(c: Content, damaged: bool)

  /** `wm_content_init`, applied to the freshly allocated record `c`:
      opacity and mask are not touched by it. */
  function Init(c: Content): (r: Content)
    ensures r.display == Box(0.0, 0.0, 0.0, 0.0) && r.cornerRadius == 0.0
    ensures r.fixedOutput.None?
    ensures r.workspace == Box(0.0, 0.0, -1.0, -1.0) && !HasWorkspace(r)
    ensures r.zIndex == 0 && !r.lockEnabled
    ensures r.opacity == c.opacity && r.mask == c.mask
  {
    Content(Box(0.0, 0.0, 0.0, 0.0), 0.0, None, Box(0.0, 0.0, -1.0, -1.0), 0, false, c.opacity, c.mask)
  }

  /** `wm_content_init` links the new content at the head of the server's
      content list. */
  function InsertContent(contents: seq<Content>, c: Content): (r: seq<Content>)
    ensures |r| == |contents| + 1 && r[0] == Init(c) && r[1..] == contents
  {
    [Init(c)] + contents
  }

  /** `wm_content_has_workspace`. */
  predicate HasWorkspace(c: Content)
  {
    !(c.workspace.w < 0.0 || c.workspace.h < 0.0)
  }


  /** The shared dead-zone rule of the box setters: a request within the
      dead zone of the stored box is ignored, any other replaces all four
      components. */
  function SetBoxField(stored: Box, req: Box): (r: (Box, bool))
    ensures L1(r.0, req) < DeadZone
    ensures r.1 <==> L1(stored, req) >= DeadZone
    ensures r.1 ==> r.0 == req
    ensures !r.1 ==> r.0 == stored
  {
    if L1(stored, req) < DeadZone then (stored, false) else (req, true)
  }

  /** `wm_content_set_box`. */
  function SetBox(c: Content, b: Box): (r: Set)
    ensures r.c == c.(display := r.c.display)
    ensures L1(r.c.display, b) < DeadZone
    ensures r.damaged <==> L1(c.display, b) >= DeadZone
    ensures r.damaged ==> r.c.display == b
  {
    var (d, changed) := SetBoxField(c.display, b);
    Set(c.(display := d), changed)
  }

  /** `wm_content_set_workspace`. */
  function SetWorkspace(c: Content, b: Box): (r: Set)
    ensures r.c == c.(workspace := r.c.workspace)
    ensures L1(r.c.workspace, b) < DeadZone
    ensures r.damaged <==> L1(c.workspace, b) >= DeadZone
    ensures r.damaged ==> r.c.workspace == b
  {
    var (w, changed) := SetBoxField(c.workspace, b);
    Set(c.(workspace := w), changed)
  }

  /** Whether a content has a workspace after `wm_content_set_workspace`:
      a request outside the dead zone decides it by its own width and
      height, one inside leaves the answer as it was. */
  lemma SetWorkspaceHasWorkspace(c: Content, b: Box)
    ensures L1(c.workspace, b) >= DeadZone ==>
              (HasWorkspace(SetWorkspace(c, b).c) <==> b.w >= 0.0 && b.h >= 0.0)
    ensures L1(c.workspace, b) < DeadZone ==>
              (HasWorkspace(SetWorkspace(c, b).c) <==> HasWorkspace(c))
  {
  }

  /** The dead zone can hide a workspace: a stored width just below zero
      survives a request for width zero, so the content still has none. */
  lemma DeadZoneHidesWorkspace(c: Content)
    requires c.workspace == Box(0.0, 0.0, -0.001, 10.0)
    ensures !HasWorkspace(c)
    ensures !HasWorkspace(SetWorkspace(c, Box(0.0, 0.0, 0.0, 10.0)).c)
  {
    assert L1(c.workspace, Box(0.0, 0.0, 0.0, 10.0)) == 0.001;
  }

  /** `wm_content_set_mask`. */
  function SetMask(c: Content, b: Box): (r: Set)
    ensures r.c == c.(mask := r.c.mask)
    ensures L1(r.c.mask, b) < DeadZone
    ensures r.damaged <==> L1(c.mask, b) >= DeadZone
    ensures r.damaged ==> r.c.mask == b
  {
    var (m, changed) := SetBoxField(c.mask, b);
    Set(c.(mask := m), changed)
  }

  /** Setting the same box twice: the second call is ignored. */
  lemma SetBoxIdempotent(c: Content, b: Box)
    ensures var r := SetBox(SetBox(c, b).c, b);
            !r.damaged && r.c == SetBox(c, b).c
  {
  }

  /** `wm_content_set_z_index`: equal values are ignored. */
  function SetZIndex(c: Content, z: int): (r: Set)
    ensures r.c == c.(zIndex := z)
    ensures r.damaged <==> z != c.zIndex
  {
    if z == c.zIndex then Set(c, false) else Set(c.(zIndex := z), true)
  }

  /** `wm_content_set_lock_enabled`: equal values are ignored. */
  function SetLockEnabled(c: Content, lock: bool): (r: Set)
    ensures r.c == c.(lockEnabled := lock)
    ensures r.damaged <==> lock != c.lockEnabled
  {
    if lock == c.lockEnabled then Set(c, false) else Set(c.(lockEnabled := lock), true)
  }

  /** `wm_content_set_opacity`: changes below the dead zone are ignored. */
  function SetOpacity(c: Content, opacity: real): (r: Set)
    ensures r.c == c.(opacity := r.c.opacity)
    ensures Abs(r.c.opacity - opacity) < DeadZone
    ensures r.damaged <==> Abs(c.opacity - opacity) >= DeadZone
    ensures r.damaged ==> r.c.opacity == opacity
  {
    if Abs(c.opacity - opacity) < DeadZone then Set(c, false) else Set(c.(opacity := opacity), true)
  }

  /** `wm_content_set_corner_radius`: changes below the dead zone are
      ignored. */
  function SetCornerRadius(c: Content, radius: real): (r: Set)
    ensures r.c == c.(cornerRadius := r.c.cornerRadius)
    ensures Abs(r.c.cornerRadius - radius) < DeadZone
    ensures r.damaged <==> Abs(c.cornerRadius - radius) >= DeadZone
    ensures r.damaged ==> r.c.cornerRadius == radius
  {
    if Abs(c.cornerRadius - radius) < DeadZone then Set(c, false) else Set(c.(cornerRadius := radius), true)
  }

  /** `wm_content_set_output`: a NULL or empty name unpins the content,
      any other name pins it to the first output of that name, or unpins
      it when there is none. `outputs` are the layout's output names in
      list order. */
  function SetOutput(c: Content, outputs: seq<string>, name: Option<string>): (r: Set)
    ensures name.None? || name.value == "" ==> r.c.fixedOutput.None?
    ensures name.Some? && name.value != "" ==>
              (r.c.fixedOutput.None? <==> name.value !in outputs)
              && (r.c.fixedOutput.Some? ==>
                    var i := r.c.fixedOutput.value;
                    i < |outputs| && outputs[i] == name.value
                    && forall k :: 0 <= k < i ==> outputs[k] != name.value)
    ensures r.c == c.(fixedOutput := r.c.fixedOutput)
    ensures r.damaged <==> r.c.fixedOutput != c.fixedOutput
  {
    var res := if name.Some? && name.value != "" then FirstIndexOf(outputs, name.value) else None;
    if res != c.fixedOutput then Set(c.(fixedOutput := res), true) else Set(c, false)
  }

  /** `wm_content_get_mask` as written: a negative mask width becomes
      `-mask_x + display_width + 1`, a negative mask height becomes
      `-mask_h + display_height + 1`. */
  function GetMaskAsWritten(c: Content): (r: Box)
    ensures r.x == c.mask.x && r.y == c.mask.y
    ensures c.mask.w >= 0.0 ==> r.w == c.mask.w
    ensures c.mask.h >= 0.0 ==> r.h == c.mask.h
    ensures c.mask.h < 0.0 ==> r.h == -c.mask.h + c.display.h + 1.0
    ensures c.mask.w < 0.0 ==> r.x + r.w == c.display.w + 1.0
  {
    var w := if c.mask.w < 0.0 then -c.mask.x + c.display.w + 1.0 else c.mask.w;
    var h := if c.mask.h < 0.0 then -c.mask.h + c.display.h + 1.0 else c.mask.h;
    Box(c.mask.x, c.mask.y, w, h)
  }

  /** A negative mask extent means "to the far edge of the content": the
      mask then ends one unit past the display box. */
  ghost predicate ReachesEdge(c: Content, m: Box)
  {
    && (c.mask.w < 0.0 ==> m.x + m.w == c.display.w + 1.0)
    && (c.mask.h < 0.0 ==> m.y + m.h == c.display.h + 1.0)
  }

  /** The height rule as written uses the mask height where the width rule
      uses the mask position: a mask starting at y = 10 with a negative
      height on a display 100 high comes out 102 high, ending at 112, while
      the width rule would make it end at 101. */
  lemma GetMaskHeightAsWrittenMisses()
    ensures var c := Content(Box(0.0, 0.0, 100.0, 100.0), 0.0, None, Box(0.0, 0.0, -1.0, -1.0), 0, false, 1.0,
                             Box(0.0, 10.0, 50.0, -1.0));
            && GetMaskAsWritten(c).h == 102.0
            && !ReachesEdge(c, GetMaskAsWritten(c))
  {
  }

  /** `wm_content_get_mask` with the height rule written like the width
      rule. */
  function GetMask(c: Content): (r: Box)
    ensures r.x == c.mask.x && r.y == c.mask.y
    ensures c.mask.w >= 0.0 ==> r.w == c.mask.w
    ensures c.mask.h >= 0.0 ==> r.h == c.mask.h
    ensures ReachesEdge(c, r)
    ensures c.mask.h >= 0.0 ==> r == GetMaskAsWritten(c)
  {
    var w := if c.mask.w < 0.0 then -c.mask.x + c.display.w + 1.0 else c.mask.w;
    var h := if c.mask.h < 0.0 then -c.mask.y + c.display.h + 1.0 else c.mask.h;
    Box(c.mask.x, c.mask.y, w, h)
  }
}
