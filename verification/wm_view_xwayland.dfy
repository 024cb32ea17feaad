/** The size rules and the child-mapping rule of src/wm/wm_view_xwayland.c.
    An X11 surface is reduced to the fields those rules read; the views the
    server holds are given in list order and only the X11 ones are listed
    (the loop skips the others). The shown header lacks the `children` and
    `configure_upon_child` fields the source uses; the source is followed. */
module WmViewXwayland {
  import opened Util

  /** ICCCM size hints: minimum and maximum width and height. */
  datatype SizeHints = SizeHints(minW: int, maxW: int, minH: int, maxH: int)

  /** The fields of `struct wlr_xwayland_surface` the view reads. `parent`
      is the parent's window id; `surface` is the committed size of the
      wayland surface, None before it exists. */
  datatype XSurface = XSurface(
    windowId: int,
    x: int, y: int, width: int, height: int,
    parent: Option<int>,
    hints: Option<SizeHints>,
    surface: Option<(int, int)>)

  /** A top-level X11 view: its surface, the children attached to it (most
      recent first) and the position remembered from a configure request. */
  datatype XView = XView(surface: XSurface, children: seq<XSurface>, configureUponChild: Option<(int, int)>)

  /** A configure request passed on to the X server. */
  datatype Configure = Configure(x: int, y: int, width: int, height: int)

  /** `wm_view_xwayland_init`: no children and no remembered position. */
  function Init(s: XSurface): (v: XView)
    ensures v.surface == s && v.children == [] && v.configureUponChild.None?
  {
    XView(s, [], None)
  }

  // ---------------------------------------------------------------------
  // Size
  // ---------------------------------------------------------------------

  /** `get_size_constraints`: (min_w, max_w, min_h, max_h) from the hints,
      all -1 without hints. */
  function SizeConstraints(s: XSurface): (r: (int, int, int, int))
    ensures s.hints.None? ==> r == (-1, -1, -1, -1)
    ensures s.hints.Some? ==> r == (s.hints.value.minW, s.hints.value.maxW, s.hints.value.minH, s.hints.value.maxH)
  {
    match s.hints
    case None => (-1, -1, -1, -1)
    case Some(h) => (h.minW, h.maxW, h.minH, h.maxH)
  }

  /** `is_floating`, read through the size constraints: a positive
      minimum equal to the maximum on both axes. */
  predicate IsFloating(s: XSurface)
  {
    var (minW, maxW, minH, maxH) := SizeConstraints(s);
    minW > 0 && minH > 0 && minW == maxW && minH == maxH
  }

  /** A window is floating exactly when it announces one fixed positive
      size; without hints it never is. */
  lemma FloatingIffFixedSize(s: XSurface)
    ensures IsFloating(s) <==>
              && s.hints.Some?
              && s.hints.value.minW > 0 && s.hints.value.minW == s.hints.value.maxW
              && s.hints.value.minH > 0 && s.hints.value.minH == s.hints.value.maxH
    ensures s.hints.None? ==> !IsFloating(s)
  {
  }

  /** `get_size`: the committed size of the surface, 0x0 when there is
      none. */
  function Size(s: XSurface): (r: (int, int))
    ensures s.surface.None? ==> r == (0, 0)
    ensures s.surface.Some? ==> r == s.surface.value
  {
    if s.surface.None? then (0, 0) else s.surface.value
  }

  /** `wlr_xwayland_surface_configure`, as far as the window's record is
      concerned: the window's position and size become the configured ones,
      and nothing else about it changes. */
  function ConfigureSurface(s: XSurface, c: Configure): (r: XSurface)
    ensures r.x == c.x && r.y == c.y && r.width == c.width && r.height == c.height
    ensures r.windowId == s.windowId && r.parent == s.parent && r.hints == s.hints && r.surface == s.surface
  {
    s.(x := c.x, y := c.y, width := c.width, height := c.height)
  }

  /** `request_size`: the window is configured at the origin with the
      requested size, and its record takes that geometry. */
  function RequestSize(v: XView, width: int, height: int): (r: (XView, Configure))
    ensures r.1.x == 0 && r.1.y == 0 && r.1.width == width && r.1.height == height
    ensures r.0.surface.x == 0 && r.0.surface.y == 0 && r.0.surface.width == width && r.0.surface.height == height
    ensures r.0.surface.windowId == v.surface.windowId && r.0.surface.parent == v.surface.parent
    ensures r.0.children == v.children && r.0.configureUponChild == v.configureUponChild
  {
    var c := Configure(0, 0, width, height);
    (v.(surface := ConfigureSurface(v.surface, c)), c)
  }

  // ---------------------------------------------------------------------
  // Configure requests and mapping as a child
  // ---------------------------------------------------------------------

  /** `handle_request_configure`: the window is configured with the
      requested size at the origin, and the requested position is
      remembered for the case the window turns out to be a child. */
  function RequestConfigure(v: XView, ev: Configure): (r: (XView, Configure))
    ensures r.1 == Configure(0, 0, ev.width, ev.height)
    ensures r.0.configureUponChild == Some((ev.x, ev.y))
    ensures r.0.surface.x == 0 && r.0.surface.y == 0 && r.0.surface.width == ev.width && r.0.surface.height == ev.height
    ensures r.0.surface.windowId == v.surface.windowId && r.0.surface.parent == v.surface.parent
    ensures r.0.surface.hints == v.surface.hints && r.0.surface.surface == v.surface.surface
    ensures r.0.children == v.children
  {
    var c := Configure(0, 0, ev.width, ev.height);
    (v.(surface := ConfigureSurface(v.surface, c), configureUponChild := Some((ev.x, ev.y))), c)
  }

  /** `child_handle_request_configure`: a window already attached as a
      child takes the requested geometry as it is, position included. */
  function ChildRequestConfigure(s: XSurface, ev: Configure): (r: (XSurface, Configure))
    ensures r.1 == ev
    ensures r.0.x == ev.x && r.0.y == ev.y && r.0.width == ev.width && r.0.height == ev.height
    ensures r.0.windowId == s.windowId && r.0.parent == s.parent
  {
    (ConfigureSurface(s, ev), ev)
  }

  /** Whether a view owns the window id, itself or through a child. */
  predicate Owns(v: XView, windowId: int)
  {
    v.surface.windowId == windowId || exists k :: 0 <= k < |v.children| && v.children[k].windowId == windowId
  }

  /** The first view, in list order, owning the parent's window id. */
  function FindParent(views: seq<XView>, parentId: int): (r: Option<nat>)
    ensures r.Some? ==> r.value < |views| && Owns(views[r.value], parentId)
    ensures r.Some? ==> forall i :: 0 <= i < r.value ==> !Owns(views[i], parentId)
    ensures r.None? <==> forall i :: 0 <= i < |views| ==> !Owns(views[i], parentId)
  {
    if |views| == 0 then None
    else if Owns(views[0], parentId) then Some(0)
    else match FindParent(views[1..], parentId)
      case None => None
      case Some(i) => Some(i + 1)
  }

  /** The two outcomes of `handle_map`. */
  datatype Mapped =
    | AsChild(parent: nat, configure: Configure)
    | AsView

  /** `handle_map`: a window with a parent that some view owns becomes a
      child of that view and is configured at the remembered position, if
      a configure request came first, and else at its own position, with
      its own size. Every other window becomes a view of its own. */
  function Map(views: seq<XView>, v: XView): (r: Mapped)
    ensures r.AsChild? <==> v.surface.parent.Some? && FindParent(views, v.surface.parent.value).Some?
    ensures r.AsChild? ==> r.parent == FindParent(views, v.surface.parent.value).value
    ensures r.AsChild? ==> r.configure.width == v.surface.width && r.configure.height == v.surface.height
    ensures r.AsChild? && v.configureUponChild.None? ==> r.configure.x == v.surface.x && r.configure.y == v.surface.y
  {
    if v.surface.parent.None? then AsView
    else match FindParent(views, v.surface.parent.value)
      case None => AsView
      case Some(p) =>
        var (x, y) := if v.configureUponChild.Some? then v.configureUponChild.value else (v.surface.x, v.surface.y);
        AsChild(p, Configure(x, y, v.surface.width, v.surface.height))
  }

  /** `wm_view_xwayland_child_init`: the child goes to the head of its
      parent's children. */
  function AddChild(parent: XView, s: XSurface): (r: XView)
    ensures r.children == [s] + parent.children
    ensures Owns(r, s.windowId)
    ensures forall id :: Owns(parent, id) ==> Owns(r, id)
  {
    var r := parent.(children := [s] + parent.children);
    assert r.children[0] == s;
    assert forall k :: 0 <= k < |parent.children| ==> r.children[k + 1] == parent.children[k];
    r
  }

  /** A configure request before the map decides the child's geometry: a
      window that is mapped as a child lands where it asked to be, not
      where the X server put it, with the size it asked for, since the
      request already gave the window that size; the view it is attached
      to then owns it, so its own children find it as a parent. */
  lemma ConfigureThenMap(views: seq<XView>, v: XView, ev: Configure)
    requires v.surface.parent.Some? && FindParent(views, v.surface.parent.value).Some?
    ensures var v' := RequestConfigure(v, ev).0;
            var m := Map(views, v');
            && m.AsChild?
            && m.configure == ev
            && Owns(AddChild(views[m.parent], v'.surface), v.surface.windowId)
  {
  }

  /** The request's size wins over the window's earlier size: a window at
      (10, 10) of size 100x80 that asks for (50, 60) and 300x200 before it
      is mapped under an existing view is configured at (50, 60) with size
      300x200. */
  lemma ConfigureThenMapExample()
    ensures var parent := XView(XSurface(1, 0, 0, 640, 480, None, None, None), [], None);
            var v := XView(XSurface(2, 10, 10, 100, 80, Some(1), None, None), [], None);
            Map([parent], RequestConfigure(v, Configure(50, 60, 300, 200)).0) == AsChild(0, Configure(50, 60, 300, 200))
  {
    var parent := XView(XSurface(1, 0, 0, 640, 480, None, None, None), [], None);
    var v := XView(XSurface(2, 10, 10, 100, 80, Some(1), None, None), [], None);
    assert Owns(parent, 1);
    ConfigureThenMap([parent], v, Configure(50, 60, 300, 200));
  }

  /** A window without a parent is always mapped as a view. */
  lemma NoParentIsView(views: seq<XView>, v: XView)
    requires v.surface.parent.None?
    ensures Map(views, v) == AsView
  {
  }
}
