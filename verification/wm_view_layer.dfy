/** The layer-shell view of src/wm/wm_view_layer.c: the size taken from each
    commit, the setters that refuse resizing, fullscreen and maximised
    states, and what the view reports about itself. */
module WmViewLayer {
  /** The current state of a `wlr_layer_surface_v1` that the view reports. */
  datatype LayerState = LayerState(
    anchor: int, desiredWidth: int, desiredHeight: int, exclusiveZone: int, layer: int,
    marginLeft: int, marginTop: int, marginRight: int, marginBottom: int)

  /** The view: its stored size, the three window-state flags of the base
      view, and the layer surface's namespace and state. */
  datatype LayerView = LayerView(
    width: int, height: int,
    resizing: bool, fullscreen: bool, maximized: bool,
    namespace: string,
    current: LayerState)

  /** `handle_surface_commit`: the committed size is always stored; the
      update callback runs (the flag) only when it differs from the stored
      one. */
  function Commit(v: LayerView, actualWidth: int, actualHeight: int): (r: (LayerView, bool))
    ensures r.0 == v.(width := actualWidth, height := actualHeight)
    ensures r.1 <==> (actualWidth, actualHeight) != (v.width, v.height)
  {
    var changed := actualWidth != v.width || actualHeight != v.height;
    (v.(width := actualWidth, height := actualHeight), changed)
  }

  /** `get_size`: the size stored by the last commit. */
  function Size(v: LayerView): (int, int)
  {
    (v.width, v.height)
  }

  /** Committing the same size again is silent, and the reported size is
      that of the last commit. */
  lemma CommitSettles(v: LayerView, w: int, h: int)
    ensures Size(Commit(v, w, h).0) == (w, h)
    ensures var v' := Commit(v, w, h).0;
            Commit(v', w, h) == (v', false)
  {
  }

  /** `set_resizing`, `set_fullscreen` and `set_maximized` store false
      whatever they are asked. */
  function SetResizing(v: LayerView, resizing: bool): (r: LayerView)
    ensures !r.resizing && r == v.(resizing := false)
  {
    v.(resizing := false)
  }

  function SetFullscreen(v: LayerView, fullscreen: bool): (r: LayerView)
    ensures !r.fullscreen && r == v.(fullscreen := false)
  {
    v.(fullscreen := false)
  }

  function SetMaximized(v: LayerView, maximized: bool): (r: LayerView)
    ensures !r.maximized && r == v.(maximized := false)
  {
    v.(maximized := false)
  }

  /** The argument of the three setters is ignored, and after any of them
      the view still has the size and state it reported before. */
  lemma SettersIgnoreArgument(v: LayerView, b: bool)
    ensures SetResizing(v, b) == SetResizing(v, !b)
    ensures SetFullscreen(v, b) == SetFullscreen(v, !b)
    ensures SetMaximized(v, b) == SetMaximized(v, !b)
    ensures Size(SetResizing(SetFullscreen(SetMaximized(v, b), b), b)) == Size(v)
  {
  }

  /** `get_offset`: a layer surface is never offset inside its box. */
  function Offset(v: LayerView): (r: (int, int))
    ensures r == (0, 0)
  {
    (0, 0)
  }

  /** `get_size_constraints`: the nine values anchor, desired width and
      height, exclusive zone, layer and the four margins, in this order. */
  function SizeConstraints(v: LayerView): (r: seq<int>)
    ensures |r| == 9
  {
    var s := v.current;
    [s.anchor, s.desiredWidth, s.desiredHeight, s.exclusiveZone, s.layer,
     s.marginLeft, s.marginTop, s.marginRight, s.marginBottom]
  }

  /** How a reader of the nine values recovers the layer state. */
  function StateFromConstraints(c: seq<int>): LayerState
    requires |c| == 9
  {
    LayerState(c[0], c[1], c[2], c[3], c[4], c[5], c[6], c[7], c[8])
  }

  /** The nine values carry the whole layer state, in a fixed order. */
  lemma ConstraintsRoundTrip(v: LayerView)
    ensures StateFromConstraints(SizeConstraints(v)) == v.current
    ensures forall c :: |c| == 9 && StateFromConstraints(c) == v.current ==> c == SizeConstraints(v)
  {
  }

  /** `get_info`: (title, app id, role). */
  function Info(v: LayerView): (r: (string, string, string))
    ensures r.0 == "Layer Shell" && r.2 == "layer"
    ensures r.1 == v.namespace
  {
    ("Layer Shell", v.namespace, "layer")
  }
}
