/** `PyWMView` of pywm/pywm_view.py: the Python mirror of a compositor view.
    The compositor's update overwrites the attributes it reports; the
    window manager's requests (focus, size) are pending until the next
    update reads and clears them. Views are identified by their handle.
    `_update_view` of pywm/pywm.py, which makes and starts new views, is
    here too. */
module PyView {
  import opened Util

  type Box = (real, real, real, real)

  datatype View = View(
    handle: int,
    parent: Option<int>,
    floating: Option<bool>,
    title: Option<string>,
    appId: Option<string>,
    role: Option<string>,
    isXwayland: Option<bool>,
    sizeConstraints: (int, int, int, int),
    focused: bool,
    box: Box,
    size: (int, int),
    zIndex: int,
    acceptsInput: bool,
    focusPending: bool,
    sizePending: (int, int))

  /** `__init__`. */
  function Init(handle: int): (v: View)
    ensures v.handle == handle && v.parent.None? && v.title.None?
    ensures v.box == (0.0, 0.0, 1.0, 1.0) && v.size == (1, 1) && v.zIndex == 0 && v.acceptsInput
    ensures !v.focusPending && v.sizePending == (-1, -1)
  {
    View(handle, None, None, None, None, None, None, (0, 0, 0, 0), false,
         (0.0, 0.0, 1.0, 1.0), (1, 1), 0, true, false, (-1, -1))
  }

  /** What the compositor reports in one update; None stands for Python's
      None in the optional arguments. */
  datatype Report = Report(
    parentHandle: Option<int>,
    floating: Option<bool>,
    title: Option<string>, appId: Option<string>, role: Option<string>,
    isXwayland: Option<bool>,
    scMinW: int, scMaxW: int, scMinH: int, scMaxH: int,
    sizeW: int, sizeH: int)

  /** What `_update` returns to the compositor. */
  datatype Reply = Reply(box: Box, focusPending: bool, sizePending: (int, int), acceptsInput: bool, zIndex: int)

  /** The reply a view gives: its box, its pending requests, its input flag
      and its z-index. */
  function ReplyOf(v: View): Reply
  {
    Reply(v.box, v.focusPending, v.sizePending, v.acceptsInput, v.zIndex)
  }

  /** Whether some view of the window manager has the handle. */
  predicate HasHandle(handles: seq<int>, h: int)
  {
    exists k :: 0 <= k < |handles| && handles[k] == h
  }

  /** The parent lookup reads the window manager's `views` attribute, given
      here as the handles of its views, None when the window manager has no
      such attribute. `PyWM` itself keeps its views in `_views` and defines
      no `views`, so there a reported parent raises AttributeError. */
  predicate Raises(wmViews: Option<seq<int>>, rep: Report)
  {
    rep.parentHandle.Some? && wmViews.None?
  }

  /** Whether the report names a parent that the window manager lists. */
  predicate Adopts(wmViews: Option<seq<int>>, rep: Report)
  {
    rep.parentHandle.Some? && wmViews.Some? && HasHandle(wmViews.value, rep.parentHandle.value)
  }

  /** A field given as None leaves the attribute as it was. */
  function Keep<T>(given: Option<T>, prior: Option<T>): (r: Option<T>)
    ensures given.Some? ==> r == given
    ensures given.None? ==> r == prior
  {
    if given.Some? then given else prior
  }

  /** The reported fields as `_update` keeps them: the parent only when a
      listed view has that handle, each optional field only when given, the
      constraints only when min <= max on both axes, and the size only when
      both components are positive. None is the AttributeError of the parent
      lookup, which comes before any attribute is touched. */
  function Absorb(v: View, wmViews: Option<seq<int>>, rep: Report): (r: Option<View>)
    ensures r.None? <==> Raises(wmViews, rep)
    ensures r.Some? && Adopts(wmViews, rep) ==> r.value.parent == rep.parentHandle
    ensures r.Some? && !Adopts(wmViews, rep) ==> r.value.parent == v.parent
    ensures r.Some? ==> r.value.floating == Keep(rep.floating, v.floating) && r.value.isXwayland == Keep(rep.isXwayland, v.isXwayland)
    ensures r.Some? ==> r.value.title == Keep(rep.title, v.title) && r.value.appId == Keep(rep.appId, v.appId) && r.value.role == Keep(rep.role, v.role)
    ensures r.Some? && rep.scMinW <= rep.scMaxW && rep.scMinH <= rep.scMaxH ==>
              r.value.sizeConstraints == (rep.scMinW, rep.scMaxW, rep.scMinH, rep.scMaxH)
    ensures r.Some? && !(rep.scMinW <= rep.scMaxW && rep.scMinH <= rep.scMaxH) ==> r.value.sizeConstraints == v.sizeConstraints
    ensures r.Some? && rep.sizeW > 0 && rep.sizeH > 0 ==> r.value.size == (rep.sizeW, rep.sizeH)
    ensures r.Some? && !(rep.sizeW > 0 && rep.sizeH > 0) ==> r.value.size == v.size
    ensures r.Some? ==> r.value.handle == v.handle && r.value.box == v.box && r.value.zIndex == v.zIndex && r.value.acceptsInput == v.acceptsInput
    ensures r.Some? ==> r.value.focused == v.focused && ReplyOf(r.value) == ReplyOf(v)
  {
    if Raises(wmViews, rep) then None
    else
      var parent := if Adopts(wmViews, rep) then rep.parentHandle else v.parent;
      var sc := if rep.scMinW <= rep.scMaxW && rep.scMinH <= rep.scMaxH
                then (rep.scMinW, rep.scMaxW, rep.scMinH, rep.scMaxH) else v.sizeConstraints;
      var size := if rep.sizeW > 0 && rep.sizeH > 0 then (rep.sizeW, rep.sizeH) else v.size;
      Some(View(v.handle, parent, Keep(rep.floating, v.floating), Keep(rep.title, v.title), Keep(rep.appId, v.appId),
                Keep(rep.role, v.role), Keep(rep.isXwayland, v.isXwayland), sc, v.focused,
                v.box, size, v.zIndex, v.acceptsInput, v.focusPending, v.sizePending))
  }

  /** `_update`: absorbs the report, answers with the box, the pending
      requests, the input flag and the z-index, and clears the requests.
      When the parent lookup raises, there is no answer and the view is
      left exactly as it was, its requests still pending. */
  function Update(v: View, wmViews: Option<seq<int>>, rep: Report): (r: (View, Option<Reply>))
    ensures r.1.None? <==> Raises(wmViews, rep)
    ensures r.1.None? ==> r.0 == v
    ensures r.1.Some? ==> r.1.value == ReplyOf(v)
    ensures r.1.Some? ==> !r.0.focusPending && r.0.sizePending == (-1, -1)
    ensures r.1.Some? ==> r.0 == Absorb(v, wmViews, rep).value.(focusPending := false, sizePending := (-1, -1))
  {
    match Absorb(v, wmViews, rep)
    case None => (v, None)
    case Some(a) => (a.(focusPending := false, sizePending := (-1, -1)), Some(ReplyOf(a)))
  }

  /** An update that reports nothing valid changes no attribute. */
  lemma EmptyReportKeeps(v: View, wmViews: Option<seq<int>>)
    ensures Absorb(v, wmViews, Report(None, None, None, None, None, None, 1, 0, 1, 0, 0, 0)) == Some(v)
  {
  }

  /** Under `PyWM`, which has no `views` attribute, no update ever sets a
      parent: a report without a parent handle keeps it, and one with a
      parent handle raises and keeps the whole view. */
  lemma ParentNeverSetWithoutViews(v: View, rep: Report)
    ensures Update(v, None, rep).0.parent == v.parent
    ensures rep.parentHandle.Some? <==> Update(v, None, rep) == (v, None)
  {
  }

  /** `_update_view` of pywm/pywm.py: an update of a known view answers
      with that view's reply, or with None when `_update` raises, the
      exception being logged. An update of an unknown handle registers a
      fresh view, updates it, runs the window manager's `_execute_view_main`
      on it (`main`, a subclass hook; `PyWM`'s own does nothing) and
      answers with a second update; when that first update raises, the
      exception leaves the callback, which answers None, and the hook is
      never run. The result is the stored view, the answer and whether the
      hook ran. */
  function UpdateView(known: Option<View>, handle: int, wmViews: Option<seq<int>>, rep: Report, main: View -> View): (r: (View, Option<Reply>, bool))
    ensures r.1.None? <==> Raises(wmViews, rep)
    ensures r.2 <==> known.None? && !Raises(wmViews, rep)
    ensures known.Some? ==> (r.0, r.1) == Update(known.value, wmViews, rep)
    ensures known.None? && Raises(wmViews, rep) ==> r.0 == Init(handle)
    ensures r.2 ==> r.1 == Some(ReplyOf(main(Update(Init(handle), wmViews, rep).0)))
    ensures r.2 ==> !r.0.focusPending && r.0.sizePending == (-1, -1)
  {
    match known
    case Some(v) =>
      var (v', answer) := Update(v, wmViews, rep);
      (v', answer, false)
    case None =>
      var (v1, first) := Update(Init(handle), wmViews, rep);
      if first.None? then (v1, None, false)
      else
        var (v2, second) := Update(main(v1), wmViews, rep);
        (v2, second, true)
  }

  /** Under `PyWM` a view whose first report names a parent is registered
      but never started: that update and every later one naming a parent
      answers None, the view keeps its initial attributes and the hook
      never runs. */
  lemma ParentReportedViewNeverStarts(handle: int, rep: Report, later: Report, main: View -> View)
    requires rep.parentHandle.Some? && later.parentHandle.Some?
    ensures UpdateView(None, handle, None, rep, main) == (Init(handle), None, false)
    ensures UpdateView(Some(Init(handle)), handle, None, later, main) == (Init(handle), None, false)
  {
  }

  /** `focus`, `set_size`, `set_box`, `set_z_index`, `set_accepts_input`:
      each touches only its own field. */
  function Focus(v: View): (r: View)
    ensures r.focusPending && r == v.(focusPending := true)
  {
    v.(focusPending := true)
  }

  function SetSize(v: View, width: int, height: int): (r: View)
    ensures r.sizePending == (width, height) && r == v.(sizePending := (width, height))
  {
    v.(sizePending := (width, height))
  }

  function SetBox(v: View, x: real, y: real, w: real, h: real): (r: View)
    ensures r.box == (x, y, w, h) && r == v.(box := (x, y, w, h))
  {
    v.(box := (x, y, w, h))
  }

  function SetZIndex(v: View, z: int): (r: View)
    ensures r.zIndex == z && r == v.(zIndex := z)
  {
    v.(zIndex := z)
  }

  function SetAcceptsInput(v: View, accepts: bool): (r: View)
    ensures r.acceptsInput == accepts && r == v.(acceptsInput := accepts)
  {
    v.(acceptsInput := accepts)
  }

  /** A request is reported by exactly one update that answers: the next
      such update carries it, the one after carries the cleared values. An
      update that raises in between keeps it pending. The box, z-index and
      input flag set meanwhile are reported as set. */
  lemma RequestsReportedOnce(v: View, wmViews: Option<seq<int>>, rep1: Report, rep2: Report, w: int, h: int, z: int)
    ensures var v1 := SetZIndex(SetSize(Focus(v), w, h), z);
            var (v2, first) := Update(v1, wmViews, rep1);
            var (_, second) := Update(v2, wmViews, rep2);
            && (first.Some? ==> first.value.focusPending && first.value.sizePending == (w, h) && first.value.zIndex == z)
            && (first.Some? && second.Some? ==> !second.value.focusPending && second.value.sizePending == (-1, -1) && second.value.zIndex == z)
            && (first.None? && second.Some? ==> second.value.focusPending && second.value.sizePending == (w, h) && second.value.zIndex == z)
  {
  }
}
