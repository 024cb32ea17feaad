/** The view registry of src/py/_pywm_view.c: each node carries the focus
    and resize requests the Python side has made since the last update;
    `_pywm_views_update` acts on them and clears them. */
module PyViews {
  import opened Util
  import Registry

  /** The pending requests of one view. `size` is None when no resize is
      pending; the stored width and height are only read while it is. */
  datatype Pending = Pending(focus: bool, size: Option<(int, int)>)

  type Views = Registry.Registry<Pending>

  /** What `_pywm_views_update` asks of the compositor. */
  datatype Request = FocusView(view: nat) | RequestSize(view: nat, width: int, height: int)

  /** A set-up call on an unknown handle raises instead of returning. */
  datatype Outcome = Done(views: Views) | Destroyed

  /** `_pywm_views_add`: a new node has no pending request. */
  function Add(vs: Views, view: nat): (res: (Views, int))
    ensures Registry.Valid(vs) ==> Registry.Valid(res.0)
    ensures res.1 == vs.last + 1 && |res.0.nodes| == |vs.nodes| + 1 && res.0.nodes[..|vs.nodes|] == vs.nodes
    ensures res.0.nodes[|vs.nodes|] == Registry.Node(res.1, view, Pending(false, None))
  {
    Registry.Add(vs, view, Pending(false, None))
  }

  /** `_pywm_views_remove`: the handle of the unlinked node, or 0 and no
      change when the view is not registered. */
  function Remove(vs: Views, view: nat): (res: (Views, int))
    ensures Registry.Valid(vs) ==> Registry.Valid(res.0)
    ensures res.1 == Registry.GetHandle(vs, view)
    ensures Registry.Valid(vs) ==>
              (res.1 == 0 <==> forall k :: 0 <= k < |vs.nodes| ==> vs.nodes[k].obj != view)
    ensures Registry.Valid(vs) && res.1 == 0 ==> res.0 == vs
    ensures Registry.Valid(vs) && res.1 != 0 ==>
              |res.0.nodes| + 1 == |vs.nodes| && Registry.ContainerFromHandle(res.0, res.1).None?
  {
    var removed := Registry.Remove(vs, view);
    assert Registry.Valid(vs) && removed.Some? ==>
             && Registry.Valid(removed.value.0)
             && |removed.value.0.nodes| + 1 == |vs.nodes|
             && Registry.ContainerFromHandle(removed.value.0, removed.value.1).None? by {
      if Registry.Valid(vs) {
        Registry.RemoveSpec(vs, view);
      }
    }
    match removed
    case None => (vs, 0)
    case Some((vs', h)) => (vs', h)
  }

  /** The data of the node at `i` replaced, everything else unchanged. */
  function SetData(vs: Views, i: nat, p: Pending): (r: Views)
    requires i < |vs.nodes|
    ensures r.last == vs.last && |r.nodes| == |vs.nodes|
    ensures r.nodes[i] == vs.nodes[i].(data := p)
    ensures forall k :: 0 <= k < |vs.nodes| && k != i ==> r.nodes[k] == vs.nodes[k]
    ensures Registry.Valid(vs) ==> Registry.Valid(r)
  {
    vs.(nodes := vs.nodes[i := vs.nodes[i].(data := p)])
  }

  /** `_pywm_view_set_dimensions`. */
  function SetDimensions(vs: Views, handle: int, width: int, height: int): (r: Outcome)
    ensures r.Destroyed? <==> Registry.FromHandle(vs, handle).None?
    ensures r.Done? ==>
              var i := Registry.ContainerFromHandle(vs, handle).value;
              && r.views == SetData(vs, i, vs.nodes[i].data.(size := Some((width, height))))
              && r.views.nodes[i].data.focus == vs.nodes[i].data.focus
  {
    match Registry.ContainerFromHandle(vs, handle)
    case None => Destroyed
    case Some(i) => Done(SetData(vs, i, vs.nodes[i].data.(size := Some((width, height)))))
  }

  /** `_pywm_view_focus`. */
  function Focus(vs: Views, handle: int): (r: Outcome)
    ensures r.Destroyed? <==> Registry.FromHandle(vs, handle).None?
    ensures r.Done? ==>
              var i := Registry.ContainerFromHandle(vs, handle).value;
              && r.views == SetData(vs, i, vs.nodes[i].data.(focus := true))
              && r.views.nodes[i].data.size == vs.nodes[i].data.size
  {
    match Registry.ContainerFromHandle(vs, handle)
    case None => Destroyed
    case Some(i) => Done(SetData(vs, i, vs.nodes[i].data.(focus := true)))
  }

  /** The requests of one node, focus before resize. */
  function NodeRequests(n: Registry.Node<Pending>): seq<Request>
  {
    (if n.data.focus then [FocusView(n.obj)] else [])
    + (if n.data.size.Some? then [RequestSize(n.obj, n.data.size.value.0, n.data.size.value.1)] else [])
  }

  /** `_pywm_views_update`: walks the list head first, issuing each
      pending request and clearing it. */
  function Update(nodes: seq<Registry.Node<Pending>>): (r: (seq<Registry.Node<Pending>>, seq<Request>))
    ensures |r.0| == |nodes|
    ensures forall k :: 0 <= k < |nodes| ==> r.0[k] == nodes[k].(data := Pending(false, None))
  {
    if |nodes| == 0 then ([], [])
    else
      var (rest, reqs) := Update(nodes[1..]);
      ([nodes[0].(data := Pending(false, None))] + rest, NodeRequests(nodes[0]) + reqs)
  }

  /** Every pending focus and resize request is issued, and nothing else
      is. */
  lemma {:induction false} UpdateIssues(nodes: seq<Registry.Node<Pending>>)
    ensures forall v :: FocusView(v) in Update(nodes).1 <==> exists k :: 0 <= k < |nodes| && nodes[k].obj == v && nodes[k].data.focus
    ensures forall v, w, h :: RequestSize(v, w, h) in Update(nodes).1 <==>
              exists k :: 0 <= k < |nodes| && nodes[k].obj == v && nodes[k].data.size == Some((w, h))
  {
    if |nodes| > 0 {
      UpdateIssues(nodes[1..]);
      var reqs := Update(nodes).1;
      assert reqs == NodeRequests(nodes[0]) + Update(nodes[1..]).1;
      forall v
        ensures FocusView(v) in reqs <==> exists k :: 0 <= k < |nodes| && nodes[k].obj == v && nodes[k].data.focus
      {
        if exists k :: 0 <= k < |nodes| && nodes[k].obj == v && nodes[k].data.focus {
          var k :| 0 <= k < |nodes| && nodes[k].obj == v && nodes[k].data.focus;
          if k > 0 {
            assert nodes[1..][k - 1] == nodes[k];
          }
        }
        if FocusView(v) in Update(nodes[1..]).1 {
          var k :| 0 <= k < |nodes[1..]| && nodes[1..][k].obj == v && nodes[1..][k].data.focus;
          assert nodes[k + 1] == nodes[1..][k];
        }
      }
      forall v, w, h
        ensures RequestSize(v, w, h) in reqs <==>
                  exists k :: 0 <= k < |nodes| && nodes[k].obj == v && nodes[k].data.size == Some((w, h))
      {
        if exists k :: 0 <= k < |nodes| && nodes[k].obj == v && nodes[k].data.size == Some((w, h)) {
          var k :| 0 <= k < |nodes| && nodes[k].obj == v && nodes[k].data.size == Some((w, h));
          if k > 0 {
            assert nodes[1..][k - 1] == nodes[k];
          }
        }
        if RequestSize(v, w, h) in Update(nodes[1..]).1 {
          var k :| 0 <= k < |nodes[1..]| && nodes[1..][k].obj == v && nodes[1..][k].data.size == Some((w, h));
          assert nodes[k + 1] == nodes[1..][k];
        }
      }
    }
  }

  /** The registry after `_pywm_views_update`: same handles and views, no
      request pending, so a second update issues nothing. */
  function UpdateViews(vs: Views): (r: (Views, seq<Request>))
    ensures r.0.last == vs.last && |r.0.nodes| == |vs.nodes|
    ensures forall k :: 0 <= k < |vs.nodes| ==>
              r.0.nodes[k].handle == vs.nodes[k].handle && r.0.nodes[k].obj == vs.nodes[k].obj
    ensures forall k :: 0 <= k < |vs.nodes| ==> r.0.nodes[k].data == Pending(false, None)
    ensures Registry.Valid(vs) ==> Registry.Valid(r.0)
  {
    var (nodes, reqs) := Update(vs.nodes);
    (vs.(nodes := nodes), reqs)
  }

  lemma {:induction false} QuietUpdate(nodes: seq<Registry.Node<Pending>>)
    requires forall k :: 0 <= k < |nodes| ==> nodes[k].data == Pending(false, None)
    ensures Update(nodes).1 == []
  {
    if |nodes| > 0 {
      QuietUpdate(nodes[1..]);
    }
  }

  /** A request made through a live handle is issued by the next update. */
  lemma SetDimensionsThenUpdate(vs: Views, handle: int, width: int, height: int)
    requires Registry.FromHandle(vs, handle).Some?
    ensures var r := SetDimensions(vs, handle, width, height);
            && r.Done?
            && RequestSize(Registry.FromHandle(vs, handle).value, width, height) in UpdateViews(r.views).1
            && UpdateViews(UpdateViews(r.views).0).1 == []
  {
    var r := SetDimensions(vs, handle, width, height);
    var i := Registry.ContainerFromHandle(vs, handle).value;
    UpdateIssues(r.views.nodes);
    assert r.views.nodes[i].obj == vs.nodes[i].obj && r.views.nodes[i].data.size == Some((width, height));
    QuietUpdate(UpdateViews(r.views).0.nodes);
  }
}
