/** The widget registry of src/py/_pywm_widget.c and the rule by which a
    widget's content takes the values the Python side reports. */
module PyWidgets {
  import opened Util
  import Registry
  import WmContent

  type Widgets = Registry.Registry<()>

  /** The handle the next added widget will get (`next_handle`, which is
      offered to the Python side when it may create a widget). */
  function NextHandle(ws: Widgets): int
  {
    ws.last + 1
  }

  /** `_pywm_widgets_add`: appended at the tail under the next handle;
      the first handle issued is 1. */
  function Add(ws: Widgets, widget: nat): (res: (Widgets, int))
    ensures res.1 == NextHandle(ws) && NextHandle(res.0) == res.1 + 1
    ensures |res.0.nodes| == |ws.nodes| + 1 && res.0.nodes[..|ws.nodes|] == ws.nodes
    ensures res.0.nodes[|ws.nodes|].handle == res.1 && res.0.nodes[|ws.nodes|].obj == widget
    ensures Registry.Valid(ws) ==> Registry.Valid(res.0)
    ensures Registry.Valid(ws) ==> Registry.FromHandle(res.0, res.1) == Some(widget)
  {
    assert Registry.Valid(ws) ==> Registry.FromHandle(Registry.Add(ws, widget, ()).0, NextHandle(ws)) == Some(widget) by {
      if Registry.Valid(ws) {
        Registry.AddThenFind(ws, widget, ());
      }
    }
    Registry.Add(ws, widget, ())
  }

  lemma FirstHandleIsOne(widget: nat)
    ensures Add(Registry.Empty(), widget).1 == 1
  {
  }

  /** `_pywm_widgets_remove`: the widget must be registered (the source
      asserts it, and dereferences NULL otherwise); None is that abort. */
  function Remove(ws: Widgets, widget: nat): (res: Option<(Widgets, int)>)
    ensures res.None? <==> forall k :: 0 <= k < |ws.nodes| ==> ws.nodes[k].obj != widget
    ensures Registry.Valid(ws) && res.Some? ==>
              && Registry.Valid(res.value.0)
              && res.value.1 == Registry.GetHandle(ws, widget)
              && |res.value.0.nodes| + 1 == |ws.nodes|
              && Registry.FromHandle(res.value.0, res.value.1).None?
  {
    var removed := Registry.Remove(ws, widget);
    assert Registry.Valid(ws) && removed.Some? ==>
             && Registry.Valid(removed.value.0)
             && removed.value.1 == Registry.GetHandle(ws, widget)
             && |removed.value.0.nodes| + 1 == |ws.nodes|
             && Registry.ContainerFromHandle(removed.value.0, removed.value.1).None? by {
      if Registry.Valid(ws) {
        Registry.RemoveSpec(ws, widget);
      }
    }
    removed
  }

  /** What the `update_widget` callback returns, when it returns a tuple. */
  datatype Reply = Reply(
    lockEnabled: bool,
    box: WmContent.Box,
    mask: WmContent.Box,
    output: string,
    opacity: real,
    zIndex: int)

  /** The content updates of `_pywm_widget_update`, in the source's order:
      opacity, the box (only when its width and height are non-negative),
      mask, z-index, lock flag and output. `outputs` are the layout's
      output names. The flag tells whether any setter damaged the layout. */
  function ApplyReply(c: WmContent.Content, outputs: seq<string>, rep: Reply): (r: WmContent.Set)
    ensures rep.box.w >= 0.0 && rep.box.h >= 0.0 ==> WmContent.L1(r.c.display, rep.box) < WmContent.DeadZone
    ensures !(rep.box.w >= 0.0 && rep.box.h >= 0.0) ==> r.c.display == c.display
    ensures Abs(r.c.opacity - rep.opacity) < WmContent.DeadZone
    ensures WmContent.L1(r.c.mask, rep.mask) < WmContent.DeadZone
    ensures r.c.zIndex == rep.zIndex && r.c.lockEnabled == rep.lockEnabled
    ensures rep.output == "" ==> r.c.fixedOutput.None?
    ensures rep.output != "" ==> r.c.fixedOutput == FirstIndexOf(outputs, rep.output)
    ensures r.c.workspace == c.workspace && r.c.cornerRadius == c.cornerRadius
    ensures r.damaged <==> r.c != c
  {
    var s1 := WmContent.SetOpacity(c, rep.opacity);
    var s2 := if rep.box.w >= 0.0 && rep.box.h >= 0.0 then WmContent.SetBox(s1.c, rep.box) else WmContent.Set(s1.c, false);
    var s3 := WmContent.SetMask(s2.c, rep.mask);
    var s4 := WmContent.SetZIndex(s3.c, rep.zIndex);
    var s5 := WmContent.SetLockEnabled(s4.c, rep.lockEnabled);
    var s6 := WmContent.SetOutput(s5.c, outputs, Some(rep.output));
    assert s6.c.opacity == s1.c.opacity && s6.c.mask == s3.c.mask && s6.c.display == s2.c.display;
    WmContent.Set(s6.c, s1.damaged || s2.damaged || s3.damaged || s4.damaged || s5.damaged || s6.damaged)
  }
}
