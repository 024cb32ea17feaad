/** `PyWMWidget` of pywm/pywm_widget.py: the Python side of a widget, which
    the compositor polls for its box and z-index and for pixel data that
    is handed over exactly once. */
module PyWidget {
  import opened Util

  /** The pending tuple (fmt, stride, width, height, data). */
  datatype PixelData = PixelData(fmt: int, stride: int, width: int, height: int, data: seq<int>)

  datatype Widget = Widget(handle: Option<int>, box: (real, real, real, real), zIndex: int, pendingPixels: Option<PixelData>)

  /** `__init__`: no handle, empty box at the origin, z-index 0, no
      pixels. */
  function Init(): (w: Widget)
    ensures w.handle.None? && w.box == (0.0, 0.0, 0.0, 0.0) && w.zIndex == 0 && w.pendingPixels.None?
  {
    Widget(None, (0.0, 0.0, 0.0, 0.0), 0, None)
  }

  /** `_update`: the box and z-index. */
  function Update(w: Widget): (r: ((real, real, real, real), int))
    ensures r.0 == w.box && r.1 == w.zIndex
  {
    (w.box, w.zIndex)
  }

  /** `_update_pixels`: the pending pixels, which are then dropped. */
  function UpdatePixels(w: Widget): (r: (Widget, Option<PixelData>))
    ensures r.1 == w.pendingPixels
    ensures r.0 == w.(pendingPixels := None)
  {
    (w.(pendingPixels := None), w.pendingPixels)
  }

  function SetBox(w: Widget, x: real, y: real, width: real, height: real): (r: Widget)
    ensures r == w.(box := (x, y, width, height))
  {
    w.(box := (x, y, width, height))
  }

  function SetZIndex(w: Widget, z: int): (r: Widget)
    ensures r == w.(zIndex := z)
  {
    w.(zIndex := z)
  }

  /** `set_pixels`: replaces whatever is pending. */
  function SetPixels(w: Widget, fmt: int, stride: int, width: int, height: int, data: seq<int>): (r: Widget)
    ensures r == w.(pendingPixels := Some(PixelData(fmt, stride, width, height, data)))
  {
    w.(pendingPixels := Some(PixelData(fmt, stride, width, height, data)))
  }

  /** Pixels set are handed over exactly as given, once; the last of
      several settings wins; box and z-index are reported as last set. */
  lemma PixelsHandedOverOnce(w: Widget, a: PixelData, b: PixelData, x: real, y: real, width: real, height: real, z: int)
    ensures var w1 := SetPixels(SetPixels(w, a.fmt, a.stride, a.width, a.height, a.data), b.fmt, b.stride, b.width, b.height, b.data);
            var (w2, first) := UpdatePixels(w1);
            && first == Some(b)
            && UpdatePixels(w2).1.None?
    ensures Update(SetZIndex(SetBox(w, x, y, width, height), z)) == ((x, y, width, height), z)
  {
  }
}
