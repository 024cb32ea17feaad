/** Widgets of src/wm/wm_widget.c: a content that shows either a texture
    made from client pixels or a named shader primitive with parameters.
    Textures are modelled by the pixels last written into them; rendering
    is reduced to the branch it takes and the opacity it passes on. */
module WmWidget {
  import opened Util

  /** Pixel data as handed over by the Python side. */
  datatype Pixels = Pixels(stride: int, width: int, height: int, data: seq<int>)

  /** A primitive: shader name (None for NULL), parameter counts and
      arrays as given. */
  datatype Primitive = Primitive(name: Option<string>, nInt: int, paramsInt: seq<int>, nFloat: int, paramsFloat: seq<real>)

  datatype Widget = Widget(texture: Option<Pixels>, primitive: Primitive)

  const NoPrimitive: Primitive := Primitive(None, 0, [], 0, [])

  /** A widget shows at most one thing. */
  predicate Exclusive(w: Widget)
  {
    !(w.texture.Some? && w.primitive.name.Some?)
  }

  /** `wm_widget_init`: neither texture nor primitive. */
  function Init(): (w: Widget)
    ensures w.texture.None? && w.primitive.name.None? && Exclusive(w)
  {
    Widget(None, NoPrimitive)
  }

  /** `wm_widget_set_primitive`: the primitive is replaced; the texture is
      dropped when a named primitive arrives. */
  function SetPrimitive(w: Widget, p: Primitive): (r: Widget)
    ensures r.primitive == p
    ensures r.texture.None? <==> w.texture.None? || p.name.Some?
    ensures r.texture.Some? ==> r.texture == w.texture
    ensures Exclusive(r)
  {
    Widget(if p.name.Some? then None else w.texture, p)
  }

  /** `wm_widget_set_pixels`: the pixels go into the existing texture, or
      into a new one (`created` is whether the renderer produced it); then
      the primitive is cleared. */
  function SetPixels(w: Widget, px: Pixels, created: bool): (r: Widget)
    ensures r.primitive == NoPrimitive
    ensures r.texture.Some? <==> w.texture.Some? || created
    ensures r.texture.Some? ==> r.texture.value == px
    ensures Exclusive(r)
  {
    var t := if w.texture.Some? || created then Some(px) else None;
    SetPrimitive(Widget(t, w.primitive), NoPrimitive)
  }

  /** A content update from the Python side. */
  datatype Op = OpPixels(px: Pixels, created: bool) | OpPrimitive(p: Primitive)

  function Apply(w: Widget, ops: seq<Op>): Widget
    decreases |ops|
  {
    if |ops| == 0 then w
    else
      var w' := match ops[0]
        case OpPixels(px, created) => SetPixels(w, px, created)
        case OpPrimitive(p) => SetPrimitive(w, p);
      Apply(w', ops[1..])
  }

  /** Exclusivity holds after any non-empty sequence of updates, whatever
      the start, and is kept by the empty one. */
  lemma {:induction false} ApplyExclusive(w: Widget, ops: seq<Op>)
    requires Exclusive(w) || |ops| > 0
    ensures Exclusive(Apply(w, ops))
    decreases |ops|
  {
    if |ops| > 0 {
      var w' := match ops[0]
        case OpPixels(px, created) => SetPixels(w, px, created)
        case OpPrimitive(p) => SetPrimitive(w, p);
      assert Apply(w, ops) == Apply(w', ops[1..]);
      ApplyExclusive(w', ops[1..]);
    }
  }

  /** What `wm_widget_render` draws. */
  datatype Drawn =
    | DrawTexture(px: Pixels, opacity: real, lockDim: real)
    | DrawPrimitive(name: string, alpha: real)
    | DrawNothing

  /** `wm_widget_render`: the texture if there is one; otherwise the named
      primitive, but only with a custom renderer and when it has at least
      as many int and float parameters as the selected shader needs. A
      lock-enabled widget is not dimmed by the lock percentage. */
  function Render(w: Widget, opacity: real, lockEnabled: bool, lockPerc: real,
                  customRenderer: bool, shaderInt: int, shaderFloat: int): (r: Drawn)
    ensures r.DrawTexture? <==> w.texture.Some?
    ensures r.DrawTexture? ==> r.px == w.texture.value && r.opacity == opacity
    ensures r.DrawTexture? ==> r.lockDim == (if lockEnabled then 0.0 else lockPerc)
    ensures r.DrawPrimitive? <==>
              && w.texture.None? && w.primitive.name.Some? && customRenderer
              && w.primitive.nInt >= shaderInt && w.primitive.nFloat >= shaderFloat
    ensures r.DrawPrimitive? ==> r.name == w.primitive.name.value
    ensures r.DrawPrimitive? && lockEnabled ==> r.alpha == opacity
    ensures r.DrawPrimitive? && !lockEnabled ==> r.alpha == opacity * (1.0 - lockPerc)
  {
    var dim := if lockEnabled then 0.0 else lockPerc;
    if w.texture.Some? then DrawTexture(w.texture.value, opacity, dim)
    else if w.primitive.name.None? || !customRenderer then DrawNothing
    else if w.primitive.nInt < shaderInt then DrawNothing
    else if w.primitive.nFloat < shaderFloat then DrawNothing
    else DrawPrimitive(w.primitive.name.value, opacity * (1.0 - dim))
  }

  /** After pixels arrive the texture is drawn; after a named primitive
      arrives the texture is never drawn. */
  lemma RenderAfterSet(w: Widget, px: Pixels, p: Primitive, opacity: real, lockEnabled: bool, lockPerc: real,
                       customRenderer: bool, shaderInt: int, shaderFloat: int)
    ensures var r := Render(SetPixels(w, px, true), opacity, lockEnabled, lockPerc, customRenderer, shaderInt, shaderFloat);
            r.DrawTexture? && r.px == px
    ensures p.name.Some? ==>
              !Render(SetPrimitive(w, p), opacity, lockEnabled, lockPerc, customRenderer, shaderInt, shaderFloat).DrawTexture?
  {
  }
}
