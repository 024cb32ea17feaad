/** Composites of src/wm/wm_composite.c (blur regions) and the compose
    tree that splits an output's damage among them. Regions are sets of
    integer pixel positions; rectangles are pixman's (x1, y1, x2, y2) with
    exclusive upper corners. The rounding of a composite's box to output
    pixels is done by the caller: boxes arrive as rectangles. */
module WmComposite {
  import opened Util

  type Point = (int, int)
  type Region = set<Point>

  datatype Rect = Rect(x1: int, y1: int, x2: int, y2: int)

  function Points(r: Rect): (s: Region)
    ensures forall p :: p in s <==> r.x1 <= p.0 < r.x2 && r.y1 <= p.1 < r.y2
  {
    set i, j | r.x1 <= i < r.x2 && r.y1 <= j < r.y2 :: (i, j)
  }

  // ---------------------------------------------------------------------
  // Blur extent
  // ---------------------------------------------------------------------

  function Pow2(n: nat): (r: nat)
    ensures r >= 1
  {
    if n == 0 then 1 else 2 * Pow2(n - 1)
  }

  /** C division of integers: truncation toward zero. */
  function TruncDiv(a: int, b: nat): (r: int)
    requires b > 0
    ensures a >= 0 ==> r >= 0
    ensures a <= 0 ==> r <= 0
  {
    if a >= 0 then a / b else -((-a) / b)
  }

  /** `blur_extend`: radius * 2^passes, converted to `int` by truncation
      (a negative pass count halves instead). */
  function BlurExtend(passes: int, radius: int): (r: int)
    ensures passes >= 0 ==> r == radius * Pow2(passes)
  {
    if passes >= 0 then radius * Pow2(passes) else TruncDiv(radius, Pow2(-passes))
  }

  /** The radius and pass count of a blur: the first two int parameters,
      defaulting to 1 and 2. */
  function BlurParams(paramsInt: seq<int>): (r: (int, int))
    ensures r.0 == (if |paramsInt| >= 1 then paramsInt[0] else 1)
    ensures r.1 == (if |paramsInt| >= 2 then paramsInt[1] else 2)
  {
    (if |paramsInt| >= 1 then paramsInt[0] else 1, if |paramsInt| >= 2 then paramsInt[1] else 2)
  }

  /** The extent by which a blur reads beyond the pixels it writes. */
  function Extend(paramsInt: seq<int>): int
  {
    var (radius, passes) := BlurParams(paramsInt);
    BlurExtend(passes, radius)
  }

  lemma {:induction false} ScaledNonNegative(radius: nat, n: nat)
    ensures radius * Pow2(n) >= 0
  {
    if n > 0 {
      ScaledNonNegative(radius, n - 1);
      assert radius * Pow2(n) == 2 * (radius * Pow2(n - 1));
    }
  }

  /** A non-negative radius never gives a negative extent. */
  lemma BlurExtendNonNegative(passes: int, radius: int)
    requires radius >= 0
    ensures BlurExtend(passes, radius) >= 0
  {
    if passes >= 0 {
      ScaledNonNegative(radius, passes);
    }
  }

  lemma DefaultExtend()
    ensures Extend([]) == 4
    ensures forall r: int :: Extend([r]) == 4 * r
  {
  }

  // ---------------------------------------------------------------------
  // Damage below a composite
  // ---------------------------------------------------------------------

  /** A rectangle grown by `e` on every side. */
  function Grow(r: Rect, e: int): Rect
  {
    Rect(r.x1 - e, r.y1 - e, r.x2 + e, r.y2 + e)
  }

  /** `wm_composite_on_damage_below`: every damage rectangle is grown by
      the extent and cut to the composite's box; each non-empty piece is
      damaged again, in order. */
  function OnDamageBelow(box: Rect, damage: seq<Rect>, extend: int): (r: seq<Region>)
    ensures |r| <= |damage|
    ensures forall k :: 0 <= k < |r| ==> r[k] != {} && r[k] <= Points(box)
  {
    if |damage| == 0 then []
    else
      var piece := Points(Grow(damage[0], extend)) * Points(box);
      (if piece == {} then [] else [piece]) + OnDamageBelow(box, damage[1..], extend)
  }

  function UnionAll(rs: seq<Region>): Region
  {
    if |rs| == 0 then {} else rs[0] + UnionAll(rs[1..])
  }

  function GrownUnion(damage: seq<Rect>, extend: int): Region
  {
    if |damage| == 0 then {} else Points(Grow(damage[0], extend)) + GrownUnion(damage[1..], extend)
  }

  /** What is damaged again is exactly the grown damage inside the box. */
  lemma {:induction false} OnDamageBelowCovers(box: Rect, damage: seq<Rect>, extend: int)
    ensures UnionAll(OnDamageBelow(box, damage, extend)) == GrownUnion(damage, extend) * Points(box)
  {
    if |damage| > 0 {
      OnDamageBelowCovers(box, damage[1..], extend);
      var piece := Points(Grow(damage[0], extend)) * Points(box);
      var rest := OnDamageBelow(box, damage[1..], extend);
      assert GrownUnion(damage, extend) == Points(Grow(damage[0], extend)) + GrownUnion(damage[1..], extend);
      if piece == {} {
        assert OnDamageBelow(box, damage, extend) == rest;
        forall p | p in GrownUnion(damage, extend) * Points(box)
          ensures p in GrownUnion(damage[1..], extend)
        {
          assert p !in piece;
        }
      } else {
        assert OnDamageBelow(box, damage, extend) == [piece] + rest;
        assert ([piece] + rest)[1..] == rest;
      }
    }
  }

  // ---------------------------------------------------------------------
  // Inflation of regions
  // ---------------------------------------------------------------------

  function Shift(q: Point, d: Point): Point
  {
    (q.0 + d.0, q.1 + d.1)
  }

  /** The offsets of at most `e` in both coordinates. */
  function Offsets(e: nat): Region
  {
    Points(Rect(-(e as int), -(e as int), e + 1, e + 1))
  }

  /** Every point within `e` (in both coordinates) of the region. */
  function Inflate(r: Region, e: nat): Region
  {
    set q, d | q in r && d in Offsets(e) :: Shift(q, d)
  }

  lemma InflateContains(r: Region, e: nat)
    ensures r <= Inflate(r, e)
  {
    forall q | q in r
      ensures q in Inflate(r, e)
    {
      assert (0, 0) in Offsets(e);
      assert Shift(q, (0, 0)) == q;
    }
  }

  /** Inflation distributes over union, so inflating the rectangles of any
      decomposition one by one, as the source does, inflates the region. */
  lemma InflateUnion(a: Region, b: Region, e: nat)
    ensures Inflate(a + b, e) == Inflate(a, e) + Inflate(b, e)
  {
  }

  function Clamp(v: int, lo: int, hi: int): int
    requires lo <= hi
  {
    if v < lo then lo else if v > hi then hi else v
  }

  /** A non-empty rectangle inflates to the grown rectangle. */
  lemma InflateRect(r: Rect, e: nat)
    requires r.x1 < r.x2 && r.y1 < r.y2
    ensures Inflate(Points(r), e) == Points(Grow(r, e))
  {
    InflateRectWithin(r, e);
    InflateRectCovers(r, e);
  }

  lemma InflateRectWithin(r: Rect, e: nat)
    ensures Inflate(Points(r), e) <= Points(Grow(r, e))
  {
    forall q, d | q in Points(r) && d in Offsets(e)
      ensures Shift(q, d) in Points(Grow(r, e))
    {
    }
  }

  lemma InflateRectCovers(r: Rect, e: nat)
    requires r.x1 < r.x2 && r.y1 < r.y2
    ensures Points(Grow(r, e)) <= Inflate(Points(r), e)
  {
    forall p | p in Points(Grow(r, e))
      ensures p in Inflate(Points(r), e)
    {
      var q := (Clamp(p.0, r.x1, r.x2 - 1), Clamp(p.1, r.y1, r.y2 - 1));
      var d := (p.0 - q.0, p.1 - q.1);
      assert q in Points(r);
      assert d in Offsets(e);
      assert Shift(q, d) == p;
    }
  }

  // ---------------------------------------------------------------------
  // The compose tree
  // ---------------------------------------------------------------------

  /** A node of `struct wm_compose_tree`: the composite it stands for
      (None at the root), the pixels it produces, the pixels it still has
      to take from below, and its children, most recent first. */
  datatype Tree = Tree(composite: Option<nat>, output: Region, leafInput: Region, children: seq<Tree>)

  /** A composite as the tree sees it: its identity, its box in output
      pixels, and its blur extent. Negative extents are not modelled. */
  datatype Comp = Comp(id: nat, box: Region, extend: nat)

  /** A new child for the part `inters` of a node's input. */
  function NewChild(c: Comp, inters: Region): Tree
  {
    Tree(Some(c.id), inters, Inflate(inters, c.extend), [])
  }

  /** `wm_compose_insert`: the part of the node's remaining input inside
      the composite's box moves into a new child at the head (when
      non-empty), which must read that part inflated by the extent; then
      every older child not standing for the same composite gets the same
      treatment. Older children keep their outputs. */
  function Insert(t: Tree, c: Comp): (r: Tree)
    ensures r.output == t.output && r.composite == t.composite
    ensures var inters := t.leafInput * c.box;
            && |r.children| == |t.children| + (if inters == {} then 0 else 1)
            && r.leafInput == t.leafInput - inters
            && (inters != {} ==> r.children[0] == NewChild(c, inters))
    ensures forall i :: 0 <= i < |t.children| ==>
              r.children[i + |r.children| - |t.children|].output == t.children[i].output
    decreases t
  {
    var inters := t.leafInput * c.box;
    var older := seq(|t.children|, i requires 0 <= i < |t.children| =>
                   if t.children[i].composite == Some(c.id) then t.children[i] else Insert(t.children[i], c));
    if inters == {} then t.(children := older)
    else
      var r := Tree(t.composite, t.output, t.leafInput - inters, [NewChild(c, inters)] + older);
      assert forall i :: 0 <= i < |t.children| ==> r.children[i + 1] == older[i];
      r
  }

  /** The root-level invariant: the node's remaining input and its
      children's outputs are pairwise disjoint and together make `whole`. */
  ghost predicate Partition(t: Tree, whole: Region)
  {
    && t.leafInput <= whole
    && (forall i :: 0 <= i < |t.children| ==> t.children[i].output <= whole)
    && (forall p :: p in whole && p !in t.leafInput ==> exists i :: 0 <= i < |t.children| && p in t.children[i].output)
    && (forall i :: 0 <= i < |t.children| ==> t.children[i].output !! t.leafInput)
    && (forall i, j :: 0 <= i < j < |t.children| ==> t.children[i].output !! t.children[j].output)
  }

  /** The set reasoning behind one insertion: a node whose input loses
      `inters` to a new head child (`k == 1`), or loses nothing (`k == 0`),
      while the remaining children keep their outputs, stays a partition. */
  lemma PartitionStep(t: Tree, r: Tree, inters: Region, k: nat, whole: Region)
    requires Partition(t, whole)
    requires inters <= t.leafInput && r.leafInput == t.leafInput - inters
    requires k <= 1 && |r.children| == |t.children| + k && (k == 0 <==> inters == {})
    requires k == 1 ==> r.children[0].output == inters
    requires forall i :: 0 <= i < |t.children| ==> r.children[i + k].output == t.children[i].output
    ensures Partition(r, whole)
  {
    forall p | p in whole && p !in r.leafInput
      ensures exists i :: 0 <= i < |r.children| && p in r.children[i].output
    {
      if p in inters {
        assert p in r.children[0].output;
      } else {
        var i :| 0 <= i < |t.children| && p in t.children[i].output;
        assert p in r.children[i + k].output;
      }
    }
    forall i | 0 <= i < |r.children|
      ensures r.children[i].output <= whole && r.children[i].output !! r.leafInput
    {
      if i >= k {
        assert r.children[(i - k) + k].output == t.children[i - k].output;
      }
    }
    forall i, j | 0 <= i < j < |r.children|
      ensures r.children[i].output !! r.children[j].output
    {
      assert r.children[(j - k) + k].output == t.children[j - k].output;
      if i >= k {
        assert r.children[(i - k) + k].output == t.children[i - k].output;
      }
    }
  }

  /** Inserting a composite keeps the partition of a node's input: the
      moved part becomes exactly the new child's output, and the older
      children's outputs do not change. The new child's output lies inside
      the composite's box and its input covers its output. */
  lemma InsertPartition(t: Tree, c: Comp, whole: Region)
    requires Partition(t, whole)
    ensures Partition(Insert(t, c), whole)
    ensures var r := Insert(t, c);
            |r.children| > |t.children| ==>
              && r.children[0].composite == Some(c.id)
              && r.children[0].output <= c.box
              && r.children[0].output <= r.children[0].leafInput
  {
    var r := Insert(t, c);
    var inters := t.leafInput * c.box;
    var k := |r.children| - |t.children|;
    PartitionStep(t, r, inters, k, whole);
    if k == 1 {
      InflateContains(inters, c.extend);
    }
  }

  /** The root of `wm_compose_tree_from_damage`. */
  function Root(damage: Region): (t: Tree)
    ensures Partition(t, damage) && t.output == damage
  {
    Tree(None, damage, damage, [])
  }

  /** Inserting each composite in turn. */
  function InsertAll(t: Tree, comps: seq<Comp>): (r: Tree)
    ensures r.output == t.output && r.composite == t.composite
    decreases |comps|
  {
    if |comps| == 0 then t else InsertAll(Insert(t, comps[0]), comps[1..])
  }

  /** `wm_compose_tree_from_damage`: `comps` are the composites in content
      order. Bypassing yields the bare root. */
  function TreeFromDamage(damage: Region, comps: seq<Comp>, bypass: bool): (t: Tree)
    ensures t.output == damage && t.composite.None?
    ensures bypass ==> t.children == [] && t.leafInput == damage
  {
    if bypass then Root(damage) else InsertAll(Root(damage), comps)
  }

  lemma {:induction false} InsertAllPartition(t: Tree, comps: seq<Comp>, whole: Region)
    requires Partition(t, whole)
    ensures Partition(InsertAll(t, comps), whole)
    decreases |comps|
  {
    if |comps| > 0 {
      InsertPartition(t, comps[0], whole);
      InsertAllPartition(Insert(t, comps[0]), comps[1..], whole);
    }
  }

  /** However the composites overlap, the root's remaining input and its
      children's outputs split the damage without overlap. */
  lemma TreeFromDamagePartition(damage: Region, comps: seq<Comp>, bypass: bool)
    ensures Partition(TreeFromDamage(damage, comps, bypass), damage)
  {
    if !bypass {
      InsertAllPartition(Root(damage), comps, damage);
    }
  }
}
