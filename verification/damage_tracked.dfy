/** `DamageTracked` of pywm/damage_tracked.py: objects linked into a tree by
    their parent, each with a damaged flag that is set downward and read
    with clearing. Objects are numbered in order of creation; the map holds
    every object ever created (Python keeps a finished object alive as long
    as it is referenced, and finishing only unlinks it from its parent). */
module DamageTracked {
  import opened Util

  /** One object: its parent, its children in order of attachment, and its
      damaged flag. */
  datatype Node = Node(parent: Option<nat>, children: seq<nat>, damaged: bool)

  datatype Forest = Forest(nodes: map<nat, Node>, next: nat)

  /** What construction guarantees: numbers below `next`, a parent created
      before its child, and children created after their parent. */
  ghost predicate Valid(f: Forest)
  {
    && (forall n :: n in f.nodes ==> n < f.next)
    && (forall n :: n in f.nodes && f.nodes[n].parent.Some? ==> f.nodes[n].parent.value < n && f.nodes[n].parent.value in f.nodes)
    && (forall n, c :: n in f.nodes && c in f.nodes[n].children ==> c in f.nodes && c > n)
  }

  function Empty(): (f: Forest)
    ensures Valid(f) && f.nodes == map[]
  {
    Forest(map[], 0)
  }

  /** `__init__`: a new undamaged object without children; with a parent,
      it is appended to the parent's children. The parent must be an
      existing object. */
  function New(f: Forest, parent: Option<nat>): (r: (Forest, nat))
    requires Valid(f)
    requires parent.Some? ==> parent.value in f.nodes
    ensures Valid(r.0) && r.1 !in f.nodes && r.1 in r.0.nodes
    ensures r.0.nodes[r.1] == Node(parent, [], false)
    ensures r.0.nodes.Keys == f.nodes.Keys + {r.1}
    ensures parent.Some? ==> r.0.nodes[parent.value].children == f.nodes[parent.value].children + [r.1]
    ensures forall n :: n in f.nodes && Some(n) != parent ==> r.0.nodes[n] == f.nodes[n]
  {
    var id := f.next;
    var nodes := if parent.None? then f.nodes
                 else f.nodes[parent.value := f.nodes[parent.value].(children := f.nodes[parent.value].children + [id])];
    var r := Forest(nodes[id := Node(parent, [], false)], id + 1);
    assert id !in f.nodes;
    assert r.nodes.Keys == f.nodes.Keys + {id};
    NewValid(f, parent, r);
    (r, id)
  }

  /** The object added by `New` keeps the forest valid: it is numbered
      after everything else and its parent gets it as the last child. */
  lemma NewValid(f: Forest, parent: Option<nat>, r: Forest)
    requires Valid(f) && (parent.Some? ==> parent.value in f.nodes)
    requires r.next == f.next + 1 && r.nodes.Keys == f.nodes.Keys + {f.next}
    requires r.nodes[f.next] == Node(parent, [], false)
    requires parent.Some? ==> r.nodes[parent.value] == f.nodes[parent.value].(children := f.nodes[parent.value].children + [f.next])
    requires forall n :: n in f.nodes && Some(n) != parent ==> r.nodes[n] == f.nodes[n]
    ensures Valid(r)
  {
    forall n | n in r.nodes
      ensures n < r.next
      ensures r.nodes[n].parent.Some? ==> r.nodes[n].parent.value < n && r.nodes[n].parent.value in r.nodes
    {
      if n != f.next {
        assert r.nodes[n].parent == f.nodes[n].parent;
      }
    }
    forall n, c | n in r.nodes && c in r.nodes[n].children
      ensures c in r.nodes && c > n
    {
      if n != f.next && c !in f.nodes[n].children {
        assert Some(n) == parent && c == f.next;
      }
    }
  }

  /** Python's `list.remove`: the first occurrence goes; None is the
      ValueError raised when there is none. */
  function RemoveFirst(s: seq<nat>, x: nat): (r: Option<seq<nat>>)
    ensures r.None? <==> x !in s
    ensures r.Some? ==> |r.value| + 1 == |s| && multiset(r.value) == multiset(s) - multiset{x}
    ensures r.Some? ==> forall y :: y in r.value ==> y in s
  {
    if |s| == 0 then None
    else if s[0] == x then
      assert s == [s[0]] + s[1..];
      Some(s[1..])
    else match RemoveFirst(s[1..], x)
      case None => None
      case Some(t) =>
        assert s == [s[0]] + s[1..];
        Some([s[0]] + t)
  }

  /** `list.remove` cuts out exactly the first occurrence. */
  lemma {:induction false} RemoveFirstCuts(s: seq<nat>, x: nat)
    requires x in s
    ensures var i := FirstIndexOf(s, x).value;
            RemoveFirst(s, x) == Some(s[..i] + s[i + 1..])
  {
    if s[0] != x {
      var t := s[1..];
      assert x in t by { assert s == [s[0]] + t; }
      RemoveFirstCuts(t, x);
      var i := FirstIndexOf(t, x).value;
      assert FirstIndexOf(s, x) == Some(i + 1);
      assert RemoveFirst(s, x) == Some([s[0]] + (t[..i] + t[i + 1..]));
      ConsCut(s, i);
    } else {
      assert s[..0] + s[1..] == s[1..];
    }
  }

  /** Cutting position `i + 1` out of `s` is cutting `i` out of its tail. */
  lemma ConsCut(s: seq<nat>, i: nat)
    requires i + 1 < |s|
    ensures s[..i + 1] + s[i + 2..] == [s[0]] + (s[1..][..i] + s[1..][i + 1..])
  {
    assert s[..i + 1] == [s[0]] + s[1..][..i];
  }

  /** Removing an object appended to a list it was not in gives the list
      back. */
  lemma {:induction false} RemoveAppended(s: seq<nat>, x: nat)
    requires x !in s
    ensures RemoveFirst(s + [x], x) == Some(s)
  {
    if |s| > 0 {
      assert (s + [x])[1..] == s[1..] + [x];
      RemoveAppended(s[1..], x);
      assert s == [s[0]] + s[1..];
    }
  }

  /** `damage_finish`: without a parent nothing happens; otherwise the
      object is unlinked from its parent's children. The parent link
      itself stays, so finishing twice raises (None). */
  function Finish(f: Forest, id: nat): (r: Option<Forest>)
    requires Valid(f) && id in f.nodes
    ensures f.nodes[id].parent.None? ==> r == Some(f)
    ensures f.nodes[id].parent.Some? ==> (r.None? <==> id !in f.nodes[f.nodes[id].parent.value].children)
    ensures r.Some? ==> Valid(r.value) && r.value.nodes.Keys == f.nodes.Keys
    ensures r.Some? && f.nodes[id].parent.Some? ==>
              var p := f.nodes[id].parent.value;
              multiset(r.value.nodes[p].children) == multiset(f.nodes[p].children) - multiset{id}
              && r.value.nodes == f.nodes[p := f.nodes[p].(children := RemoveFirst(f.nodes[p].children, id).value)]
  {
    match f.nodes[id].parent
    case None => Some(f)
    case Some(p) =>
      match RemoveFirst(f.nodes[p].children, id)
      case None => None
      case Some(cs) => Some(f.(nodes := f.nodes[p := f.nodes[p].(children := cs)]))
  }

  /** A child finished right after its creation leaves its parent's
      children exactly as they were, and every other object too; the
      child itself stays, unlinked. Finishing it again raises. */
  lemma NewThenFinish(f: Forest, p: nat)
    requires Valid(f) && p in f.nodes
    ensures var (f1, id) := New(f, Some(p));
            var r := Finish(f1, id);
            && r.Some?
            && r.value.nodes[p].children == f.nodes[p].children
            && r.value.nodes == f.nodes[id := Node(Some(p), [], false)]
            && Finish(r.value, id).None?
  {
    var (f1, id) := New(f, Some(p));
    assert id !in f.nodes[p].children;
    RemoveAppended(f.nodes[p].children, id);
    var r := Finish(f1, id);
    assert r.value.nodes[p].children == f.nodes[p].children;
    assert r.value.nodes == f.nodes[id := Node(Some(p), [], false)];
  }

  // ---------------------------------------------------------------------
  // Damage
  // ---------------------------------------------------------------------

  /** The objects `damage(propagate)` sets: the object itself and, when
      propagating, everything reached through the children, recursively. */
  function Reach(f: Forest, id: nat, propagate: bool): (r: set<nat>)
    requires Valid(f) && id in f.nodes
    ensures id in r
    ensures !propagate ==> r == {id}
    ensures forall m :: m in r ==> m in f.nodes && m >= id
    decreases f.next - id, 1
  {
    if propagate then
      ChildrenAfter(f, id);
      {id} + ReachAll(f, id, f.nodes[id].children)
    else {id}
  }

  /** The objects reached from each of `cs`, all children of `id`. */
  function ReachAll(f: Forest, id: nat, cs: seq<nat>): (r: set<nat>)
    requires Valid(f) && id in f.nodes
    requires forall k :: 0 <= k < |cs| ==> cs[k] in f.nodes && cs[k] > id
    ensures forall k :: 0 <= k < |cs| ==> cs[k] in r
    ensures forall m :: m in r ==> m in f.nodes && m > id
    decreases f.next - id, 0, |cs|
  {
    if |cs| == 0 then {}
    else
      assert cs[0] in f.nodes;
      Reach(f, cs[0], true) + ReachAll(f, id, cs[1..])
  }

  /** Changing only damaged flags keeps a forest valid. */
  lemma SameLinksValid(f: Forest, r: Forest)
    requires Valid(f) && r.nodes.Keys == f.nodes.Keys && r.next == f.next
    requires forall n :: n in f.nodes ==> r.nodes[n].children == f.nodes[n].children && r.nodes[n].parent == f.nodes[n].parent
    ensures Valid(r)
  {
    forall n | n in r.nodes
      ensures n < r.next
      ensures r.nodes[n].parent.Some? ==> r.nodes[n].parent.value < n && r.nodes[n].parent.value in r.nodes
    {
      assert n in f.nodes;
    }
    forall n, c | n in r.nodes && c in r.nodes[n].children
      ensures c in r.nodes && c > n
    {
      assert c in f.nodes[n].children;
    }
  }

  /** The children of an object are objects created after it. */
  lemma ChildrenAfter(f: Forest, id: nat)
    requires Valid(f) && id in f.nodes
    ensures forall k :: 0 <= k < |f.nodes[id].children| ==>
              f.nodes[id].children[k] in f.nodes && f.nodes[id].children[k] > id
  {
    var cs := f.nodes[id].children;
    forall k | 0 <= k < |cs|
      ensures cs[k] in f.nodes && cs[k] > id
    {
      assert cs[k] in cs;
    }
  }

  /** `damage`: every reached object is flagged; nothing else changes. */
  function Damage(f: Forest, id: nat, propagate: bool): (r: Forest)
    requires Valid(f) && id in f.nodes
    ensures Valid(r) && r.nodes.Keys == f.nodes.Keys && r.next == f.next
    ensures forall n :: n in f.nodes ==>
              r.nodes[n] == f.nodes[n].(damaged := f.nodes[n].damaged || n in Reach(f, id, propagate))
  {
    var reached := Reach(f, id, propagate);
    var r := Forest(map n | n in f.nodes :: f.nodes[n].(damaged := f.nodes[n].damaged || n in reached), f.next);
    assert r.nodes.Keys == f.nodes.Keys;
    SameLinksValid(f, r);
    r
  }

  /** Propagation is closed under children: a reached object's children
      are reached too. */
  lemma {:induction false} ReachClosed(f: Forest, id: nat, m: nat, k: nat)
    requires Valid(f) && id in f.nodes
    requires m in Reach(f, id, true) && k < |f.nodes[m].children|
    ensures f.nodes[m].children[k] in Reach(f, id, true)
    decreases f.next - id, 1
  {
    var cs := f.nodes[id].children;
    if m != id {
      ReachAllClosed(f, id, cs, m, k);
    }
  }

  lemma {:induction false} ReachAllClosed(f: Forest, id: nat, cs: seq<nat>, m: nat, k: nat)
    requires Valid(f) && id in f.nodes
    requires forall j :: 0 <= j < |cs| ==> cs[j] in f.nodes && cs[j] > id
    requires m in ReachAll(f, id, cs) && k < |f.nodes[m].children|
    ensures f.nodes[m].children[k] in ReachAll(f, id, cs)
    decreases f.next - id, 0, |cs|
  {
    if |cs| > 0 {
      if m in Reach(f, cs[0], true) {
        ReachClosed(f, cs[0], m, k);
      } else {
        ReachAllClosed(f, id, cs[1..], m, k);
      }
    }
  }

  /** Propagation reaches nothing else: every reached object other than
      the start is a child of a reached object. */
  lemma {:induction false} ReachMinimal(f: Forest, id: nat, m: nat)
    requires Valid(f) && id in f.nodes
    requires m in Reach(f, id, true) && m != id
    ensures exists p :: p in Reach(f, id, true) && m in f.nodes[p].children
    decreases f.next - id, 1
  {
    ReachAllMinimal(f, id, f.nodes[id].children, m);
  }

  lemma {:induction false} ReachAllMinimal(f: Forest, id: nat, cs: seq<nat>, m: nat)
    requires Valid(f) && id in f.nodes
    requires forall j :: 0 <= j < |cs| ==> cs[j] in f.nodes && cs[j] > id && cs[j] in f.nodes[id].children
    requires m in ReachAll(f, id, cs)
    ensures exists p :: p in Reach(f, id, true) && m in f.nodes[p].children
    decreases f.next - id, 0, |cs|
  {
    assert |cs| > 0;
    if m in Reach(f, cs[0], true) {
      if m == cs[0] {
        assert id in Reach(f, id, true);
      } else {
        ReachMinimal(f, cs[0], m);
        var p :| p in Reach(f, cs[0], true) && m in f.nodes[p].children;
        ReachTransitive(f, id, cs[0], p);
      }
    } else {
      ReachAllMinimal(f, id, cs[1..], m);
    }
  }

  /** What a child of `id` reaches, `id` reaches. */
  lemma ReachTransitive(f: Forest, id: nat, c: nat, m: nat)
    requires Valid(f) && id in f.nodes
    requires c in f.nodes[id].children && m in Reach(f, c, true)
    ensures m in Reach(f, id, true)
  {
    var cs := f.nodes[id].children;
    var j :| 0 <= j < |cs| && cs[j] == c;
    ChildrenAfter(f, id);
    ReachAllContains(f, id, cs, j, m);
  }

  lemma {:induction false} ReachAllContains(f: Forest, id: nat, cs: seq<nat>, j: nat, m: nat)
    requires Valid(f) && id in f.nodes
    requires forall k :: 0 <= k < |cs| ==> cs[k] in f.nodes && cs[k] > id
    requires j < |cs| && m in Reach(f, cs[j], true)
    ensures m in ReachAll(f, id, cs)
    decreases |cs|
  {
    if j > 0 {
      ReachAllContains(f, id, cs[1..], j - 1, m);
    }
  }

  /** Damage never reaches an ancestor: the parent of the damaged object
      keeps its flag. */
  lemma DamageSparesParent(f: Forest, id: nat, propagate: bool)
    requires Valid(f) && id in f.nodes && f.nodes[id].parent.Some?
    ensures var p := f.nodes[id].parent.value;
            Damage(f, id, propagate).nodes[p] == f.nodes[p]
  {
  }

  /** `is_damaged`: the flag is returned and cleared. */
  function IsDamaged(f: Forest, id: nat): (r: (Forest, bool))
    requires id in f.nodes
    ensures r.1 == f.nodes[id].damaged
    ensures r.0 == f.(nodes := f.nodes[id := f.nodes[id].(damaged := false)])
  {
    (f.(nodes := f.nodes[id := f.nodes[id].(damaged := false)]), f.nodes[id].damaged)
  }

  /** Damaging then reading reports true once; an immediate second read
      reports false. */
  lemma DamageReadOnce(f: Forest, id: nat, propagate: bool)
    requires Valid(f) && id in f.nodes
    ensures var (f1, first) := IsDamaged(Damage(f, id, propagate), id);
            first && !IsDamaged(f1, id).1
  {
  }
}
