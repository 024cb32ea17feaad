/** The handle registries of src/py/_pywm_view.c and src/py/_pywm_widget.c:
    a singly linked list of nodes, each pairing a compositor object with the
    handle the Python side knows it by, plus per-node data. The list is a
    sequence, head first; an object is its address, a natural
    number; `last` is the static handle counter (the last handle issued). */
module Registry {
  import opened Util

  datatype Node<D> = Node(handle: int, obj: nat, data: D)

  datatype Registry<D> = Registry(nodes: seq<Node<D>>, last: int)

  /** Handles are positive, issued at most `last`, and strictly increase
      along the list: in particular they are unique, and 0 is never one. */
  ghost predicate Valid<D>(r: Registry<D>)
  {
    && r.last >= 0
    && (forall i :: 0 <= i < |r.nodes| ==> 0 < r.nodes[i].handle <= r.last)
    && (forall i, j :: 0 <= i < j < |r.nodes| ==> r.nodes[i].handle < r.nodes[j].handle)
  }

  /** The registry at start-up: no nodes, counter 0. */
  function Empty<D>(): (r: Registry<D>)
    ensures Valid(r) && |r.nodes| == 0
  {
    Registry([], 0)
  }

  /** The first node for `obj`. */
  function ObjIndex<D>(nodes: seq<Node<D>>, obj: nat): (r: Option<nat>)
    ensures r.Some? ==> r.value < |nodes| && nodes[r.value].obj == obj
    ensures r.Some? ==> forall k :: 0 <= k < r.value ==> nodes[k].obj != obj
    ensures r.None? ==> forall k :: 0 <= k < |nodes| ==> nodes[k].obj != obj
  {
    if |nodes| == 0 then None
    else if nodes[0].obj == obj then Some(0)
    else match ObjIndex(nodes[1..], obj)
      case None => None
      case Some(i) => Some(i + 1)
  }

  /** The first node with handle `h`. */
  function HandleIndex<D>(nodes: seq<Node<D>>, h: int): (r: Option<nat>)
    ensures r.Some? ==> r.value < |nodes| && nodes[r.value].handle == h
    ensures r.Some? ==> forall k :: 0 <= k < r.value ==> nodes[k].handle != h
    ensures r.None? ==> forall k :: 0 <= k < |nodes| ==> nodes[k].handle != h
  {
    if |nodes| == 0 then None
    else if nodes[0].handle == h then Some(0)
    else match HandleIndex(nodes[1..], h)
      case None => None
      case Some(i) => Some(i + 1)
  }

  /** `_pywm_views_add` / `_pywm_widgets_add`: a node with the next handle
      is appended at the tail; the new handle is returned. */
  function Add<D>(r: Registry<D>, obj: nat, data: D): (res: (Registry<D>, int))
    ensures res.0.last == res.1 == r.last + 1
    ensures |res.0.nodes| == |r.nodes| + 1 && res.0.nodes[..|r.nodes|] == r.nodes
    ensures res.0.nodes[|r.nodes|] == Node(res.1, obj, data)
    ensures Valid(r) ==> Valid(res.0)
    ensures Valid(r) ==> forall i :: 0 <= i < |r.nodes| ==> r.nodes[i].handle < res.1
  {
    var h := r.last + 1;
    var nodes := r.nodes + [Node(h, obj, data)];
    assert nodes[..|r.nodes|] == r.nodes;
    assert Valid(r) ==> Valid(Registry(nodes, h)) by {
      if Valid(r) {
        forall i | 0 <= i < |nodes|
          ensures 0 < nodes[i].handle <= h
        {
          if i < |r.nodes| {
            assert nodes[i] == r.nodes[i];
          }
        }
        forall i, j | 0 <= i < j < |nodes|
          ensures nodes[i].handle < nodes[j].handle
        {
          assert nodes[i] == r.nodes[i];
        }
      }
    }
    (Registry(nodes, h), h)
  }

  /** Unlinking the first node for `obj`: None when there is none;
      otherwise the remaining list and the removed node's handle. */
  function Remove<D>(r: Registry<D>, obj: nat): (res: Option<(Registry<D>, int)>)
    ensures res.None? <==> forall k :: 0 <= k < |r.nodes| ==> r.nodes[k].obj != obj
    ensures res.Some? ==>
              var i := ObjIndex(r.nodes, obj).value;
              && res.value.0 == Registry(r.nodes[..i] + r.nodes[i + 1..], r.last)
              && res.value.1 == r.nodes[i].handle
  {
    match ObjIndex(r.nodes, obj)
    case None => None
    case Some(i) => Some((Registry(r.nodes[..i] + r.nodes[i + 1..], r.last), r.nodes[i].handle))
  }

  /** `_pywm_views_get_handle` / `_pywm_widgets_get_handle`: the handle of
      the first node for `obj`, or 0. */
  function GetHandle<D>(r: Registry<D>, obj: nat): (h: int)
    ensures Valid(r) ==> (h == 0 <==> forall k :: 0 <= k < |r.nodes| ==> r.nodes[k].obj != obj)
    ensures h != 0 ==> exists k :: 0 <= k < |r.nodes| && r.nodes[k].obj == obj && r.nodes[k].handle == h
  {
    match ObjIndex(r.nodes, obj)
    case None => 0
    case Some(i) => r.nodes[i].handle
  }

  /** `..._container_from_handle`: the position of the node with handle
      `h`, or None for NULL. */
  function ContainerFromHandle<D>(r: Registry<D>, h: int): (res: Option<nat>)
    ensures res.None? <==> forall k :: 0 <= k < |r.nodes| ==> r.nodes[k].handle != h
    ensures res.Some? ==> res.value < |r.nodes| && r.nodes[res.value].handle == h
  {
    HandleIndex(r.nodes, h)
  }

  /** `..._from_handle`: the object of the node with handle `h`, or None
      for NULL. */
  function FromHandle<D>(r: Registry<D>, h: int): (res: Option<nat>)
    ensures res.None? <==> forall k :: 0 <= k < |r.nodes| ==> r.nodes[k].handle != h
    ensures res.Some? ==> exists k :: 0 <= k < |r.nodes| && r.nodes[k].handle == h && r.nodes[k].obj == res.value
  {
    match ContainerFromHandle(r, h)
    case None => None
    case Some(i) => Some(r.nodes[i].obj)
  }

  /** In a valid registry the node with a given handle is the only one. */
  lemma HandleUnique<D>(r: Registry<D>, i: nat, j: nat)
    requires Valid(r) && i < |r.nodes| && j < |r.nodes|
    requires r.nodes[i].handle == r.nodes[j].handle
    ensures i == j
  {
  }

  /** A handle just issued leads back to its object, and no older node
      answers to it. */
  lemma AddThenFind<D>(r: Registry<D>, obj: nat, data: D)
    requires Valid(r)
    ensures var (r', h) := Add(r, obj, data);
            && FromHandle(r', h) == Some(obj)
            && ContainerFromHandle(r', h) == Some(|r.nodes|)
            && ContainerFromHandle(r, h).None?
  {
    var (r', h) := Add(r, obj, data);
    var i := ContainerFromHandle(r', h).value;
    HandleUnique(r', i, |r.nodes|);
  }

  /** Unlinking keeps the list valid and the other nodes in order, and the
      removed handle no longer resolves. */
  lemma RemoveSpec<D>(r: Registry<D>, obj: nat)
    requires Valid(r)
    ensures var res := Remove(r, obj);
            res.Some? ==>
              && Valid(res.value.0)
              && |res.value.0.nodes| + 1 == |r.nodes|
              && ContainerFromHandle(res.value.0, res.value.1).None?
              && GetHandle(r, obj) == res.value.1
  {
    var res := Remove(r, obj);
    if res.Some? {
      var i := ObjIndex(r.nodes, obj).value;
      var s := res.value.0.nodes;
      assert forall k :: 0 <= k < |s| ==> s[k] == r.nodes[if k < i then k else k + 1];
      forall k | 0 <= k < |s|
        ensures s[k].handle != res.value.1
      {
        var k' := if k < i then k else k + 1;
        if s[k].handle == res.value.1 {
          HandleUnique(r, k', i);
        }
      }
    }
  }

  /** Handles of a valid registry are issued in insertion order: adding
      twice gives two strictly increasing handles, both resolvable. */
  lemma HandlesIncrease<D>(r: Registry<D>, a: nat, da: D, b: nat, db: D)
    requires Valid(r)
    ensures var (r1, h1) := Add(r, a, da);
            var (r2, h2) := Add(r1, b, db);
            && h1 < h2 && Valid(r2)
            && FromHandle(r2, h1) == Some(a) && FromHandle(r2, h2) == Some(b)
  {
    var (r1, h1) := Add(r, a, da);
    var (r2, h2) := Add(r1, b, db);
    AddThenFind(r1, b, db);
    var i := ContainerFromHandle(r2, h1).value;
    assert r2.nodes[|r.nodes|].handle == h1;
    HandleUnique(r2, i, |r.nodes|);
  }
}
