/** The per-frame snapshot that flows through the touchpad pipeline
    (`TouchpadUpdate` in pywm/touchpad/touchpad.py): a timestamp, the finger
    count reported by the BTN_TOOL_* keys, and the active touches in slot
    order. Python's `time.time()` is replaced by the explicit field `t`. */
module TouchData {
  import opened Util

  /** One contact: tracking id, normalised x and y, normalised pressure. */
  datatype Touch = Touch(id: int, x: real, y: real, z: real)

  datatype TouchpadUpdate = TouchpadUpdate(t: real, nTouches: int, touches: seq<Touch>)

  /** The ids of a touch list, in order. */
  function Ids(ts: seq<Touch>): (r: seq<int>)
    ensures |r| == |ts|
    ensures forall k :: 0 <= k < |ts| ==> r[k] == ts[k].id
  {
    if |ts| == 0 then [] else [ts[0].id] + Ids(ts[1..])
  }

  /** Python's `set([d[0] for d in touches])`. */
  function IdSet(ts: seq<Touch>): (r: set<int>)
    ensures forall i :: i in r <==> exists k :: 0 <= k < |ts| && ts[k].id == i
  {
    set k | 0 <= k < |ts| :: ts[k].id
  }

  /** Python's `[it[0] for it in touches].index(i)`: the first position
      holding id `i`, or None where Python raises ValueError. */
  function IndexOfId(ts: seq<Touch>, i: int): (r: Option<nat>)
    ensures r.Some? ==> r.value < |ts| && ts[r.value].id == i
    ensures r.Some? ==> forall k :: 0 <= k < r.value ==> ts[k].id != i
    ensures r.None? ==> forall k :: 0 <= k < |ts| ==> ts[k].id != i
  {
    if |ts| == 0 then None
    else if ts[0].id == i then Some(0)
    else match IndexOfId(ts[1..], i)
      case None => None
      case Some(k) => Some(k + 1)
  }
}
