/** Small helpers shared by every module: an optional value, absolute value
    and the string predicates that Python's `str` methods and C's string
    functions provide. Strings are `seq<char>`. */
module Util {

  /** The conventional Some/None datatype, standing in for Python's `None`
      and C's NULL. */
  datatype Option<+T> = None | Some(value: T)

  function Abs(x: real): real
  {
    if x < 0.0 then -x else x
  }

  /** Python's `s.startswith(p)`. */
  predicate StartsWith(s: string, p: string)
  {
    |p| <= |s| && s[..|p|] == p
  }

  /** `p` occurs in `s` starting at position `i`. */
  predicate OccursAt(s: string, p: string, i: int)
  {
    0 <= i <= |s| - |p| && s[i..i + |p|] == p
  }

  /** Python's `p in s` for strings: `p` occurs as a contiguous substring. */
  predicate Contains(s: string, p: string)
    ensures Contains(s, p) <==> exists i :: OccursAt(s, p, i)
    decreases |s|
  {
    if |p| > |s| then false
    else if s[..|p|] == p then (assert OccursAt(s, p, 0); true)
    else
      var c := Contains(s[1..], p);
      assert forall i :: OccursAt(s[1..], p, i) ==> OccursAt(s, p, i + 1);
      assert forall i :: OccursAt(s, p, i) && i > 0 ==> OccursAt(s[1..], p, i - 1);
      c
  }

  /** Index of the first occurrence of `c` in `s`, if any: Python's
      `s.index(c)` with its ValueError as None. */
  function FirstIndexOf<T(==)>(s: seq<T>, c: T): (r: Option<nat>)
    ensures r.Some? ==> r.value < |s| && s[r.value] == c
    ensures r.Some? ==> forall k :: 0 <= k < r.value ==> s[k] != c
    ensures r.None? ==> forall k :: 0 <= k < |s| ==> s[k] != c
    ensures r.None? <==> c !in s
  {
    if |s| == 0 then None
    else if s[0] == c then Some(0)
    else match FirstIndexOf(s[1..], c)
      case None => None
      case Some(i) => Some(i + 1)
  }
}
