/** Id stabilisation of pywm/touchpad/sanitize_bogus_ids.py: hardware
    tracking ids are remapped to logical ids. When the set of ids changes
    between two frames, old and new touches are paired by a mutual-nearest
    match on squared distance; a matched new id inherits the old id's
    logical id and an unmatched one gets a fresh id. The numpy cost matrix
    is modelled entry by entry, with numpy's `argmin` (first minimum). */
module Sanitize {
  import opened Util
  import opened TouchData

  /** Costs above this bound mean "no match". */
  const CoherenceBound: real := 0.02
  /** The value written over every entry that is not (or no longer) a
      candidate. */
  const NoMatch: real := 2.0

  /** Squared Euclidean distance of two touches. */
  function Cost(a: Touch, b: Touch): (c: real)
    ensures c >= 0.0
  {
    (a.x - b.x) * (a.x - b.x) + (a.y - b.y) * (a.y - b.y)
  }

  /** The matrix entry after the bound has been applied. */
  function Bounded(c: real): (r: real)
    ensures c <= CoherenceBound ==> r == c
    ensures c > CoherenceBound ==> r == NoMatch
  {
    if c > CoherenceBound then NoMatch else c
  }

  /** numpy's `argmin`: the first index of a minimal entry. */
  function ArgMin(s: seq<real>): (r: nat)
    requires |s| > 0
    ensures r < |s|
    ensures forall k :: 0 <= k < |s| ==> s[r] <= s[k]
    ensures forall k :: 0 <= k < r ==> s[k] > s[r]
  {
    if |s| == 1 then 0
    else
      var m := ArgMin(s[1..]) + 1;
      assert forall k :: 1 <= k < |s| ==> s[k] == s[1..][k - 1];
      if s[0] <= s[m] then 0 else m
  }

  /** The first index of a minimal entry is unique. */
  lemma ArgMinUnique(s: seq<real>, j: int)
    requires 0 <= j < |s|
    requires forall k :: 0 <= k < |s| ==> s[j] <= s[k]
    requires forall k :: 0 <= k < j ==> s[k] > s[j]
    ensures ArgMin(s) == j
  {
    var m := ArgMin(s);
    assert s[j] <= s[m] && s[m] <= s[j];
  }

  /** Row `i` of the bounded cost matrix (old touch `i` against every new
      touch). */
  function Row(o: seq<Touch>, n: seq<Touch>, i: nat): (r: seq<real>)
    requires i < |o|
    ensures |r| == |n|
    ensures forall j :: 0 <= j < |n| ==> r[j] == Bounded(Cost(o[i], n[j]))
  {
    seq(|n|, j requires 0 <= j < |n| => Bounded(Cost(o[i], n[j])))
  }

  /** Entry (i, j) after the row reduction: every entry but the row's first
      minimum becomes NoMatch. */
  function RowReduced(o: seq<Touch>, n: seq<Touch>, i: nat, j: nat): real
    requires i < |o| && j < |n|
  {
    if j == ArgMin(Row(o, n, i)) then Bounded(Cost(o[i], n[j])) else NoMatch
  }

  /** Column `j` after the row reduction. */
  function Column(o: seq<Touch>, n: seq<Touch>, j: nat): (c: seq<real>)
    requires j < |n|
    ensures |c| == |o|
    ensures forall i :: 0 <= i < |o| ==> c[i] == RowReduced(o, n, i, j)
  {
    seq(|o|, i requires 0 <= i < |o| => RowReduced(o, n, i, j))
  }

  /** Column `j` after the column reduction as well: only the column's first
      minimum survives. */
  function FinalColumn(o: seq<Touch>, n: seq<Touch>, j: nat): (c: seq<real>)
    requires |o| > 0 && j < |n|
    ensures |c| == |o|
  {
    var c1 := Column(o, n, j);
    var m := ArgMin(c1);
    seq(|o|, i requires 0 <= i < |o| => if i == m then c1[i] else NoMatch)
  }

  /** The old touch new touch `j` is matched to: the argmin of its final
      column, provided the column's minimum is at most 1. */
  function Partner(o: seq<Touch>, n: seq<Touch>, j: nat): (r: Option<nat>)
    requires |o| > 0 && j < |n|
    ensures r.Some? ==> r.value < |o|
  {
    var c := FinalColumn(o, n, j);
    var m := ArgMin(c);
    if c[m] <= 1.0 then Some(m) else None
  }

  /** Old touch `i` has new touch `j` as its nearest (first on ties), within
      the bound. */
  ghost predicate RowNearest(o: seq<Touch>, n: seq<Touch>, i: int, j: int)
  {
    && 0 <= i < |o| && 0 <= j < |n|
    && Cost(o[i], n[j]) <= CoherenceBound
    && (forall k :: 0 <= k < |n| ==> Bounded(Cost(o[i], n[j])) <= Bounded(Cost(o[i], n[k])))
    && (forall k :: 0 <= k < j ==> Bounded(Cost(o[i], n[k])) > Bounded(Cost(o[i], n[j])))
  }

  /** The mutual-nearest match: `j` is the nearest of `i`, and among the old
      touches whose nearest is `j`, `i` is the nearest to `j` (first on
      ties). */
  ghost predicate Mutual(o: seq<Touch>, n: seq<Touch>, i: int, j: int)
  {
    && RowNearest(o, n, i, j)
    && (forall k :: RowNearest(o, n, k, j) ==> Cost(o[i], n[j]) <= Cost(o[k], n[j]))
    && (forall k :: 0 <= k < i && RowNearest(o, n, k, j) ==> Cost(o[k], n[j]) > Cost(o[i], n[j]))
  }

  /** A row-reduced entry within the bound marks the row's nearest. */
  lemma RowReducedNearest(o: seq<Touch>, n: seq<Touch>, i: nat, j: nat)
    requires i < |o| && j < |n|
    ensures RowReduced(o, n, i, j) <= CoherenceBound <==> RowNearest(o, n, i, j)
    ensures RowNearest(o, n, i, j) ==> RowReduced(o, n, i, j) == Cost(o[i], n[j])
  {
    var r := Row(o, n, i);
    if RowNearest(o, n, i, j) {
      ArgMinUnique(r, j);
    }
  }

  /** The three reductions and the final test pick exactly the
      mutual-nearest pairs. */
  lemma {:induction false} PartnerIsMutual(o: seq<Touch>, n: seq<Touch>, j: nat, i: int)
    requires |o| > 0 && j < |n|
    ensures Partner(o, n, j) == Some(i) <==> Mutual(o, n, i, j)
  {
    var c1 := Column(o, n, j);
    var m := ArgMin(c1);
    var c := FinalColumn(o, n, j);
    forall k | 0 <= k < |o|
      ensures RowReduced(o, n, k, j) <= CoherenceBound <==> RowNearest(o, n, k, j)
      ensures RowNearest(o, n, k, j) ==> RowReduced(o, n, k, j) == Cost(o[k], n[j])
      ensures !RowNearest(o, n, k, j) ==> RowReduced(o, n, k, j) == NoMatch
    {
      RowReducedNearest(o, n, k, j);
    }
    if c1[m] <= CoherenceBound {
      // The column keeps its argmin, which is below every NoMatch.
      forall k | 0 <= k < |o|
        ensures c[m] <= c[k]
        ensures k < m ==> c[k] > c[m]
      {
      }
      ArgMinUnique(c, m);
      assert Partner(o, n, j) == Some(m);
      assert RowNearest(o, n, m, j);
      assert Mutual(o, n, m, j);
      if Mutual(o, n, i, j) {
        assert c1[i] == Cost(o[i], n[j]);
        assert c1[m] <= c1[i] && Cost(o[i], n[j]) <= Cost(o[m], n[j]);
      }
    } else {
      assert c1[m] == NoMatch;
      forall k | 0 <= k < |o|
        ensures c[k] == NoMatch
      {
      }
      assert Partner(o, n, j).None?;
      assert forall k :: 0 <= k < |o| ==> c1[k] > CoherenceBound;
      assert !Mutual(o, n, i, j);
    }
  }

  /** Each old touch is matched to at most one new touch. */
  lemma PartnerInjective(o: seq<Touch>, n: seq<Touch>, j1: nat, j2: nat)
    requires |o| > 0 && j1 < |n| && j2 < |n|
    requires Partner(o, n, j1).Some? && Partner(o, n, j1) == Partner(o, n, j2)
    ensures j1 == j2
  {
    var i := Partner(o, n, j1).value;
    PartnerIsMutual(o, n, j1, i);
    PartnerIsMutual(o, n, j2, i);
    assert Bounded(Cost(o[i], n[j1])) == Bounded(Cost(o[i], n[j2]));
  }

  /** A matched pair is within the coherence bound. */
  lemma PartnerWithinBound(o: seq<Touch>, n: seq<Touch>, j: nat)
    requires |o| > 0 && j < |n| && Partner(o, n, j).Some?
    ensures Cost(o[Partner(o, n, j).value], n[j]) <= CoherenceBound
  {
    PartnerIsMutual(o, n, j, Partner(o, n, j).value);
  }

  /** One replacement: `new_id` takes over the logical id of `old_id`, whose
      entry is removed; None where the source raises KeyError. */
  function Rebind(m: map<int, int>, oldId: int, newId: int): (r: Option<map<int, int>>)
    requires oldId != newId
    ensures r.None? <==> oldId !in m
    ensures r.Some? ==> newId in r.value && r.value[newId] == m[oldId] && oldId !in r.value
    ensures r.Some? ==> forall k :: k != oldId && k != newId ==>
              (k in r.value <==> k in m) && (k in m ==> r.value[k] == m[k])
    ensures r.Some? ==> forall k :: k in r.value ==> r.value[k] in m.Values
  {
    if oldId !in m then None
    else Some((m - {oldId})[newId := m[oldId]])
  }

  /** The replacement loop over new touches `j..`, in order. */
  function RemapFrom(o: seq<Touch>, n: seq<Touch>, j: nat, m: map<int, int>): (r: Option<map<int, int>>)
    requires |o| > 0
    ensures r.Some? ==> forall k :: k in r.value ==> r.value[k] in m.Values
    decreases |n| - j
  {
    if j >= |n| then Some(m)
    else
      match Partner(o, n, j)
      case None => RemapFrom(o, n, j + 1, m)
      case Some(i) =>
        if o[i].id == n[j].id then RemapFrom(o, n, j + 1, m)
        else match Rebind(m, o[i].id, n[j].id)
          case None => None
          case Some(m') => RemapFrom(o, n, j + 1, m')
  }

  /** Some new touch from `j` on has hardware id `id` and no partner. */
  predicate UnmatchedFrom(o: seq<Touch>, n: seq<Touch>, j: nat, id: int)
    requires |o| > 0
  {
    exists l :: j <= l < |n| && Partner(o, n, l).None? && n[l].id == id
  }

  /** The ids of the new touches that found no partner, in order. */
  function Unmatched(o: seq<Touch>, n: seq<Touch>, j: nat): (ids: seq<int>)
    requires |o| > 0
    ensures forall id :: id in ids ==> UnmatchedFrom(o, n, j, id)
    decreases |n| - j
  {
    if j >= |n| then []
    else
      var rest := Unmatched(o, n, j + 1);
      if Partner(o, n, j).None? then [n[j].id] + rest else rest
  }

  /** The collected ids are exactly those of the unmatched new touches from
      `j` on. */
  lemma {:induction false} UnmatchedSpec(o: seq<Touch>, n: seq<Touch>, j: nat, id: int)
    requires |o| > 0
    ensures id in Unmatched(o, n, j) <==> UnmatchedFrom(o, n, j, id)
    decreases |n| - j
  {
    if j < |n| {
      var rest := Unmatched(o, n, j + 1);
      UnmatchedSpec(o, n, j + 1, id);
      UnmatchedSplit(o, n, j, id);
      if Partner(o, n, j).None? {
        assert Unmatched(o, n, j) == [n[j].id] + rest;
        assert id in Unmatched(o, n, j) <==> id == n[j].id || id in rest;
      } else {
        assert Unmatched(o, n, j) == rest;
      }
    }
  }

  /** An unmatched new touch from `j` on is touch `j` or one from `j + 1` on. */
  lemma UnmatchedSplit(o: seq<Touch>, n: seq<Touch>, j: nat, id: int)
    requires |o| > 0 && j < |n|
    ensures UnmatchedFrom(o, n, j, id) <==> (Partner(o, n, j).None? && n[j].id == id) || UnmatchedFrom(o, n, j + 1, id)
  {
    if exists l :: j <= l < |n| && Partner(o, n, l).None? && n[l].id == id {
      var l :| j <= l < |n| && Partner(o, n, l).None? && n[l].id == id;
      assert l == j || j + 1 <= l;
    }
  }

  /** Assigning fresh logical ids `next, next + 1, ...` to `ids` in order; a
      repeated id keeps the last one. */
  function Mint(ids: seq<int>, m: map<int, int>, next: int): (r: (map<int, int>, int))
    ensures r.1 == next + |ids|
    ensures r.0.Keys == m.Keys + set k | 0 <= k < |ids| :: ids[k]
    ensures forall k :: k in r.0 && k !in ids ==> r.0[k] == m[k]
    ensures forall k :: 0 <= k < |ids| ==> next <= r.0[ids[k]] < r.1
    ensures forall k :: k in r.0 ==> (k in m && r.0[k] == m[k]) || next <= r.0[k] < r.1
    decreases |ids|
  {
    if |ids| == 0 then (m, next)
    else
      var m1 := m[ids[0] := next];
      var r := Mint(ids[1..], m1, next + 1);
      ElementsSplit(ids);
      MintStep(ids, m, m1, next, r);
      r
  }

  /** The elements of a non-empty sequence: its head and those of its
      tail. */
  lemma ElementsSplit(ids: seq<int>)
    requires |ids| > 0
    ensures (set k | 0 <= k < |ids| :: ids[k]) == {ids[0]} + set k | 0 <= k < |ids| - 1 :: ids[1..][k]
  {
    assert forall k :: 1 <= k < |ids| ==> ids[k] == ids[1..][k - 1];
  }

  /** The step of `Mint` for the head of `ids`, given what the tail's
      minting established. */
  lemma MintStep(ids: seq<int>, m: map<int, int>, m1: map<int, int>, next: int, r: (map<int, int>, int))
    requires |ids| > 0 && r.1 == next + |ids| && m1 == m[ids[0] := next]
    requires r.0.Keys == m.Keys + set k | 0 <= k < |ids| :: ids[k]
    requires forall k :: k in r.0 && k !in ids[1..] ==> r.0[k] == m1[k]
    requires forall k :: 0 <= k < |ids| - 1 ==> next + 1 <= r.0[ids[1..][k]] < r.1
    requires forall k :: k in r.0 ==> (k in m1 && r.0[k] == m1[k]) || next + 1 <= r.0[k] < r.1
    ensures forall k :: k in r.0 && k !in ids ==> r.0[k] == m[k]
    ensures forall k :: 0 <= k < |ids| ==> next <= r.0[ids[k]] < r.1
    ensures forall k :: k in r.0 ==> (k in m && r.0[k] == m[k]) || next <= r.0[k] < r.1
  {
    var head := ids[0];
    assert head in r.0 by {
      assert head in set k | 0 <= k < |ids| :: ids[k];
    }
    if head in ids[1..] {
      var l :| 0 <= l < |ids| - 1 && ids[1..][l] == head;
      assert next <= r.0[head] < r.1;
    } else {
      assert r.0[head] == m1[head];
    }
    forall k | 0 < k < |ids|
      ensures next <= r.0[ids[k]] < r.1
    {
      assert ids[k] == ids[1..][k - 1];
    }
  }

  /** Distinct ids get distinct fresh logical ids: each ends up with
      `next` plus the position of its last occurrence. */
  lemma {:induction false} MintInjective(ids: seq<int>, m: map<int, int>, next: int)
    ensures forall a, b :: a in ids && b in ids && a != b ==> Mint(ids, m, next).0[a] != Mint(ids, m, next).0[b]
    decreases |ids|
  {
    if |ids| > 0 {
      var m1 := m[ids[0] := next];
      var tail := ids[1..];
      MintInjective(tail, m1, next + 1);
      var r := Mint(tail, m1, next + 1);
      assert Mint(ids, m, next) == r;
      forall a, b | a in ids && b in ids && a != b
        ensures r.0[a] != r.0[b]
      {
        assert forall c :: c in ids ==> c == ids[0] || c in tail;
        if a !in tail {
          assert r.0[a] == next;
          var kb :| 0 <= kb < |tail| && tail[kb] == b;
        } else if b !in tail {
          assert r.0[b] == next;
          var ka :| 0 <= ka < |tail| && tail[ka] == a;
        }
      }
    }
  }

  /** Replacement `l` rewrites key `k`: new touch `l` is matched to an old
      touch under another hardware id, and `k` is one of the two ids. */
  ghost predicate Rebinds(o: seq<Touch>, n: seq<Touch>, l: int, k: int)
  {
    && |o| > 0 && 0 <= l < |n| && Partner(o, n, l).Some?
    && o[Partner(o, n, l).value].id != n[l].id
    && (k == o[Partner(o, n, l).value].id || k == n[l].id)
  }

  /** A key no replacement rewrites keeps its entry. */
  lemma {:induction false} RemapUntouched(o: seq<Touch>, n: seq<Touch>, j: nat, m: map<int, int>, k: int)
    requires |o| > 0 && RemapFrom(o, n, j, m).Some?
    requires forall l :: j <= l < |n| ==> !Rebinds(o, n, l, k)
    ensures var r := RemapFrom(o, n, j, m).value;
            (k in r <==> k in m) && (k in m ==> r[k] == m[k])
    decreases |n| - j
  {
    if j < |n| {
      assert !Rebinds(o, n, j, k);
      match Partner(o, n, j)
      case None =>
        RemapUntouched(o, n, j + 1, m, k);
      case Some(i) =>
        if o[i].id == n[j].id {
          RemapUntouched(o, n, j + 1, m, k);
        } else {
          RemapUntouched(o, n, j + 1, Rebind(m, o[i].id, n[j].id).value, k);
        }
    }
  }

  /** The replacements succeed when every matched old id is still present
      when its new touch comes up. */
  lemma {:induction false} RemapSucceeds(o: seq<Touch>, n: seq<Touch>, j: nat, m: map<int, int>)
    requires |o| > 0
    requires forall l :: j <= l < |n| && Partner(o, n, l).Some? ==> o[Partner(o, n, l).value].id in m
    requires forall l, l' :: j <= l' < l < |n| && Partner(o, n, l).Some? ==> !Rebinds(o, n, l', o[Partner(o, n, l).value].id)
    ensures RemapFrom(o, n, j, m).Some?
    decreases |n| - j
  {
    if j < |n| {
      match Partner(o, n, j)
      case None =>
        RemapSucceeds(o, n, j + 1, m);
      case Some(i) =>
        if o[i].id == n[j].id {
          RemapSucceeds(o, n, j + 1, m);
        } else {
          var m' := Rebind(m, o[i].id, n[j].id).value;
          forall l | j + 1 <= l < |n| && Partner(o, n, l).Some?
            ensures o[Partner(o, n, l).value].id in m'
          {
            assert !Rebinds(o, n, j, o[Partner(o, n, l).value].id);
          }
          RemapSucceeds(o, n, j + 1, m');
        }
    }
  }

  /** A matched new touch takes over the logical id its old touch had,
      provided no earlier replacement rewrote the old id and no later one
      rewrites the new id. */
  lemma {:induction false} RemapMatched(o: seq<Touch>, n: seq<Touch>, j: nat, m: map<int, int>, l: nat)
    requires |o| > 0 && j <= l < |n| && Partner(o, n, l).Some?
    requires RemapFrom(o, n, j, m).Some?
    requires forall l' :: j <= l' < l ==> !Rebinds(o, n, l', o[Partner(o, n, l).value].id)
    requires forall l' :: l < l' < |n| ==> !Rebinds(o, n, l', n[l].id)
    ensures var oldId := o[Partner(o, n, l).value].id;
            var r := RemapFrom(o, n, j, m).value;
            (n[l].id in r <==> oldId in m) && (oldId in m ==> r[n[l].id] == m[oldId])
    decreases l - j
  {
    if j < l {
      var oldId := o[Partner(o, n, l).value].id;
      RemapFromStep(o, n, j, m);
      var m' := Replace(o, n, j, m).value;
      ReplaceKeeps(o, n, j, m, oldId);
      RemapMatched(o, n, j + 1, m', l);
    } else {
      RemapMatchedHere(o, n, m, l);
    }
  }

  /** The map after replacement `j` alone; None where it raises. */
  function Replace(o: seq<Touch>, n: seq<Touch>, j: nat, m: map<int, int>): Option<map<int, int>>
    requires |o| > 0 && j < |n|
  {
    match Partner(o, n, j)
    case None => Some(m)
    case Some(i) => if o[i].id == n[j].id then Some(m) else Rebind(m, o[i].id, n[j].id)
  }

  /** The replacements from `j` on are replacement `j` followed by those
      from `j + 1` on. */
  lemma RemapFromStep(o: seq<Touch>, n: seq<Touch>, j: nat, m: map<int, int>)
    requires |o| > 0 && j < |n|
    ensures RemapFrom(o, n, j, m) == if Replace(o, n, j, m).None? then None else RemapFrom(o, n, j + 1, Replace(o, n, j, m).value)
  {
  }

  /** A key replacement `j` does not rewrite keeps its entry. */
  lemma ReplaceKeeps(o: seq<Touch>, n: seq<Touch>, j: nat, m: map<int, int>, k: int)
    requires |o| > 0 && j < |n| && Replace(o, n, j, m).Some? && !Rebinds(o, n, j, k)
    ensures (k in Replace(o, n, j, m).value <==> k in m)
    ensures k in m ==> Replace(o, n, j, m).value[k] == m[k]
  {
  }

  /** `RemapMatched` from the matched touch's own replacement on. */
  lemma RemapMatchedHere(o: seq<Touch>, n: seq<Touch>, m: map<int, int>, l: nat)
    requires |o| > 0 && l < |n| && Partner(o, n, l).Some?
    requires RemapFrom(o, n, l, m).Some?
    requires forall l' :: l < l' < |n| ==> !Rebinds(o, n, l', n[l].id)
    ensures var oldId := o[Partner(o, n, l).value].id;
            var r := RemapFrom(o, n, l, m).value;
            (n[l].id in r <==> oldId in m) && (oldId in m ==> r[n[l].id] == m[oldId])
  {
    var i := Partner(o, n, l).value;
    if o[i].id == n[l].id {
      assert RemapFrom(o, n, l, m) == RemapFrom(o, n, l + 1, m);
      RemapUntouched(o, n, l + 1, m, n[l].id);
    } else {
      var m' := Rebind(m, o[i].id, n[l].id).value;
      assert RemapFrom(o, n, l, m) == RemapFrom(o, n, l + 1, m');
      RemapUntouched(o, n, l + 1, m', n[l].id);
    }
  }

  /** The frames the matching is designed for: hardware ids are distinct
      within each frame, and a hardware id that persists across the two
      frames stays on the touch matched to its old touch. */
  ghost predicate Coherent(o: seq<Touch>, n: seq<Touch>)
  {
    && |o| > 0
    && (forall a, b :: 0 <= a < b < |o| ==> o[a].id != o[b].id)
    && (forall a, b :: 0 <= a < b < |n| ==> n[a].id != n[b].id)
    && (forall i, l :: 0 <= i < |o| && 0 <= l < |n| && o[i].id == n[l].id ==> Partner(o, n, l) == Some(i))
  }

  /** In coherent frames no other replacement rewrites the ids of a matched
      pair. */
  lemma NoInterference(o: seq<Touch>, n: seq<Touch>, l: nat, l': nat)
    requires Coherent(o, n) && l < |n| && l' < |n| && l != l' && Partner(o, n, l).Some?
    ensures !Rebinds(o, n, l', o[Partner(o, n, l).value].id)
    ensures !Rebinds(o, n, l', n[l].id)
  {
    var i := Partner(o, n, l).value;
    if Partner(o, n, l').Some? {
      var i' := Partner(o, n, l').value;
      if i' == i {
        PartnerInjective(o, n, l, l');
      }
      if o[i'].id == n[l].id {
        assert Partner(o, n, l) == Some(i');
        PartnerInjective(o, n, l, l');
      }
      if o[i].id == n[l'].id {
        assert Partner(o, n, l') == Some(i);
        PartnerInjective(o, n, l, l');
      }
      assert o[i'].id != o[i].id by {
        if i' < i {} else if i < i' {}
      }
      assert n[l'].id != n[l].id by {
        if l < l' {} else {}
      }
    }
  }

  /** In coherent frames a matched new touch's id is not among the ids that
      get fresh logical ids. */
  lemma MatchedNotMinted(o: seq<Touch>, n: seq<Touch>, l: nat)
    requires Coherent(o, n) && l < |n| && Partner(o, n, l).Some?
    ensures n[l].id !in Unmatched(o, n, 0)
  {
    UnmatchedSpec(o, n, 0, n[l].id);
  }

  /** In coherent frames whose old ids all have logical ids, `_sanitize`
      succeeds: a matched new touch inherits its old touch's logical id, an
      unmatched one gets a fresh id from `next` on, and the fresh ids of
      different touches differ. */
  lemma SanitiseAssigns(o: seq<Touch>, n: seq<Touch>, m: map<int, int>, next: int)
    requires Coherent(o, n) && |n| > 0
    requires forall i :: 0 <= i < |o| ==> o[i].id in m
    ensures Sanitise(o, n, m, next).Some?
    ensures var r := Sanitise(o, n, m, next).value;
            forall l :: 0 <= l < |n| ==>
              && n[l].id in r.0
              && (Partner(o, n, l).Some? ==> r.0[n[l].id] == m[o[Partner(o, n, l).value].id])
              && (Partner(o, n, l).None? ==> next <= r.0[n[l].id] < r.1)
    ensures var r := Sanitise(o, n, m, next).value;
            forall l1, l2 :: 0 <= l1 < |n| && 0 <= l2 < |n| && l1 != l2 && Partner(o, n, l1).None? && Partner(o, n, l2).None? ==>
              r.0[n[l1].id] != r.0[n[l2].id]
  {
    forall l, l' | 0 <= l' < l < |n| && Partner(o, n, l).Some?
      ensures !Rebinds(o, n, l', o[Partner(o, n, l).value].id)
    {
      NoInterference(o, n, l, l');
    }
    RemapSucceeds(o, n, 0, m);
    var m' := RemapFrom(o, n, 0, m).value;
    var u := Unmatched(o, n, 0);
    var r := Mint(u, m', next);
    assert Sanitise(o, n, m, next) == Some(r);
    MintInjective(u, m', next);
    forall l | 0 <= l < |n| && Partner(o, n, l).Some?
      ensures n[l].id in r.0 && r.0[n[l].id] == m[o[Partner(o, n, l).value].id]
    {
      forall l' | 0 <= l' < |n| && l' != l
        ensures !Rebinds(o, n, l', n[l].id)
      {
        NoInterference(o, n, l, l');
      }
      RemapMatched(o, n, 0, m, l);
      MatchedNotMinted(o, n, l);
    }
    forall l | 0 <= l < |n| && Partner(o, n, l).None?
      ensures n[l].id in u && n[l].id in r.0 && next <= r.0[n[l].id] < r.1
    {
      UnmatchedSpec(o, n, 0, n[l].id);
      var k :| 0 <= k < |u| && u[k] == n[l].id;
    }
    forall l1, l2 | 0 <= l1 < |n| && 0 <= l2 < |n| && l1 != l2 && Partner(o, n, l1).None? && Partner(o, n, l2).None?
      ensures r.0[n[l1].id] != r.0[n[l2].id]
    {
      if l1 < l2 {} else {}
    }
  }

  /** `_sanitize`: nothing happens when either frame is empty; otherwise the
      replacements, then fresh ids for the unmatched new touches. None where
      a replacement raises KeyError. */
  function Sanitise(o: seq<Touch>, n: seq<Touch>, m: map<int, int>, next: int): (r: Option<(map<int, int>, int)>)
    ensures |o| == 0 || |n| == 0 ==> r == Some((m, next))
    ensures r.Some? ==> r.value.1 >= next
    ensures r.Some? ==> forall k :: k in r.value.0 ==> r.value.0[k] in m.Values || next <= r.value.0[k] < r.value.1
  {
    if |o| == 0 || |n| == 0 then Some((m, next))
    else match RemapFrom(o, n, 0, m)
      case None => None
      case Some(m') => Some(Mint(Unmatched(o, n, 0), m', next))
  }

  /** The stabiliser's state: the last raw frame, the next fresh logical id
      and the map from hardware to logical ids. */
  datatype Stabiliser = Stabiliser(last: Option<TouchpadUpdate>, nextId: int, idMap: map<int, int>)

  const Initial: Stabiliser := Stabiliser(None, 1, map[])

  /** Every logical id handed out so far is below `nextId`, which starts at
      1. */
  predicate Wf(s: Stabiliser)
  {
    s.nextId >= 1 && forall k :: k in s.idMap ==> s.idMap[k] < s.nextId
  }

  /** The new id map and counter before the output is built. */
  function Reassign(s: Stabiliser, u: TouchpadUpdate): Option<(map<int, int>, int)>
  {
    if s.last.None? || s.last.value.nTouches == 0 then Some(Mint(Ids(u.touches), s.idMap, s.nextId))
    else if IdSet(s.last.value.touches) != IdSet(u.touches) then Sanitise(s.last.value.touches, u.touches, s.idMap, s.nextId)
    else Some((s.idMap, s.nextId))
  }

  /** The frame with every id replaced by its logical id. */
  function Substitute(ts: seq<Touch>, m: map<int, int>): (r: seq<Touch>)
    requires forall k :: 0 <= k < |ts| ==> ts[k].id in m
    ensures |r| == |ts|
    ensures forall k :: 0 <= k < |ts| ==> r[k] == ts[k].(id := m[ts[k].id])
  {
    seq(|ts|, k requires 0 <= k < |ts| => ts[k].(id := m[ts[k].id]))
  }

  /** `on_update` at wall-clock time `now`: the next state and the frame
      passed on. None where the source raises KeyError (in a replacement, or
      for an id without a logical id). */
  function OnUpdate(s: Stabiliser, u: TouchpadUpdate, now: real): (r: Option<(Stabiliser, TouchpadUpdate)>)
    ensures r.Some? ==> r.value.1.nTouches == u.nTouches && r.value.1.t == now
    ensures r.Some? ==> |r.value.1.touches| == |u.touches|
    ensures r.Some? ==> forall k :: 0 <= k < |u.touches| ==>
              var a := u.touches[k];
              var b := r.value.1.touches[k];
              b.x == a.x && b.y == a.y && b.z == a.z
    ensures r.Some? ==> r.value.0.last == Some(u)
    ensures r.Some? && u.nTouches == 0 ==> r.value.0.idMap == map[]
  {
    match Reassign(s, u)
    case None => None
    case Some((m, next)) =>
      if forall k :: 0 <= k < |u.touches| ==> u.touches[k].id in m then
        var out := TouchpadUpdate(now, u.nTouches, Substitute(u.touches, m));
        Some((Stabiliser(Some(u), next, if u.nTouches == 0 then map[] else m), out))
      else None
  }

  /** The reassigned map keeps every logical id below the new counter, which
      is at least the old one. */
  lemma ReassignBounds(s: Stabiliser, u: TouchpadUpdate)
    requires Wf(s) && Reassign(s, u).Some?
    ensures Reassign(s, u).value.1 >= s.nextId
    ensures forall k :: k in Reassign(s, u).value.0 ==> Reassign(s, u).value.0[k] < Reassign(s, u).value.1
  {
    var (m, next) := Reassign(s, u).value;
    assert forall v :: v in s.idMap.Values ==> v < s.nextId;
    if s.last.None? || s.last.value.nTouches == 0 {
      assert forall k :: k in m ==> (k in s.idMap && m[k] == s.idMap[k]) || s.nextId <= m[k] < next;
    } else if IdSet(s.last.value.touches) != IdSet(u.touches) {
      var r := Sanitise(s.last.value.touches, u.touches, s.idMap, s.nextId);
      assert r == Some((m, next));
      assert forall k :: k in m ==> m[k] in s.idMap.Values || s.nextId <= m[k] < next;
    }
  }

  /** The logical ids stay below the counter, and the counter never
      decreases: a fresh id never collides with one handed out before. */
  lemma OnUpdateKeepsWf(s: Stabiliser, u: TouchpadUpdate, now: real)
    requires Wf(s) && OnUpdate(s, u, now).Some?
    ensures Wf(OnUpdate(s, u, now).value.0)
    ensures OnUpdate(s, u, now).value.0.nextId >= s.nextId
  {
    ReassignBounds(s, u);
  }

  /** On a first frame, or after an empty one, every touch gets a fresh
      logical id at least the counter. */
  lemma FreshStart(s: Stabiliser, u: TouchpadUpdate, now: real)
    requires s.last.None? || s.last.value.nTouches == 0
    ensures OnUpdate(s, u, now).Some?
    ensures forall k :: 0 <= k < |u.touches| ==> s.nextId <= OnUpdate(s, u, now).value.1.touches[k].id
    ensures OnUpdate(s, u, now).value.0.nextId == s.nextId + |u.touches|
  {
    var ids := Ids(u.touches);
    var (m, next) := Mint(ids, s.idMap, s.nextId);
    forall k | 0 <= k < |u.touches|
      ensures u.touches[k].id in m && s.nextId <= m[u.touches[k].id]
    {
      assert ids[k] == u.touches[k].id;
    }
  }

  /** With the same set of ids as the last non-empty frame, the map is left
      alone. */
  lemma SameIdsKeepMap(s: Stabiliser, u: TouchpadUpdate, now: real)
    requires s.last.Some? && s.last.value.nTouches != 0 && IdSet(s.last.value.touches) == IdSet(u.touches)
    requires forall k :: 0 <= k < |u.touches| ==> u.touches[k].id in s.idMap
    ensures OnUpdate(s, u, now).Some?
    ensures forall k :: 0 <= k < |u.touches| ==> OnUpdate(s, u, now).value.1.touches[k].id == s.idMap[u.touches[k].id]
    ensures u.nTouches != 0 ==> OnUpdate(s, u, now).value.0.idMap == s.idMap
  {
  }

  /** After a change of the id set between coherent frames whose old ids
      all have logical ids, `on_update` succeeds; every passed-on touch
      matched to an old touch (in particular one that kept its hardware id)
      carries that old touch's logical id, and every unmatched one carries a
      fresh logical id from the old counter on, below the new counter and
      distinct from every other passed-on id. */
  lemma OnUpdateAfterChange(s: Stabiliser, u: TouchpadUpdate, now: real)
    requires Wf(s) && s.last.Some? && s.last.value.nTouches != 0
    requires IdSet(s.last.value.touches) != IdSet(u.touches)
    requires Coherent(s.last.value.touches, u.touches)
    requires forall i :: 0 <= i < |s.last.value.touches| ==> s.last.value.touches[i].id in s.idMap
    ensures OnUpdate(s, u, now).Some?
    ensures var o, n := s.last.value.touches, u.touches;
            var r := OnUpdate(s, u, now).value;
            forall l :: 0 <= l < |n| ==>
              && (Partner(o, n, l).Some? ==> r.1.touches[l].id == s.idMap[o[Partner(o, n, l).value].id])
              && (Partner(o, n, l).None? ==> s.nextId <= r.1.touches[l].id < r.0.nextId)
    ensures var o, n := s.last.value.touches, u.touches;
            var r := OnUpdate(s, u, now).value;
            forall i, l :: 0 <= i < |o| && 0 <= l < |n| && o[i].id == n[l].id ==> r.1.touches[l].id == s.idMap[n[l].id]
    ensures var o, n := s.last.value.touches, u.touches;
            var r := OnUpdate(s, u, now).value;
            forall l1, l2 :: 0 <= l1 < |n| && 0 <= l2 < |n| && l1 != l2 && Partner(o, n, l1).None? ==>
              r.1.touches[l1].id != r.1.touches[l2].id
  {
    var o, n := s.last.value.touches, u.touches;
    AfterChangeMap(s, u);
    var mn := Reassign(s, u).value;
    OnUpdateSubstitutes(s, u, now, mn.0, mn.1);
    AssignedIds(o, n, s.idMap, s.nextId, mn.0, mn.1, OnUpdate(s, u, now).value.1.touches);
  }

  /** What `_sanitize` promises of the map `m` and counter `next` it
      leaves: every new id is mapped, a matched one to its old touch's
      logical id under `m0`, an unmatched one to a fresh id from `next0`
      on, and distinct unmatched touches to distinct ids. */
  predicate IdsAssigned(o: seq<Touch>, n: seq<Touch>, m0: map<int, int>, next0: int, m: map<int, int>, next: int)
  {
    && |o| > 0
    && (forall l :: 0 <= l < |n| ==>
          && n[l].id in m
          && (Partner(o, n, l).Some? ==> o[Partner(o, n, l).value].id in m0 && m[n[l].id] == m0[o[Partner(o, n, l).value].id])
          && (Partner(o, n, l).None? ==> next0 <= m[n[l].id] < next))
    && (forall l1, l2 :: 0 <= l1 < |n| && 0 <= l2 < |n| && l1 != l2 && Partner(o, n, l1).None? && Partner(o, n, l2).None? ==>
          m[n[l1].id] != m[n[l2].id])
  }

  /** The map after a change of the id set between coherent frames: every
      new id is mapped, a matched one to its old touch's logical id, an
      unmatched one to a fresh id, and distinct unmatched touches to
      distinct ids. */
  lemma AfterChangeMap(s: Stabiliser, u: TouchpadUpdate)
    requires s.last.Some? && s.last.value.nTouches != 0
    requires IdSet(s.last.value.touches) != IdSet(u.touches)
    requires Coherent(s.last.value.touches, u.touches)
    requires forall i :: 0 <= i < |s.last.value.touches| ==> s.last.value.touches[i].id in s.idMap
    ensures Reassign(s, u).Some?
    ensures IdsAssigned(s.last.value.touches, u.touches, s.idMap, s.nextId, Reassign(s, u).value.0, Reassign(s, u).value.1)
  {
    var o, n := s.last.value.touches, u.touches;
    ReassignSanitises(s, u);
    if |n| > 0 {
      SanitiseAssigns(o, n, s.idMap, s.nextId);
    } else {
      assert Sanitise(o, n, s.idMap, s.nextId).Some?;
    }
  }

  /** After a change of the id set, the reassignment is `_sanitize`. */
  lemma ReassignSanitises(s: Stabiliser, u: TouchpadUpdate)
    requires s.last.Some? && s.last.value.nTouches != 0
    requires IdSet(s.last.value.touches) != IdSet(u.touches)
    ensures Reassign(s, u) == Sanitise(s.last.value.touches, u.touches, s.idMap, s.nextId)
  {
  }

  /** The ids a frame is passed on with, given what `_sanitize` assigned:
      matched touches carry old logical ids, below the old counter, and
      unmatched ones fresh ids, at least the old counter and distinct. */
  lemma AssignedIds(o: seq<Touch>, n: seq<Touch>, m0: map<int, int>, next0: int,
                    m: map<int, int>, next: int, out: seq<Touch>)
    requires Coherent(o, n)
    requires forall k :: k in m0 ==> m0[k] < next0
    requires forall i :: 0 <= i < |o| ==> o[i].id in m0
    requires IdsAssigned(o, n, m0, next0, m, next)
    requires |out| == |n| && forall l :: 0 <= l < |n| ==> out[l].id == m[n[l].id]
    ensures forall l :: 0 <= l < |n| ==>
              && (Partner(o, n, l).Some? ==> out[l].id == m0[o[Partner(o, n, l).value].id])
              && (Partner(o, n, l).None? ==> next0 <= out[l].id < next)
    ensures forall i, l :: 0 <= i < |o| && 0 <= l < |n| && o[i].id == n[l].id ==> out[l].id == m0[n[l].id]
    ensures forall l1, l2 :: 0 <= l1 < |n| && 0 <= l2 < |n| && l1 != l2 && Partner(o, n, l1).None? ==>
              out[l1].id != out[l2].id
  {
    forall l | 0 <= l < |n| && Partner(o, n, l).Some?
      ensures out[l].id < next0
    {
      assert m0[o[Partner(o, n, l).value].id] < next0;
    }
    forall i, l | 0 <= i < |o| && 0 <= l < |n| && o[i].id == n[l].id
      ensures out[l].id == m0[n[l].id]
    {
      assert Partner(o, n, l) == Some(i);
    }
  }

  /** Once every id of the frame has a logical id, `on_update` passes the
      frame on with each id replaced. */
  lemma OnUpdateSubstitutes(s: Stabiliser, u: TouchpadUpdate, now: real, m: map<int, int>, next: int)
    requires Reassign(s, u) == Some((m, next))
    requires forall l :: 0 <= l < |u.touches| ==> u.touches[l].id in m
    ensures OnUpdate(s, u, now).Some? && OnUpdate(s, u, now).value.0.nextId == next
    ensures forall l :: 0 <= l < |u.touches| ==> OnUpdate(s, u, now).value.1.touches[l].id == m[u.touches[l].id]
  {
  }

  /** Without coherence the replacements can interfere: when hardware id 2
      moves onto the touch that had id 1 and id 3 onto the touch that had
      id 2, the second replacement reads the entry the first one just
      wrote, and the frame's id 2 is left without a logical id, the
      KeyError of `on_update`. */
  lemma CrossedIdsRaise()
    ensures var s := Stabiliser(Some(TouchpadUpdate(0.0, 2, [Touch(1, 0.0, 0.0, 1.0), Touch(2, 0.5, 0.5, 1.0)])), 3, map[1 := 1, 2 := 2]);
            var u := TouchpadUpdate(0.01, 2, [Touch(2, 0.001, 0.001, 1.0), Touch(3, 0.501, 0.501, 1.0)]);
            OnUpdate(s, u, 0.01).None?
  {
    var o := [Touch(1, 0.0, 0.0, 1.0), Touch(2, 0.5, 0.5, 1.0)];
    var n := [Touch(2, 0.001, 0.001, 1.0), Touch(3, 0.501, 0.501, 1.0)];
    assert IdSet(o) != IdSet(n) by {
      assert o[0].id == 1;
      assert 1 in IdSet(o);
      assert 1 !in IdSet(n);
    }
    CrossedSanitise(o, n);
    assert 2 !in map[3 := 1];
  }

  /** Sanitising the crossed frames leaves hardware id 2 without a
      logical id. */
  lemma CrossedSanitise(o: seq<Touch>, n: seq<Touch>)
    requires o == [Touch(1, 0.0, 0.0, 1.0), Touch(2, 0.5, 0.5, 1.0)]
    requires n == [Touch(2, 0.001, 0.001, 1.0), Touch(3, 0.501, 0.501, 1.0)]
    ensures Sanitise(o, n, map[1 := 1, 2 := 2], 3) == Some((map[3 := 1], 3))
  {
    CrossedRemap(o, n);
  }

  /** The replacements of the crossed frames leave only id 3, with the
      logical id of hardware id 1, and no new touch is unmatched. */
  lemma CrossedRemap(o: seq<Touch>, n: seq<Touch>)
    requires o == [Touch(1, 0.0, 0.0, 1.0), Touch(2, 0.5, 0.5, 1.0)]
    requires n == [Touch(2, 0.001, 0.001, 1.0), Touch(3, 0.501, 0.501, 1.0)]
    ensures RemapFrom(o, n, 0, map[1 := 1, 2 := 2]) == Some(map[3 := 1])
    ensures Unmatched(o, n, 0) == []
  {
    CrossedPartners(o, n);
    var m0 := map[1 := 1, 2 := 2];
    var m1 := map[2 := 1];
    assert m0 - {1} == map[2 := 2];
    assert map[2 := 2][2 := 1] == m1;
    assert Rebind(m0, 1, 2) == Some(m1);
    assert m1 - {2} == map[];
    assert Rebind(m1, 2, 3) == Some(map[3 := 1]);
    assert RemapFrom(o, n, 2, map[3 := 1]) == Some(map[3 := 1]);
    assert RemapFrom(o, n, 1, m1) == Some(map[3 := 1]);
    assert Unmatched(o, n, 2) == [];
    assert Unmatched(o, n, 1) == [];
  }

  /** The matching of the crossed frames: each new touch is matched to the
      old touch it sits on. */
  lemma CrossedPartners(o: seq<Touch>, n: seq<Touch>)
    requires o == [Touch(1, 0.0, 0.0, 1.0), Touch(2, 0.5, 0.5, 1.0)]
    requires n == [Touch(2, 0.001, 0.001, 1.0), Touch(3, 0.501, 0.501, 1.0)]
    ensures Partner(o, n, 0) == Some(0) && Partner(o, n, 1) == Some(1)
  {
    assert Row(o, n, 0) == [0.000002, NoMatch];
    assert Row(o, n, 1) == [NoMatch, 0.000002];
    assert ArgMin(Row(o, n, 0)) == 0;
    assert ArgMin(Row(o, n, 1)) == 1;
    assert Column(o, n, 0) == [0.000002, NoMatch];
    assert Column(o, n, 1) == [NoMatch, 0.000002];
    assert ArgMin(Column(o, n, 0)) == 0;
    assert ArgMin(Column(o, n, 1)) == 1;
    assert FinalColumn(o, n, 0) == [0.000002, NoMatch];
    assert FinalColumn(o, n, 1) == [NoMatch, 0.000002];
  }

  /** A close touch under a new hardware id keeps the old logical id. */
  lemma CloseTouchKeepsId()
    ensures var s := Stabiliser(Some(TouchpadUpdate(0.0, 1, [Touch(1, 0.0, 0.0, 1.0)])), 2, map[1 := 1]);
            var u := TouchpadUpdate(0.01, 1, [Touch(7, 0.001, 0.001, 1.0)]);
            var r := OnUpdate(s, u, 0.01);
            r.Some? && r.value.1.touches[0].id == 1
  {
    var o := [Touch(1, 0.0, 0.0, 1.0)];
    var n := [Touch(7, 0.001, 0.001, 1.0)];
    assert IdSet(o) != IdSet(n) by { assert 1 in IdSet(o); }
    assert Row(o, n, 0) == [0.000002];
    assert Column(o, n, 0) == [0.000002];
    assert FinalColumn(o, n, 0) == [0.000002];
    assert Partner(o, n, 0) == Some(0);
    assert Unmatched(o, n, 0) == [];
  }

  /** A far touch under a new hardware id gets a fresh logical id, never the
      old one. */
  lemma FarTouchGetsFreshId()
    ensures var s := Stabiliser(Some(TouchpadUpdate(0.0, 1, [Touch(1, 0.0, 0.0, 1.0)])), 2, map[1 := 1]);
            var u := TouchpadUpdate(0.01, 1, [Touch(7, 0.9, 0.9, 1.0)]);
            var r := OnUpdate(s, u, 0.01);
            r.Some? && r.value.1.touches[0].id == 2
  {
    var o := [Touch(1, 0.0, 0.0, 1.0)];
    var n := [Touch(7, 0.9, 0.9, 1.0)];
    assert IdSet(o) != IdSet(n) by { assert 1 in IdSet(o); }
    assert Row(o, n, 0) == [NoMatch];
    assert Column(o, n, 0) == [NoMatch];
    assert FinalColumn(o, n, 0) == [NoMatch];
    assert Partner(o, n, 0) == None;
    assert Unmatched(o, n, 0) == [7];
  }
}
