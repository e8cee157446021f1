/**
 What a search over a sorted range with holes has to find.
 */
module Search {
  import opened Wrappers
  import opened Slots

  /** The items of the range have strictly increasing destinations. */
  ghost predicate SortedRange(a: seq<Edge>, s: nat, e: nat) {
    e <= |a| &&
    forall i, j {:trigger a[i], a[j]} :: s <= i < j < e && !IsNull(a[i]) && !IsNull(a[j]) ==> a[i].dest < a[j].dest
  }

  /**
   The place of a destination: smaller items before it, no smaller ones from it
   on, and the item itself, if it is there, at the place.
   */
  ghost predicate PlaceOf(a: seq<Edge>, dest: u32, s: nat, e: nat, r: nat) {
    && s <= r <= e <= |a|
    && (forall i :: s <= i < r && !IsNull(a[i]) ==> a[i].dest < dest)
    && (forall i :: r <= i < e && !IsNull(a[i]) ==> dest <= a[i].dest)
    && (forall i :: s <= i < e && !IsNull(a[i]) && a[i].dest == dest ==> i == r)
  }

  /** The part of the range still to be searched. */
  ghost predicate Narrowed(a: seq<Edge>, dest: u32, s: nat, e: nat, start: nat, end: nat) {
    && s <= start <= end <= e <= |a|
    && (start == end ==> s == e)
    && (forall i :: s <= i < start && !IsNull(a[i]) ==> a[i].dest < dest)
    && (start > s ==> !IsNull(a[start]) && a[start].dest < dest)
    && (forall i :: end <= i < e && !IsNull(a[i]) ==> dest < a[i].dest)
  }

  // ---------------------------------------------------------------- the search as a function

  /** The item at distance `change` or more from `mid` that is met first, looking right before left. */
  function Nearby(a: seq<Edge>, start: nat, end: nat, mid: nat, change: nat): (check: Option<nat>)
    requires start <= mid < end <= |a|
    ensures check.Some? ==> start <= check.value < end && !IsNull(a[check.value])
    decreases end - start - change
  {
    if end <= mid + change && mid < start + change then None
    else if mid + change < end && !IsNull(a[mid + change]) then Some(mid + change)
    else if start + change <= mid && !IsNull(a[mid - change]) then Some(mid - change)
    else Nearby(a, start, end, mid, change + 1)
  }

  /** The item the inner loop finds around `mid`. */
  function NearestItem(a: seq<Edge>, start: nat, end: nat, mid: nat): Option<nat>
    requires start <= mid < end <= |a|
  {
    if !IsNull(a[mid]) then Some(mid) else Nearby(a, start, end, mid, 1)
  }

  /** The slot `binary_search` returns, whatever the array holds. */
  function SearchPlace(a: seq<Edge>, dest: u32, start: nat, end: nat): (r: nat)
    requires end < |a|
    ensures r <= end
    decreases end - start
  {
    if start + 1 < end then
      var mid := (start + end) / 2;
      match NearestItem(a, start, end, mid)
      case None => mid
      case Some(check) =>
        if check == start then (if dest <= a[check].dest then check else mid)
        else if dest == a[check].dest then check
        else if dest < a[check].dest then SearchPlace(a, dest, start, check)
        else SearchPlace(a, dest, check, end)
    else
      var last := if end < start then end else start;
      if dest <= a[last].dest && !IsNull(a[last]) then last else end
  }

  lemma {:induction false} NearbyGap(a: seq<Edge>, start: nat, end: nat, mid: nat, change: nat)
    requires start <= mid < end <= |a| && change > 0
    requires forall i :: start <= i < end && mid < i + change && i < mid + change ==> IsNull(a[i])
    ensures match Nearby(a, start, end, mid, change)
      case None => forall i :: start <= i < end ==> IsNull(a[i])
      case Some(check) =>
        && (forall i :: mid <= i < check ==> IsNull(a[i]))
        && (forall i :: check < i < end && i <= 2 * mid - check ==> IsNull(a[i]))
    decreases end - start - change
  {
    if mid + change < end || start + change <= mid {
      if !(mid + change < end && !IsNull(a[mid + change])) && !(start + change <= mid && !IsNull(a[mid - change])) {
        NearbyGap(a, start, end, mid, change + 1);
      }
    }
  }

  /** What the item found around the middle says about the slots next to it. */
  lemma NearestGap(a: seq<Edge>, start: nat, end: nat, mid: nat)
    requires start <= mid < end <= |a|
    ensures match NearestItem(a, start, end, mid)
      case None => forall i :: start <= i < end ==> IsNull(a[i])
      case Some(check) =>
        && start <= check < end && !IsNull(a[check])
        && (forall i :: mid <= i < check ==> IsNull(a[i]))
        && (forall i :: check < i < end && i <= 2 * mid - check ==> IsNull(a[i]))
  {
    if IsNull(a[mid]) {
      NearbyGap(a, start, end, mid, 1);
    }
  }

  /** The only item of the range is its first slot. */
  lemma PlaceAround(a: seq<Edge>, dest: u32, s: nat, e: nat, start: nat, end: nat, mid: nat)
    requires Narrowed(a, dest, s, e, start, end) && SortedRange(a, s, e) && start < mid < end <= 2 * mid - start + 1
    requires !IsNull(a[start]) && forall i :: start < i < end && i <= 2 * mid - start ==> IsNull(a[i])
    ensures PlaceOf(a, dest, s, e, if dest <= a[start].dest then start else mid)
  {
    if dest <= a[start].dest {
      PlaceAtStart(a, dest, s, e, start, end);
    } else {
      PlaceInGap(a, dest, s, e, start, end, mid);
    }
  }

  /** The search finds the place of the destination in a sorted range with any holes. */
  lemma SearchFindsPlace(a: seq<Edge>, dest: u32, s: nat, e: nat)
    requires 0 < s <= e < |a| && SortedRange(a, s, e)
    ensures PlaceOf(a, dest, s, e, SearchPlace(a, dest, s, e))
  {
    SearchNarrowed(a, dest, s, e, s, e);
  }

  lemma {:induction false} SearchNarrowed(a: seq<Edge>, dest: u32, s: nat, e: nat, start: nat, end: nat)
    requires 0 < s && e < |a| && SortedRange(a, s, e) && Narrowed(a, dest, s, e, start, end)
    ensures PlaceOf(a, dest, s, e, SearchPlace(a, dest, start, end))
    decreases end - start
  {
    if start + 1 < end {
      var found, lo, hi := SearchTurn(a, dest, s, e, start, end);
      if !found {
        SearchNarrowed(a, dest, s, e, lo, hi);
      }
    } else {
      SearchLast(a, dest, s, e, start, end);
    }
  }

  /** One turn of the search finds the place or goes on in a shorter range. */
  lemma SearchTurn(a: seq<Edge>, dest: u32, s: nat, e: nat, start: nat, end: nat) returns (found: bool, lo: nat, hi: nat)
    requires 0 < s && e < |a| && SortedRange(a, s, e) && Narrowed(a, dest, s, e, start, end) && start + 1 < end
    ensures found ==> PlaceOf(a, dest, s, e, SearchPlace(a, dest, start, end))
    ensures !found ==>
      && Narrowed(a, dest, s, e, lo, hi) && hi - lo < end - start
      && SearchPlace(a, dest, start, end) == SearchPlace(a, dest, lo, hi)
  {
    var mid := (start + end) / 2;
    NearestGap(a, start, end, mid);
    found, lo, hi := true, start, end;
    var near := NearestItem(a, start, end, mid);
    if near == None || near == Some(start) {
      SearchStops(a, dest, s, e, start, end, mid);
    } else {
      var check := near.value;
      SearchStep(a, dest, s, e, start, end, check);
      found := dest == a[check].dest;
      lo, hi := if dest < a[check].dest then start else check, if dest < a[check].dest then check else end;
    }
  }

  /** There is no item around the middle but perhaps the first one. */
  lemma SearchStops(a: seq<Edge>, dest: u32, s: nat, e: nat, start: nat, end: nat, mid: nat)
    requires 0 < s && e < |a| && SortedRange(a, s, e) && Narrowed(a, dest, s, e, start, end) && start + 1 < end
    requires mid == (start + end) / 2
    requires NearestItem(a, start, end, mid) == None || NearestItem(a, start, end, mid) == Some(start)
    ensures PlaceOf(a, dest, s, e, SearchPlace(a, dest, start, end))
  {
    NearestGap(a, start, end, mid);
    if NearestItem(a, start, end, mid) == None {
      PlaceInGap(a, dest, s, e, start, end, mid);
    } else {
      PlaceAround(a, dest, s, e, start, end, mid);
    }
  }

  lemma SearchStep(a: seq<Edge>, dest: u32, s: nat, e: nat, start: nat, end: nat, check: nat)
    requires Narrowed(a, dest, s, e, start, end) && SortedRange(a, s, e)
    requires start < check < end && !IsNull(a[check])
    ensures dest == a[check].dest ==> PlaceOf(a, dest, s, e, check)
    ensures dest < a[check].dest ==> Narrowed(a, dest, s, e, start, check)
    ensures a[check].dest < dest ==> Narrowed(a, dest, s, e, check, end)
  {
    if dest == a[check].dest {
      PlaceFound(a, dest, s, e, check);
    } else if dest < a[check].dest {
      NarrowRight(a, dest, s, e, start, end, check);
    } else {
      NarrowLeft(a, dest, s, e, start, end, check);
    }
  }

  lemma SearchLast(a: seq<Edge>, dest: u32, s: nat, e: nat, start: nat, end: nat)
    requires 0 < s && e < |a| && SortedRange(a, s, e) && Narrowed(a, dest, s, e, start, end) && end <= start + 1
    ensures PlaceOf(a, dest, s, e, if dest <= a[start].dest && !IsNull(a[start]) then start else end)
  {
    if dest <= a[start].dest && !IsNull(a[start]) {
      PlaceAtStart(a, dest, s, e, start, end);
    } else if start < end {
      PlaceInGap(a, dest, s, e, start, end, end);
    }
  }

  /**
   A destination beyond all items of the range: the search goes to the end of the
   range exactly when the last slot of the range is occupied, or there is only one
   slot, or none.
   */
  lemma {:induction false} SearchBeyond(a: seq<Edge>, dest: u32, start: nat, end: nat)
    requires 0 < start <= end < |a|
    requires forall i :: start <= i < end && !IsNull(a[i]) ==> a[i].dest < dest
    ensures SearchPlace(a, dest, start, end) == end <==> end <= start + 1 || !IsNull(a[end - 1])
    decreases end - start
  {
    if start + 1 < end {
      var mid := (start + end) / 2;
      NearestGap(a, start, end, mid);
      match NearestItem(a, start, end, mid)
      case None =>
      case Some(check) =>
        if check != start {
          SearchBeyond(a, dest, check, end);
        }
    }
  }

  lemma NarrowRight(a: seq<Edge>, dest: u32, s: nat, e: nat, start: nat, end: nat, check: nat)
    requires Narrowed(a, dest, s, e, start, end) && SortedRange(a, s, e)
    requires start < check < end && !IsNull(a[check]) && dest < a[check].dest
    ensures Narrowed(a, dest, s, e, start, check)
  {
  }

  lemma NarrowLeft(a: seq<Edge>, dest: u32, s: nat, e: nat, start: nat, end: nat, check: nat)
    requires Narrowed(a, dest, s, e, start, end) && SortedRange(a, s, e)
    requires start < check < end && !IsNull(a[check]) && a[check].dest < dest
    ensures Narrowed(a, dest, s, e, check, end)
  {
  }

  lemma PlaceFound(a: seq<Edge>, dest: u32, s: nat, e: nat, check: nat)
    requires SortedRange(a, s, e) && s <= check < e && !IsNull(a[check]) && a[check].dest == dest
    ensures PlaceOf(a, dest, s, e, check)
  {
  }

  /** Nothing in the range but perhaps its first item. */
  lemma PlaceInGap(a: seq<Edge>, dest: u32, s: nat, e: nat, start: nat, end: nat, r: nat)
    requires Narrowed(a, dest, s, e, start, end) && SortedRange(a, s, e) && start < r <= end
    requires forall i :: start < i < end ==> IsNull(a[i])
    requires IsNull(a[start]) || a[start].dest < dest
    ensures PlaceOf(a, dest, s, e, r)
  {
  }

  lemma PlaceAtStart(a: seq<Edge>, dest: u32, s: nat, e: nat, start: nat, end: nat)
    requires Narrowed(a, dest, s, e, start, end) && SortedRange(a, s, e) && start < |a|
    requires !IsNull(a[start]) && dest <= a[start].dest
    ensures PlaceOf(a, dest, s, e, start)
  {
  }

  /** The first item at or after a slot, or the end of the array. */
  ghost predicate IsNextItem(a: seq<Edge>, i: nat, ind: nat) {
    i <= ind <= |a| && (ind < |a| ==> !IsNull(a[ind])) && forall k :: i <= k < ind ==> IsNull(a[k])
  }

  /** The last item before a slot. */
  ghost predicate IsPrevItem(a: seq<Edge>, i: nat, ind: nat) {
    ind < i <= |a| && !IsNull(a[ind]) && forall k :: ind < k < i ==> IsNull(a[k])
  }

  /** There is only one. */
  lemma NextItemOnly(a: seq<Edge>, i: nat, ind: nat)
    requires IsNextItem(a, i, ind)
    ensures forall other: nat :: IsNextItem(a, i, other) ==> other == ind
  {
    forall other: nat | IsNextItem(a, i, other)
      ensures other == ind
    {
      assert !(other < ind) && !(ind < other);
    }
  }
}
