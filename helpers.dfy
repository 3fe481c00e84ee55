/** The closest-date finder of src/jrnl/helpers.py. */
module Helpers {
  import opened Calendar

  predicate Sorted(s: seq<Date>) {
    forall i, j :: 0 <= i < j < |s| ==> s[i] <= s[j]
  }

  /** The number of days between two dates. */
  function Distance(a: Date, b: Date): nat {
    if a <= b then b - a else a - b
  }

  /** bisect.bisect_left(a, x, lo, hi): halve [lo, hi) until it is empty,
      moving right past every element smaller than x. */
  function BisectLeft(a: seq<Date>, x: Date, lo: nat, hi: nat): (r: nat)
    requires lo <= hi <= |a|
    ensures lo <= r <= hi
    ensures Sorted(a) ==> forall i :: lo <= i < r ==> a[i] < x
    ensures Sorted(a) ==> forall i :: r <= i < hi ==> x <= a[i]
    decreases hi - lo
  {
    if lo < hi then
      var mid := (lo + hi) / 2;
      if a[mid] < x then BisectLeft(a, x, mid + 1, hi) else BisectLeft(a, x, lo, mid)
    else lo
  }

  /** find_closest_date: the element of a sorted list nearest to the target,
      the older one when two are equally near. */
  function FindClosestDate(dates: seq<Date>, target: Date): (r: Date)
    requires |dates| > 0
    ensures r in dates
    ensures Sorted(dates) ==> forall x :: x in dates ==> Distance(r, target) <= Distance(x, target)
    ensures Sorted(dates) ==> forall x :: x in dates && Distance(x, target) == Distance(r, target) ==> r <= x
  {
    var pos := BisectLeft(dates, target, 0, |dates|);
    if pos == 0 then dates[0]
    else if pos == |dates| then dates[|dates| - 1]
    else
      var before := dates[pos - 1];
      var after := dates[pos];
      if after - target < target - before then after else before
  }

  /** The ends of the list answer for targets beyond them. */
  lemma ClosestAtEnds(dates: seq<Date>, target: Date)
    requires |dates| > 0 && Sorted(dates)
    ensures target <= dates[0] ==> FindClosestDate(dates, target) == dates[0]
    ensures dates[|dates| - 1] < target ==> FindClosestDate(dates, target) == dates[|dates| - 1]
  {
  }

  /** A target that is in the list finds itself. */
  lemma ClosestOfMember(dates: seq<Date>, target: Date)
    requires |dates| > 0 && Sorted(dates) && target in dates
    ensures FindClosestDate(dates, target) == target
  {
  }
}
