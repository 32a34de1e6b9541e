/** Insertion points in sorted windows. */
module BinarySearch {

  ghost predicate Ascending(s: seq<int>, lo: nat, hi: nat)
    requires hi <= |s|
  {
    forall x, y :: lo <= x < y < hi ==> s[x] <= s[y]
  }

  /** First position of [lo, hi) whose element is at least `value`, or hi. */
  method LowerBound(array': seq<int>, value: int, lo: nat, hi: nat) returns (r: nat)
    requires lo <= hi <= |array'| && Ascending(array', lo, hi)
    ensures lo <= r <= hi
    ensures forall x :: lo <= x < r ==> array'[x] < value
    ensures forall x :: r <= x < hi ==> value <= array'[x]
  {
    var l, h := lo, hi;
    while l < h
      invariant lo <= l <= h <= hi
      invariant forall x :: lo <= x < l ==> array'[x] < value
      invariant forall x :: h <= x < hi ==> value <= array'[x]
    {
      var mid := (l + h) / 2;
      if value <= array'[mid] {
        h := mid;
      } else {
        l := mid + 1;
      }
    }
    r := l;
  }

  /** First position of [lo, hi) whose element is greater than `value`, or hi. */
  method UpperBound(array': seq<int>, value: int, lo: nat, hi: nat) returns (r: nat)
    requires lo <= hi <= |array'| && Ascending(array', lo, hi)
    ensures lo <= r <= hi
    ensures forall x :: lo <= x < r ==> array'[x] <= value
    ensures forall x :: r <= x < hi ==> value < array'[x]
  {
    var l, h := lo, hi;
    while l < h
      invariant lo <= l <= h <= hi
      invariant forall x :: lo <= x < l ==> array'[x] <= value
      invariant forall x :: h <= x < hi ==> value < array'[x]
    {
      var mid := (l + h) / 2;
      if value >= array'[mid] {
        l := mid + 1;
      } else {
        h := mid;
      }
    }
    r := l;
  }

  /** First position of [lo, hi) whose index points at a number of at least `value`, or hi. */
  method LowerBoundIndices(array': array<real>, indices: array<nat>, value: real, lo: nat, hi: nat) returns (r: nat)
    requires lo <= hi <= indices.Length
    requires forall x :: lo <= x < hi ==> indices[x] < array'.Length
    requires forall x, y :: lo <= x < y < hi ==> array'[indices[x]] <= array'[indices[y]]
    ensures lo <= r <= hi
    ensures forall x :: lo <= x < r ==> array'[indices[x]] < value
    ensures forall x :: r <= x < hi ==> value <= array'[indices[x]]
  {
    var l, h := lo, hi;
    while l < h
      invariant lo <= l <= h <= hi
      invariant forall x :: lo <= x < l ==> array'[indices[x]] < value
      invariant forall x :: h <= x < hi ==> value <= array'[indices[x]]
    {
      var mid := (l + h) / 2;
      if value <= array'[indices[mid]] {
        h := mid;
      } else {
        l := mid + 1;
      }
    }
    r := l;
  }
}
