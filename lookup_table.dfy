/** A one-dimensional lookup table with piecewise-linear interpolation and
    flat extrapolation beyond its end points (LinearInterpolate1D.h). */
module LookupTable {

  /** The sentinel the source uses for "unbounded" (1.e100). */
  const INF: real := 1.0e100

  /** One entry of the table: `x` is the key (`.first`), `y` the value (`.second`). */
  datatype Point = Point(x: real, y: real)

  function Min(a: real, b: real): real { if a <= b then a else b }
  function Max(a: real, b: real): real { if a <= b then b else a }

  /** The entries are ordered by key, ties allowed. */
  predicate SortedByKey(s: seq<Point>) {
    forall k, l :: 0 <= k < l < |s| ==> s[k].x <= s[l].x
  }

  /** The index `std::lower_bound` looks for: the first entry whose key is at
      least `x`, or `|s|` when there is none. */
  function FirstAtLeast(s: seq<Point>, x: real): (i: nat)
    ensures i <= |s|
    ensures forall k :: 0 <= k < i ==> s[k].x < x
    ensures i < |s| ==> x <= s[i].x
  {
    if s == [] then 0
    else if x <= s[0].x then 0
    else 1 + FirstAtLeast(s[1..], x)
  }

  /** Any index with the two properties of `FirstAtLeast` is `FirstAtLeast`. */
  lemma FirstAtLeastUnique(s: seq<Point>, x: real, i: nat)
    requires i <= |s|
    requires forall k :: 0 <= k < i ==> s[k].x < x
    requires i < |s| ==> x <= s[i].x
    ensures FirstAtLeast(s, x) == i
  {
  }

  /** A fraction of a step lies between no step and the whole step. */
  lemma FractionOfStep(a: real, num: real, den: real)
    requires 0.0 <= num <= den && 0.0 < den
    ensures Min(0.0, a) <= a * num / den <= Max(0.0, a)
  {
    var t := num / den;
    assert 0.0 <= t <= 1.0;
    assert a * num / den == a * t;
    if a >= 0.0 {
      assert 0.0 <= a * t <= a * 1.0;
    } else {
      assert a * 1.0 <= a * t <= 0.0;
    }
  }

  /** The straight line through `lo` and `hi`, evaluated at `x`. */
  function Lerp(lo: Point, hi: Point, x: real): (r: real)
    requires lo.x < hi.x
    ensures x == lo.x ==> r == lo.y
    ensures x == hi.x ==> r == hi.y
    ensures lo.x <= x <= hi.x ==> Min(lo.y, hi.y) <= r <= Max(lo.y, hi.y)
  {
    var r := lo.y + (hi.y - lo.y) * (x - lo.x) / (hi.x - lo.x);
    if lo.x <= x <= hi.x then
      FractionOfStep(hi.y - lo.y, x - lo.x, hi.x - lo.x);
      assert r == lo.y + (hi.y - lo.y) * (x - lo.x) / (hi.x - lo.x);
      r
    else
      r
  }

  /** The value `interpolate` returns for `x` on a sorted, non-empty table:
      the end values outside the key range, the first entry's value when
      `x` is the first key, otherwise the line through the entry found by
      the lower-bound search and its predecessor. */
  function Interpolation(s: seq<Point>, x: real): (r: real)
    requires s != [] && SortedByKey(s)
  {
    if x > s[|s| - 1].x then s[|s| - 1].y
    else if x < s[0].x then s[0].y
    else
      var i := FirstAtLeast(s, x);
      if i == 0 then s[0].y
      else Lerp(s[i - 1], s[i], x)
  }

  /** Inside the key range the table is the line through the two entries that
      enclose `x`: whichever `i` has `s[i-1].x < x <= s[i].x`, the result is
      that line at `x`, so it lies between `s[i-1].y` and `s[i].y` and the
      divisor `s[i].x - s[i-1].x` is positive. */
  lemma InterpolationOnSegment(s: seq<Point>, i: nat, x: real)
    requires SortedByKey(s)
    requires 0 < i < |s|
    requires s[i - 1].x < x <= s[i].x
    ensures Interpolation(s, x) == Lerp(s[i - 1], s[i], x)
    ensures Min(s[i - 1].y, s[i].y) <= Interpolation(s, x) <= Max(s[i - 1].y, s[i].y)
  {
    assert s[i].x <= s[|s| - 1].x;
    assert s[0].x <= s[i - 1].x;
    forall k | 0 <= k < i
      ensures s[k].x < x
    {
      assert s[k].x <= s[i - 1].x;
    }
    FirstAtLeastUnique(s, x, i);
  }

  /** Querying at a key gives the value of the first entry carrying that key
      (an entry whose predecessor has a smaller key, or the first entry). */
  lemma {:induction false} InterpolationAtKey(s: seq<Point>, k: nat)
    requires SortedByKey(s)
    requires k < |s|
    requires k == 0 || s[k - 1].x < s[k].x
    ensures Interpolation(s, s[k].x) == s[k].y
  {
    if k == 0 {
      assert s[0].x <= s[|s| - 1].x;
      FirstAtLeastUnique(s, s[0].x, 0);
    } else {
      InterpolationOnSegment(s, k, s[k].x);
    }
  }

  /** The result never leaves the range of the table's values. */
  lemma {:induction false} InterpolationWithinValues(s: seq<Point>, x: real, lo: real, hi: real)
    requires s != [] && SortedByKey(s)
    requires forall k :: 0 <= k < |s| ==> lo <= s[k].y <= hi
    ensures lo <= Interpolation(s, x) <= hi
  {
    if x <= s[|s| - 1].x && s[0].x <= x {
      var i := FirstAtLeast(s, x);
      if i != 0 {
        InterpolationOnSegment(s, i, x);
        assert lo <= s[i - 1].y <= hi && lo <= s[i].y <= hi;
      }
    }
  }

  /** The binary search of `std::lower_bound`: the least index whose key is
      not less than `x`, or `|s|` when every key is less. */
  method LowerBound(s: seq<Point>, x: real) returns (i: nat)
    requires SortedByKey(s)
    ensures i <= |s|
    ensures forall k :: 0 <= k < i ==> s[k].x < x
    ensures i < |s| ==> x <= s[i].x
  {
    var lo, hi := 0, |s|;
    while lo < hi
      invariant 0 <= lo <= hi <= |s|
      invariant forall k :: 0 <= k < lo ==> s[k].x < x
      invariant forall k :: hi <= k < |s| ==> x <= s[k].x
    {
      var mid := lo + (hi - lo) / 2;
      if s[mid].x < x {
        lo := mid + 1;
      } else {
        hi := mid;
      }
    }
    i := lo;
  }

  /** While `s[j]` sinks through the prefix `t[..i+1]`: that prefix is sorted
      by key apart from position `j`, and `t[j]` is not above any key to its
      right within the prefix. */
  ghost predicate Sinking(t: seq<Point>, i: nat, j: nat) {
    j <= i < |t|
    && (forall k, l :: 0 <= k < l <= i && k != j && l != j ==> t[k].x <= t[l].x)
    && (forall l :: j < l <= i ==> t[j].x <= t[l].x)
  }

  /** Swapping `t[j]` with a larger left neighbour moves the gap one left. */
  lemma SinkStep(t: seq<Point>, i: nat, j: nat)
    requires Sinking(t, i, j) && 0 < j && t[j - 1].x > t[j].x
    ensures Sinking(t[j - 1 := t[j]][j := t[j - 1]], i, j - 1)
  {
  }

  /** Once the left neighbour of `t[j]` is not larger, the prefix is sorted. */
  lemma SinkDone(t: seq<Point>, i: nat, j: nat)
    requires Sinking(t, i, j) && (j == 0 || t[j - 1].x <= t[j].x)
    ensures forall k, l :: 0 <= k < l <= i ==> t[k].x <= t[l].x
  {
    forall k, l | 0 <= k < l <= i
      ensures t[k].x <= t[l].x
    {
      if l == j && k < j - 1 {
        assert t[k].x <= t[j - 1].x;
      }
    }
  }

  /** One step of insertion sort: moves `s[i]` left past every larger key of
      the sorted prefix `s[..i]`, so that `s[..i+1]` is sorted afterwards. */
  method SinkIntoPlace(s: seq<Point>, i: nat) returns (t: seq<Point>)
    requires i < |s|
    requires forall k, l :: 0 <= k < l < i ==> s[k].x <= s[l].x
    ensures |t| == |s| && multiset(t) == multiset(s)
    ensures forall k, l :: 0 <= k < l <= i ==> t[k].x <= t[l].x
  {
    t := s;
    var j: nat := i;
    while j > 0 && t[j - 1].x > t[j].x
      invariant |t| == |s| && multiset(t) == multiset(s)
      invariant Sinking(t, i, j)
    {
      SinkStep(t, i, j);
      t := t[j - 1 := t[j]][j := t[j - 1]];
      j := j - 1;
    }
    SinkDone(t, i, j);
  }

  /** The table object: a vector of points that grows at the end and is
      sorted in place. */
  class LinearInterpolate1D {
    var table: seq<Point>

    /** A new table is empty. */
    constructor ()
      ensures table == []
    {
      table := [];
    }

    /** Appends one point; earlier entries stay as they were. */
    method AddDatapoints(p: Point)
      modifies this
      ensures table == old(table) + [p]
    {
      table := table + [p];
    }

    /** Reorders the table by key. The source uses `std::sort`, which is not
        stable, so only the order of keys and the multiset of entries are
        promised; equal keys may end up in any order. */
    method SortTable()
      modifies this
      ensures SortedByKey(table)
      ensures multiset(table) == multiset(old(table))
    {
      var s := table;
      var i := 0;
      while i < |s|
        invariant 0 <= i <= |s| == |old(table)|
        invariant multiset(s) == multiset(old(table))
        invariant forall k, l :: 0 <= k < l < i ==> s[k].x <= s[l].x
      {
        s := SinkIntoPlace(s, i);
        i := i + 1;
      }
      table := s;
    }

    /** Looks `x` up in a sorted, non-empty table. */
    method Interpolate(x: real) returns (r: real)
      requires table != [] && SortedByKey(table)
      ensures r == Interpolation(table, x)
      ensures x > table[|table| - 1].x ==> r == table[|table| - 1].y
      ensures x < table[0].x ==> r == table[0].y
    {
      var n := |table|;
      if x > table[n - 1].x {
        return table[n - 1].y;
      }
      if x < table[0].x {
        return table[0].y;
      }
      var i := LowerBound(table, x);
      FirstAtLeastUnique(table, x, i);
      if i == 0 {
        return table[0].y;
      }
      r := Lerp(table[i - 1], table[i], x);
    }
  }
}
