/** Planar primitives the path importer relies on: points, the shoelace signed
    area that stands in for `msSignedRingArea`, and the in-place range reversal
    that stands in for `MapShaper.reversePathCoords`.  Coordinates are exact
    integers, so the area is exact and its sign is never perturbed by rounding. */
module Geometry {

  datatype Point = Point(x: int, y: int)

  /** The shoelace term of the edge a -> b (clockwise edges count positive). */
  function Cross(a: Point, b: Point): int {
    b.x * a.y - a.x * b.y
  }

  /** Twice the signed area enclosed by the vertex run `pts`, summed over
      consecutive pairs only (a closed ring repeats its first vertex at the
      end, so no wrap-around term is needed).  Clockwise rings in a y-up
      plane are positive, counter-clockwise rings negative. */
  function SignedArea2(pts: seq<Point>): int
    decreases |pts|
  {
    if |pts| < 2 then 0
    else SignedArea2(pts[..|pts| - 1]) + Cross(pts[|pts| - 2], pts[|pts| - 1])
  }

  /** Unfolding the area sum at the front instead of the back. */
  lemma {:induction false} SignedArea2Front(p: Point, s: seq<Point>)
    requires |s| > 0
    ensures SignedArea2([p] + s) == Cross(p, s[0]) + SignedArea2(s)
    decreases |s|
  {
    if |s| == 1 {
      assert ([p] + s)[..1] == [p];
    } else {
      var t := s[..|s| - 1];
      assert ([p] + s)[..|s|] == [p] + t;
      SignedArea2Front(p, t);
    }
  }

  /** The entries of `s` last to first. */
  function Reverse<T>(s: seq<T>): (r: seq<T>)
    ensures |r| == |s|
  {
    seq(|s|, i requires 0 <= i < |s| => s[|s| - 1 - i])
  }

  /** Walking a vertex run backwards flips the sign of its area: this is why
      reversing a ring fixes its winding. */
  lemma {:induction false} ReverseNegatesArea(pts: seq<Point>)
    ensures SignedArea2(Reverse(pts)) == -SignedArea2(pts)
    decreases |pts|
  {
    if |pts| >= 2 {
      var init := pts[..|pts| - 1];
      var r := Reverse(init);
      ReverseNegatesArea(init);
      assert Reverse(pts) == [pts[|pts| - 1]] + r;
      SignedArea2Front(pts[|pts| - 1], r);
      assert r[0] == pts[|pts| - 2];
    }
  }

  /** Reverses the run of `n` entries starting at `lo`, in the manner of
      `reversePathCoords(arr, lo, n)`; every other entry is left alone. */
  function ReverseRange<T>(s: seq<T>, lo: nat, n: nat): (r: seq<T>)
    requires lo + n <= |s|
    ensures |r| == |s|
    ensures forall j :: lo <= j < lo + n ==> r[j] == s[2 * lo + n - 1 - j]
    ensures forall j :: 0 <= j < |s| && !(lo <= j < lo + n) ==> r[j] == s[j]
  {
    s[..lo] + Reverse(s[lo..lo + n]) + s[lo + n..]
  }

  /** The reversed run is what the reversed range holds. */
  lemma ReverseRangeSlice<T>(s: seq<T>, lo: nat, n: nat)
    requires lo + n <= |s|
    ensures ReverseRange(s, lo, n)[lo..lo + n] == Reverse(s[lo..lo + n])
  {
    var r := ReverseRange(s, lo, n);
    var a, b := r[lo..lo + n], Reverse(s[lo..lo + n]);
    forall j | 0 <= j < n ensures a[j] == b[j] {
      assert r[lo + j] == s[lo + n - 1 - j];
    }
  }

  /** The points stored in two parallel coordinate arrays. */
  function Zip(xs: seq<int>, ys: seq<int>): (r: seq<Point>)
    requires |xs| == |ys|
  {
    seq(|xs|, i requires 0 <= i < |xs| => Point(xs[i], ys[i]))
  }

  function Xs(pts: seq<Point>): seq<int> {
    seq(|pts|, i requires 0 <= i < |pts| => pts[i].x)
  }

  function Ys(pts: seq<Point>): seq<int> {
    seq(|pts|, i requires 0 <= i < |pts| => pts[i].y)
  }

  /** Reversing both coordinate arrays reverses the points they hold. */
  lemma ZipReverse(xs: seq<int>, ys: seq<int>)
    requires |xs| == |ys|
    ensures Zip(Reverse(xs), Reverse(ys)) == Reverse(Zip(xs, ys))
  {
    var a, b := Zip(Reverse(xs), Reverse(ys)), Reverse(Zip(xs, ys));
    assert |a| == |b| == |xs|;
    forall i | 0 <= i < |xs| ensures a[i] == b[i] {
      assert a[i] == Point(Reverse(xs)[i], Reverse(ys)[i]) == Point(xs[|xs| - 1 - i], ys[|ys| - 1 - i]);
    }
  }
}
