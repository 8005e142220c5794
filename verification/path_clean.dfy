/** The cleaning pass of the path importer (`cleanPaths`): consecutive duplicate
    points are removed path by path, every path is validated, and rejected
    paths are dropped together with their points.

    `Survive` is the reference definition, path by path; `CleanPaths` is the
    source's in-place compaction over parallel coordinate arrays with a read
    cursor `offs` and a write cursor `ins`, proved to compute the same thing. */
module PathCleaning {
  import opened Wrappers
  import opened Geometry
  import opened PathRecords

  ghost predicate NoAdjacentDuplicates(s: seq<Point>) {
    forall i, j :: 0 <= i < j < |s| && j == i + 1 ==> s[i] != s[j]
  }

  /** The points of one path that survive duplicate removal: the first point
      always, every later point unless it equals the point just before it. */
  function Dedup(s: seq<Point>): (r: seq<Point>)
    ensures |r| <= |s|
    decreases |s|
  {
    if |s| == 0 then []
    else if |s| == 1 || s[|s| - 1] != s[|s| - 2] then Dedup(s[..|s| - 1]) + [s[|s| - 1]]
    else Dedup(s[..|s| - 1])
  }

  /** A path keeps its first and its last point. */
  lemma {:induction false} DedupKeepsEnds(s: seq<Point>)
    requires |s| > 0
    ensures |Dedup(s)| > 0 && Dedup(s)[0] == s[0] && Dedup(s)[|Dedup(s)| - 1] == s[|s| - 1]
    decreases |s|
  {
    if |s| > 1 {
      DedupKeepsEnds(s[..|s| - 1]);
    }
  }

  /** After removal no point equals the one before it. */
  lemma {:induction false} DedupNoAdjacentDuplicates(s: seq<Point>)
    ensures NoAdjacentDuplicates(Dedup(s))
    decreases |s|
  {
    if |s| > 1 {
      var init := s[..|s| - 1];
      DedupNoAdjacentDuplicates(init);
      DedupKeepsEnds(init);
      var d := Dedup(init);
      if s[|s| - 1] != s[|s| - 2] {
        var e := d + [s[|s| - 1]];
        forall i, j | 0 <= i < j < |e| && j == i + 1 ensures e[i] != e[j] {
          if j < |d| {
            assert e[i] == d[i] && e[j] == d[j];
          }
        }
      }
    }
  }

  /** Number of points equal to their immediate predecessor. */
  function Repeats(s: seq<Point>): nat
    decreases |s|
  {
    if |s| < 2 then 0
    else Repeats(s[..|s| - 1]) + (if s[|s| - 1] == s[|s| - 2] then 1 else 0)
  }

  /** Exactly the repeated points are dropped. */
  lemma {:induction false} DedupDropsOnlyRepeats(s: seq<Point>)
    ensures |Dedup(s)| + Repeats(s) == |s|
    decreases |s|
  {
    if |s| > 0 {
      DedupDropsOnlyRepeats(s[..|s| - 1]);
    }
  }

  /** No point value is lost or invented. */
  lemma {:induction false} DedupSameElements(s: seq<Point>)
    ensures forall p :: p in Dedup(s) <==> p in s
    decreases |s|
  {
    if |s| > 0 {
      var init := s[..|s| - 1];
      DedupSameElements(init);
      assert s == init + [s[|s| - 1]];
      if |s| > 1 && s[|s| - 1] == s[|s| - 2] {
        assert s[|s| - 1] in init;
      }
    }
  }

  /** A path without repeated points passes through unchanged, so removing
      duplicates twice is the same as removing them once. */
  lemma {:induction false} DedupFixpoint(s: seq<Point>)
    requires NoAdjacentDuplicates(s)
    ensures Dedup(s) == s
    decreases |s|
  {
    if |s| > 0 {
      var init := s[..|s| - 1];
      assert NoAdjacentDuplicates(init) by {
        forall i, j | 0 <= i < j < |init| && j == i + 1 ensures init[i] != init[j] {
          assert init[i] == s[i] && init[j] == s[j];
        }
      }
      DedupFixpoint(init);
      assert s == init + [s[|s| - 1]];
    }
  }

  /** Removing a repeated point removes a zero-length edge, so the ring's area
      is exactly what it was. */
  lemma {:induction false} DedupPreservesArea(s: seq<Point>)
    ensures SignedArea2(Dedup(s)) == SignedArea2(s)
    decreases |s|
  {
    if |s| >= 2 {
      var init := s[..|s| - 1];
      DedupPreservesArea(init);
      var d := Dedup(init);
      DedupKeepsEnds(init);
      assert SignedArea2(s) == SignedArea2(init) + Cross(s[|s| - 2], s[|s| - 1]);
      if s[|s| - 1] != s[|s| - 2] {
        var e := d + [s[|s| - 1]];
        assert e[..|e| - 1] == d;
        assert e[|e| - 2] == d[|d| - 1] == init[|init| - 1];
      } else {
        assert Cross(s[|s| - 1], s[|s| - 1]) == 0;
      }
    }
  }

  /** Why a path is skipped. */
  datatype Rejection =
    | TooFewRingPoints(count: nat)
    | ZeroAreaRing
    | InvertedRing
    | CollapsedOpenPath

  /** Validation of one path given its surviving points `kept`; `None` accepts
      it.  A ring is re-measured only when points were dropped or coordinates
      were rounded, and is then compared with the area recorded at import. */
  function Verdict(path: Path, kept: seq<Point>, rounding: bool): (r: Option<Rejection>)
    ensures r.None? && path.IsRing() ==> |kept| >= 4
    ensures r.None? && !path.IsRing() ==> |kept| >= 2
  {
    match path.kind
    case Ring(area) =>
      if |kept| < 4 then Some(TooFewRingPoints(|kept|))
      else if |kept| < path.size || rounding then
        var a := SignedArea2(kept);
        if a == 0 then Some(ZeroAreaRing)
        else if (a < 0) != (area < 0) then Some(InvertedRing)
        else None
      else None
    case Open =>
      if |kept| < 2 then Some(CollapsedOpenPath) else None
  }

  /** A ring whose recorded area is the area of its stored points, on
      unrounded coordinates, is never rejected as inverted, and only a ring
      recorded with zero area can be rejected as zero-area. */
  lemma RecordedAreaKeepsOrientation(area: int, size: nat, shapeId: int, stored: seq<Point>)
    requires area == SignedArea2(stored)
    ensures Verdict(Path(size, shapeId, Ring(area)), Dedup(stored), false) != Some(InvertedRing)
    ensures Verdict(Path(size, shapeId, Ring(area)), Dedup(stored), false) == Some(ZeroAreaRing) ==> area == 0
  {
    DedupPreservesArea(stored);
  }

  /** The surviving points of path `k`, read from its slot in `pts`. */
  function Kept(pts: seq<Point>, paths: seq<Path>, k: nat): (r: seq<Point>)
    requires k < |paths|
    requires SumSizes(paths) <= |pts|
    ensures |r| <= paths[k].size
  {
    OffsetMonotone(paths, k, |paths|);
    var offs := Offset(paths, k);
    Dedup(pts[offs..offs + paths[k].size])
  }

  /** Path `k`'s slot lies inside the store, and `Kept` reads exactly it. */
  lemma KeptSlot(pts: seq<Point>, paths: seq<Path>, k: nat, offs: nat)
    requires k < |paths|
    requires SumSizes(paths) <= |pts|
    requires offs == Offset(paths, k)
    ensures offs + paths[k].size <= |pts|
    ensures Kept(pts, paths, k) == Dedup(pts[offs..offs + paths[k].size])
  {
    OffsetMonotone(paths, k, |paths|);
  }

  predicate IsSubsequence<T(==)>(a: seq<T>, b: seq<T>)
    decreases |b|
  {
    if |a| == 0 then true
    else if |b| == 0 then false
    else (a[|a| - 1] == b[|b| - 1] && IsSubsequence(a[..|a| - 1], b[..|b| - 1]))
         || IsSubsequence(a, b[..|b| - 1])
  }

  /** Everything in a subsequence occurs in the whole. */
  lemma {:induction false} SubsequenceMembers<T>(a: seq<T>, b: seq<T>)
    requires IsSubsequence(a, b)
    ensures forall x :: x in a ==> x in b
    decreases |b|
  {
    if |a| > 0 {
      var b' := b[..|b| - 1];
      if a[|a| - 1] == b[|b| - 1] && IsSubsequence(a[..|a| - 1], b') {
        SubsequenceMembers(a[..|a| - 1], b');
        assert a == a[..|a| - 1] + [a[|a| - 1]];
      } else {
        SubsequenceMembers(a, b');
      }
      assert b == b' + [b[|b| - 1]];
    }
  }

  function Sum(nn: seq<nat>): nat
    decreases |nn|
  {
    if |nn| == 0 then 0 else Sum(nn[..|nn| - 1]) + nn[|nn| - 1]
  }

  function CountOpen(paths: seq<Path>): nat
    decreases |paths|
  {
    if |paths| == 0 then 0
    else CountOpen(paths[..|paths| - 1]) + (if paths[|paths| - 1].IsRing() then 0 else 1)
  }

  /** Some path is open exactly when the open-path count is positive. */
  lemma {:induction false} CountOpenPositive(paths: seq<Path>)
    ensures CountOpen(paths) > 0 <==> exists k :: 0 <= k < |paths| && !paths[k].IsRing()
    decreases |paths|
  {
    if |paths| > 0 {
      var init := paths[..|paths| - 1];
      CountOpenPositive(init);
      if exists k :: 0 <= k < |init| && !init[k].IsRing() {
        var k :| 0 <= k < |init| && !init[k].IsRing();
        assert paths[k] == init[k];
      }
      if exists k :: 0 <= k < |paths| && !paths[k].IsRing() {
        var k :| 0 <= k < |paths| && !paths[k].IsRing();
        if k < |init| {
          assert init[k] == paths[k];
        }
      }
    }
  }

  /** What the cleaning pass keeps: the compacted points, the surviving size
      of each kept path, the kept paths and the number of open ones. */
  datatype Survivors = Survivors(points: seq<Point>, nn: seq<nat>, validPaths: seq<Path>, openPathCount: nat)

  /** The effect of one path on the survivors: skipped if its verdict rejects
      it, otherwise its kept points are appended and it is counted. */
  function Admit(prev: Survivors, path: Path, kept: seq<Point>, rounding: bool): Survivors {
    if Verdict(path, kept, rounding).Some? then prev
    else Survivors(prev.points + kept, prev.nn + [|kept|], prev.validPaths + [path],
                   prev.openPathCount + (if path.IsRing() then 0 else 1))
  }

  /** Reference definition of the cleaning pass over the store `pts`, after
      the first `p` paths. */
  function SurviveUpTo(pts: seq<Point>, paths: seq<Path>, p: nat, rounding: bool): Survivors
    requires p <= |paths|
    requires SumSizes(paths) <= |pts|
    decreases p
  {
    if p == 0 then Survivors([], [], [], 0)
    else Admit(SurviveUpTo(pts, paths, p - 1, rounding), paths[p - 1], Kept(pts, paths, p - 1), rounding)
  }

  function Survive(pts: seq<Point>, paths: seq<Path>, rounding: bool): Survivors
    requires SumSizes(paths) <= |pts|
  {
    SurviveUpTo(pts, paths, |paths|, rounding)
  }

  /** The outputs of the cleaning pass agree with each other: one size per
      kept path, sizes adding up to the kept points, the open-path count
      counting the kept open paths, and every kept path valid for its kind
      and no larger than it was. */
  ghost predicate Consistent(r: Survivors) {
    && |r.nn| == |r.validPaths|
    && Sum(r.nn) == |r.points|
    && r.openPathCount == CountOpen(r.validPaths)
    && forall k :: 0 <= k < |r.nn| ==>
         r.nn[k] <= r.validPaths[k].size
         && (if r.validPaths[k].IsRing() then r.nn[k] >= 4 else r.nn[k] >= 2)
  }

  lemma AdmitConsistent(prev: Survivors, path: Path, kept: seq<Point>, rounding: bool)
    requires Consistent(prev)
    requires |kept| <= path.size
    ensures Consistent(Admit(prev, path, kept, rounding))
  {
    var r := Admit(prev, path, kept, rounding);
    if r != prev {
      assert r.nn[..|r.nn| - 1] == prev.nn;
      assert r.validPaths[..|r.validPaths| - 1] == prev.validPaths;
      forall k | 0 <= k < |r.nn|
        ensures r.nn[k] <= r.validPaths[k].size
        ensures if r.validPaths[k].IsRing() then r.nn[k] >= 4 else r.nn[k] >= 2
      {
        if k < |prev.nn| {
          assert r.nn[k] == prev.nn[k] && r.validPaths[k] == prev.validPaths[k];
        }
      }
    }
  }

  /** The survivors of the first `p` paths are consistent. */
  lemma {:induction false} SurviveConsistent(pts: seq<Point>, paths: seq<Path>, p: nat, rounding: bool)
    requires p <= |paths|
    requires SumSizes(paths) <= |pts|
    ensures Consistent(SurviveUpTo(pts, paths, p, rounding))
    decreases p
  {
    if p > 0 {
      SurviveConsistent(pts, paths, p - 1, rounding);
      AdmitConsistent(SurviveUpTo(pts, paths, p - 1, rounding), paths[p - 1], Kept(pts, paths, p - 1), rounding);
    }
  }

  /** The survivors of the first `p` paths are no more than their points. */
  lemma {:induction false} SurviveShrinks(pts: seq<Point>, paths: seq<Path>, p: nat, rounding: bool)
    requires p <= |paths|
    requires SumSizes(paths) <= |pts|
    ensures |SurviveUpTo(pts, paths, p, rounding).points| <= Offset(paths, p)
    decreases p
  {
    if p > 0 {
      SurviveShrinks(pts, paths, p - 1, rounding);
      var prev := SurviveUpTo(pts, paths, p - 1, rounding);
      var kept := Kept(pts, paths, p - 1);
      assert |Admit(prev, paths[p - 1], kept, rounding).points| <= |prev.points| + |kept|;
    }
  }

  /** The kept paths of the first `p` paths are listed in input order. */
  lemma {:induction false} SurviveInOrder(pts: seq<Point>, paths: seq<Path>, p: nat, rounding: bool)
    requires p <= |paths|
    requires SumSizes(paths) <= |pts|
    ensures IsSubsequence(SurviveUpTo(pts, paths, p, rounding).validPaths, paths[..p])
    decreases p
  {
    if p > 0 {
      var n := p - 1;
      SurviveInOrder(pts, paths, n, rounding);
      var prev := SurviveUpTo(pts, paths, n, rounding);
      var r := SurviveUpTo(pts, paths, p, rounding);
      assert paths[..p][..n] == paths[..n];
      if r != prev {
        assert r.validPaths[..|r.validPaths| - 1] == prev.validPaths;
      }
    }
  }

  /** The record `cleanPaths` returns. */
  datatype Cleaned = Cleaned(
    xx: seq<int>,
    yy: seq<int>,
    nn: seq<nat>,
    validPaths: seq<Path>,
    openPathCount: nat,
    invalidPointCount: nat,
    validPointCount: nat)

  /** The cleaning pass over the parallel stores `xx`, `yy`, packaged as
      `cleanPaths` packages it. */
  function CleanedFrom(xx: seq<int>, yy: seq<int>, paths: seq<Path>, rounding: bool): (r: Cleaned)
    requires |xx| == |yy|
    requires SumSizes(paths) <= |xx|
    ensures |r.xx| == |r.yy| == r.validPointCount == Sum(r.nn)
    ensures |r.nn| == |r.validPaths|
    ensures r.validPointCount + r.invalidPointCount == SumSizes(paths)
    ensures r.openPathCount == CountOpen(r.validPaths)
    ensures r.openPathCount > 0 <==> exists k :: 0 <= k < |r.validPaths| && !r.validPaths[k].IsRing()
    ensures forall k :: 0 <= k < |r.nn| ==>
              r.nn[k] <= r.validPaths[k].size
              && (if r.validPaths[k].IsRing() then r.nn[k] >= 4 else r.nn[k] >= 2)
    ensures IsSubsequence(r.validPaths, paths)
  {
    var s := Survive(Zip(xx, yy), paths, rounding);
    SurviveConsistent(Zip(xx, yy), paths, |paths|, rounding);
    SurviveShrinks(Zip(xx, yy), paths, |paths|, rounding);
    SurviveInOrder(Zip(xx, yy), paths, |paths|, rounding);
    assert paths[..|paths|] == paths;
    CountOpenPositive(s.validPaths);
    Cleaned(Xs(s.points), Ys(s.points), s.nn, s.validPaths, s.openPathCount,
            SumSizes(paths) - |s.points|, |s.points|)
  }

  /** Removing duplicates from one more point of `s`: the point at `i` is
      kept exactly when it is the first or differs from the one before. */
  lemma DedupSnoc(s: seq<Point>, i: nat, kept: seq<Point>, prev: Point)
    requires i < |s|
    requires kept == Dedup(s[..i])
    requires i > 0 ==> prev == s[i - 1]
    ensures i == 0 || prev != s[i] ==> Dedup(s[..i + 1]) == kept + [s[i]]
    ensures !(i == 0 || prev != s[i]) ==> Dedup(s[..i + 1]) == kept
  {
    assert s[..i + 1][..i] == s[..i];
  }

  /** The arrays `cx`, `cy` during the inner loop of `cleanPaths`: below
      `ins` they still hold `ax`, `ay`; from `ins` to the write cursor `w`
      they hold `kept`; from the read cursor `rd` on, the unread input. */
  ghost predicate Copying(pts: seq<Point>, ax: seq<int>, ay: seq<int>, cx: seq<int>, cy: seq<int>,
                          ins: nat, w: nat, rd: nat, kept: seq<Point>) {
    && |ax| == |ay| == |cx| == |cy| == |pts|
    && ins <= w <= rd <= |pts|
    && w == ins + |kept|
    && (forall j :: rd <= j < |pts| ==> Point(cx[j], cy[j]) == pts[j])
    && (forall k :: 0 <= k < ins ==> cx[k] == ax[k] && cy[k] == ay[k])
    && (forall k :: ins <= k < w ==> Point(cx[k], cy[k]) == kept[k - ins])
  }

  /** Reading the point at `rd` and, if it is new, writing it at `w`. */
  lemma CopyingStep(pts: seq<Point>, ax: seq<int>, ay: seq<int>, cx: seq<int>, cy: seq<int>,
                    ins: nat, w: nat, rd: nat, kept: seq<Point>)
    requires Copying(pts, ax, ay, cx, cy, ins, w, rd, kept)
    requires rd < |pts|
    ensures Copying(pts, ax, ay, cx, cy, ins, w, rd + 1, kept)
    ensures Copying(pts, ax, ay, cx[w := pts[rd].x], cy[w := pts[rd].y], ins, w + 1, rd + 1, kept + [pts[rd]])
  {
  }

  /** The inner loop of `cleanPaths` for one path of `size` points starting
      at the read cursor `offs`: each point unequal to its predecessor is
      copied down to the write cursor.  `pts` is the unread input, which
      agrees with the arrays from `offs` on. */
  method CompactPath(ax: seq<int>, ay: seq<int>, offs: nat, ins: nat, size: nat, ghost pts: seq<Point>)
    returns (cx: seq<int>, cy: seq<int>, ins': nat)
    requires |ax| == |ay| == |pts|
    requires ins <= offs
    requires offs + size <= |pts|
    requires forall j :: offs <= j < |pts| ==> Point(ax[j], ay[j]) == pts[j]
    ensures |cx| == |cy| == |pts|
    ensures ins' == ins + |Dedup(pts[offs..offs + size])| <= offs + size
    ensures forall j :: offs + size <= j < |pts| ==> Point(cx[j], cy[j]) == pts[j]
    ensures forall k :: 0 <= k < ins ==> cx[k] == ax[k] && cy[k] == ay[k]
    ensures forall k :: ins <= k < ins' ==> Point(cx[k], cy[k]) == Dedup(pts[offs..offs + size])[k - ins]
  {
    ghost var seg := pts[offs..offs + size];
    ghost var kept: seq<Point> := [];
    cx, cy, ins' := ax, ay, ins;
    var prevX, prevY := 0, 0;
    var i := 0;
    while i < size
      invariant i <= size
      invariant Scanned(pts, ax, ay, offs, ins, seg, i, cx, cy, ins', kept, prevX, prevY)
    {
      cx, cy, ins', prevX, prevY, kept := ScanPoint(pts, ax, ay, offs, ins, seg, i, cx, cy, ins', kept, prevX, prevY);
      i := i + 1;
    }
    assert seg[..i] == seg;
  }

  /** The inner loop's state after reading the first `i` points of `seg`,
      which starts at `offs`: `kept` is what survived and `prevX`, `prevY`
      the last point read. */
  ghost predicate Scanned(pts: seq<Point>, ax: seq<int>, ay: seq<int>, offs: nat, ins: nat, seg: seq<Point>, i: nat,
                          cx: seq<int>, cy: seq<int>, w: nat, kept: seq<Point>, prevX: int, prevY: int) {
    && offs + |seg| <= |pts|
    && seg == pts[offs..offs + |seg|]
    && i <= |seg|
    && Copying(pts, ax, ay, cx, cy, ins, w, offs + i, kept)
    && kept == Dedup(seg[..i])
    && (i > 0 ==> Point(prevX, prevY) == seg[i - 1])
  }

  /** One turn of the inner loop: read the next point and copy it down
      unless it repeats the one before. */
  method ScanPoint(ghost pts: seq<Point>, ghost ax: seq<int>, ghost ay: seq<int>, offs: nat, ghost ins: nat,
                   ghost seg: seq<Point>, i: nat, cx: seq<int>, cy: seq<int>, w: nat, ghost kept: seq<Point>,
                   prevX: int, prevY: int)
    returns (cx': seq<int>, cy': seq<int>, w': nat, prevX': int, prevY': int, ghost kept': seq<Point>)
    requires i < |seg|
    requires Scanned(pts, ax, ay, offs, ins, seg, i, cx, cy, w, kept, prevX, prevY)
    ensures Scanned(pts, ax, ay, offs, ins, seg, i + 1, cx', cy', w', kept', prevX', prevY')
  {
    var x, y := cx[offs + i], cy[offs + i];
    assert Point(x, y) == seg[i] == pts[offs + i];
    DedupSnoc(seg, i, kept, Point(prevX, prevY));
    CopyingStep(pts, ax, ay, cx, cy, ins, w, offs + i, kept);
    cx', cy', w', kept' := cx, cy, w, kept;
    if i == 0 || prevX != x || prevY != y {
      cx' := cx[w := x];
      cy' := cy[w := y];
      w' := w + 1;
      kept' := kept + [Point(x, y)];
    }
    prevX', prevY' := x, y;
  }

  lemma ZipSlice(ax: seq<int>, ay: seq<int>, lo: nat, hi: nat, kept: seq<Point>)
    requires lo <= hi <= |ax| == |ay|
    requires |kept| == hi - lo
    requires forall k :: lo <= k < hi ==> Point(ax[k], ay[k]) == kept[k - lo]
    ensures Zip(ax[lo..hi], ay[lo..hi]) == kept
  {
  }

  /** The arrays after compaction up to the read cursor `offs`: the first
      `ins` entries hold the survivors so far, and from `offs` on the arrays
      still hold the input. */
  ghost predicate Compacted(pts: seq<Point>, ax: seq<int>, ay: seq<int>, offs: nat, ins: nat, points: seq<Point>) {
    && |ax| == |ay| == |pts|
    && ins <= offs <= |pts|
    && (forall j :: offs <= j < |pts| ==> Point(ax[j], ay[j]) == pts[j])
    && ins == |points|
    && (forall k :: 0 <= k < ins ==> Point(ax[k], ay[k]) == points[k])
  }

  lemma CompactedPrefix(pts: seq<Point>, ax: seq<int>, ay: seq<int>, offs: nat, ins: nat, points: seq<Point>)
    requires Compacted(pts, ax, ay, offs, ins, points)
    ensures ax[..ins] == Xs(points) && ay[..ins] == Ys(points)
  {
  }

  /** After one path is compacted the arrays are compacted both without it
      (the write cursor rewound) and with its kept points. */
  lemma CompactedAfter(pts: seq<Point>, ax: seq<int>, ay: seq<int>, cx: seq<int>, cy: seq<int>,
                       offs: nat, offs': nat, ins: nat, ins': nat, points: seq<Point>, kept: seq<Point>)
    requires Compacted(pts, ax, ay, offs, ins, points)
    requires offs <= offs' <= |pts| && ins' == ins + |kept| <= offs'
    requires |cx| == |cy| == |pts|
    requires forall j :: offs' <= j < |pts| ==> Point(cx[j], cy[j]) == pts[j]
    requires forall k :: 0 <= k < ins ==> cx[k] == ax[k] && cy[k] == ay[k]
    requires forall k :: ins <= k < ins' ==> Point(cx[k], cy[k]) == kept[k - ins]
    ensures Compacted(pts, cx, cy, offs', ins, points)
    ensures Compacted(pts, cx, cy, offs', ins', points + kept)
  {
  }

  /** The body of the loop over paths in `cleanPaths`: compact the path at
      the read cursor, validate it, and keep it or rewind the write cursor. */
  method CleanPath(ghost pts: seq<Point>, path: Path, rounding: bool,
                   ax: seq<int>, ay: seq<int>, offs: nat, ins: nat,
                   nn: seq<nat>, validPaths: seq<Path>, openPathCount: nat,
                   ghost sv: Survivors, ghost kept: seq<Point>)
    returns (ax': seq<int>, ay': seq<int>, offs': nat, ins': nat,
             nn': seq<nat>, validPaths': seq<Path>, openPathCount': nat)
    requires Compacted(pts, ax, ay, offs, ins, sv.points)
    requires offs + path.size <= |pts|
    requires nn == sv.nn && validPaths == sv.validPaths && openPathCount == sv.openPathCount
    requires kept == Dedup(pts[offs..offs + path.size])
    ensures offs' == offs + path.size
    ensures var sv' := Admit(sv, path, kept, rounding);
            && Compacted(pts, ax', ay', offs', ins', sv'.points)
            && nn' == sv'.nn && validPaths' == sv'.validPaths && openPathCount' == sv'.openPathCount
  {
    var startId := ins;
    ax', ay', ins' := CompactPath(ax, ay, offs, ins, path.size, pts);
    offs' := offs + path.size;
    CompactedAfter(pts, ax, ay, ax', ay', offs, offs', ins, ins', sv.points, kept);
    var validPoints := ins' - startId;
    ZipSlice(ax', ay', startId, ins', kept);
    var err := Verdict(path, Zip(ax'[startId..ins'], ay'[startId..ins']), rounding);
    nn', validPaths', openPathCount' := nn, validPaths, openPathCount;
    if err.Some? {
      ins' := ins' - validPoints;
    } else {
      nn' := nn + [validPoints];
      validPaths' := validPaths + [path];
      if !path.IsRing() {
        openPathCount' := openPathCount + 1;
      }
    }
  }

  /** The state of `cleanPaths` after its first `p` paths: the read cursor
      is at the end of path `p - 1`, and the arrays and lists hold the
      survivors so far. */
  ghost predicate CleanedUpTo(pts: seq<Point>, paths: seq<Path>, rounding: bool, p: nat,
                              ax: seq<int>, ay: seq<int>, offs: nat, ins: nat,
                              nn: seq<nat>, validPaths: seq<Path>, openPathCount: nat)
    requires p <= |paths| && SumSizes(paths) <= |pts|
  {
    var sv := SurviveUpTo(pts, paths, p, rounding);
    && offs == Offset(paths, p)
    && Compacted(pts, ax, ay, offs, ins, sv.points)
    && nn == sv.nn && validPaths == sv.validPaths && openPathCount == sv.openPathCount
  }

  /** One iteration of the loop over paths in `cleanPaths`. */
  method CleanNext(ghost pts: seq<Point>, paths: seq<Path>, rounding: bool, p: nat,
                   ax: seq<int>, ay: seq<int>, offs: nat, ins: nat,
                   nn: seq<nat>, validPaths: seq<Path>, openPathCount: nat)
    returns (ax': seq<int>, ay': seq<int>, offs': nat, ins': nat,
             nn': seq<nat>, validPaths': seq<Path>, openPathCount': nat)
    requires p < |paths| && SumSizes(paths) <= |pts|
    requires CleanedUpTo(pts, paths, rounding, p, ax, ay, offs, ins, nn, validPaths, openPathCount)
    ensures CleanedUpTo(pts, paths, rounding, p + 1, ax', ay', offs', ins', nn', validPaths', openPathCount')
  {
    ghost var sv := SurviveUpTo(pts, paths, p, rounding);
    KeptSlot(pts, paths, p, offs);
    ghost var kept := Kept(pts, paths, p);
    ax', ay', offs', ins', nn', validPaths', openPathCount' :=
      CleanPath(pts, paths[p], rounding, ax, ay, offs, ins, nn, validPaths, openPathCount, sv, kept);
  }

  /** The loop over paths in `cleanPaths`: one read cursor `offs` over all
      input points, one write cursor `ins` that never overtakes it, so
      compaction can reuse the input arrays; a rejected path is rewound by
      moving `ins` back. */
  method CompactPaths(xx: seq<int>, yy: seq<int>, paths: seq<Path>, rounding: bool)
    returns (ax: seq<int>, ay: seq<int>, offs: nat, ins: nat, nn: seq<nat>, validPaths: seq<Path>, openPathCount: nat)
    requires |xx| == |yy|
    requires SumSizes(paths) <= |xx|
    ensures CleanedUpTo(Zip(xx, yy), paths, rounding, |paths|, ax, ay, offs, ins, nn, validPaths, openPathCount)
  {
    ghost var pts := Zip(xx, yy);
    ax, ay := xx, yy;
    offs, ins := 0, 0;
    openPathCount := 0;
    validPaths := [];
    nn := [];
    var p := 0;
    while p < |paths|
      invariant p <= |paths|
      invariant CleanedUpTo(pts, paths, rounding, p, ax, ay, offs, ins, nn, validPaths, openPathCount)
    {
      ax, ay, offs, ins, nn, validPaths, openPathCount :=
        CleanNext(pts, paths, rounding, p, ax, ay, offs, ins, nn, validPaths, openPathCount);
      p := p + 1;
    }
  }

  /** `cleanPaths`: the compacted prefix of the arrays, packaged with the
      per-path sizes, kept paths and counts. */
  method CleanPaths(xx: seq<int>, yy: seq<int>, paths: seq<Path>, rounding: bool) returns (r: Cleaned)
    requires |xx| == |yy|
    requires SumSizes(paths) <= |xx|
    ensures r == CleanedFrom(xx, yy, paths, rounding)
  {
    var ax, ay, offs, ins, nn, validPaths, openPathCount := CompactPaths(xx, yy, paths, rounding);
    CompactedPrefix(Zip(xx, yy), ax, ay, offs, ins, Survive(Zip(xx, yy), paths, rounding).points);
    r := Cleaned(ax[..ins], ay[..ins], nn, validPaths, openPathCount, offs - ins, ins);
  }
}
