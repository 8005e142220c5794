/** The path importer (`PathImporter`): coordinate runs are appended to two
    parallel arrays of fixed capacity at a moving cursor, each run becomes a
    path record tagged with the current shape, closed runs become rings with
    a recorded signed area, and `done` cleans the result and summarises it. */
module PathImport {
  import opened Wrappers
  import opened Geometry
  import opened PathRecords
  import opened PathCleaning

  /** The importer's state: the coordinate store `xx`, `yy` (allocated at
      the declared point count), the append cursor `pointId`, the current
      shape index `shapeId` (-1 before the first `startShape`), and the
      path records in append order. */
  datatype Importer = Importer(xx: seq<int>, yy: seq<int>, pointId: nat, shapeId: int, paths: seq<Path>) {

    ghost predicate Valid() {
      && |xx| == |yy|
      && pointId == SumSizes(paths) <= |xx|
      && shapeId >= -1
      && forall k :: 0 <= k < |paths| ==> -1 <= paths[k].shapeId <= shapeId
    }

    /** The points of path `k` as they sit in the coordinate store. */
    function StoredPath(k: nat): seq<Point>
      requires Valid()
      requires k < |paths|
    {
      Slot(xx, yy, paths, k)
    }

    /** Every ring's recorded area is the area of the points stored for it:
        the premise `cleanPaths` relies on when it compares a re-measured
        area with the recorded one. */
    ghost predicate AreasMatch()
      requires Valid()
    {
      forall k :: 0 <= k < |paths| && paths[k].IsRing() ==> paths[k].kind.area == SignedArea2(StoredPath(k))
    }
  }

  /** The points of path `k` when `paths` are stored back to back in `xx`, `yy`. */
  function Slot(xx: seq<int>, yy: seq<int>, paths: seq<Path>, k: nat): seq<Point>
    requires |xx| == |yy| && SumSizes(paths) <= |xx| && k < |paths|
  {
    OffsetMonotone(paths, k, |paths|);
    var o := Offset(paths, k);
    Zip(xx[o..o + paths[k].size], yy[o..o + paths[k].size])
  }

  /** `new PathImporter(pointCount)`: zero-filled stores of the declared size. */
  function NewImporter(pointCount: nat): (r: Importer)
    ensures r.Valid() && r.AreasMatch()
    ensures |r.xx| == pointCount && r.pointId == 0 && r.shapeId == -1 && r.paths == []
  {
    Importer(seq(pointCount, _ => 0), seq(pointCount, _ => 0), 0, -1, [])
  }

  /** Path `k` reads the same points from two importers that agree on the
      sizes of the paths up to it and on its slot of the store. */
  lemma StoredPathFrame(a: Importer, b: Importer, k: nat)
    requires a.Valid() && b.Valid()
    requires k < |a.paths| && k < |b.paths|
    requires forall i :: 0 <= i <= k ==> a.paths[i].size == b.paths[i].size
    requires Offset(a.paths, k) + a.paths[k].size <= |a.xx| && Offset(a.paths, k) + a.paths[k].size <= |b.xx|
    requires var o, s := Offset(a.paths, k), a.paths[k].size;
             a.xx[o..o + s] == b.xx[o..o + s] && a.yy[o..o + s] == b.yy[o..o + s]
    ensures a.StoredPath(k) == b.StoredPath(k)
  {
    SlotFrame(a.xx, a.yy, a.paths, b.xx, b.yy, b.paths, k);
  }

  /** `Slot` depends only on the sizes up to `k` and on the slot's entries. */
  lemma SlotFrame(xa: seq<int>, ya: seq<int>, pa: seq<Path>, xb: seq<int>, yb: seq<int>, pb: seq<Path>, k: nat)
    requires |xa| == |ya| && SumSizes(pa) <= |xa| && k < |pa|
    requires |xb| == |yb| && SumSizes(pb) <= |xb| && k < |pb|
    requires forall i :: 0 <= i <= k ==> pa[i].size == pb[i].size
    requires Offset(pa, k) + pa[k].size <= |xa| && Offset(pa, k) + pa[k].size <= |xb|
    requires var o, s := Offset(pa, k), pa[k].size;
             xa[o..o + s] == xb[o..o + s] && ya[o..o + s] == yb[o..o + s]
    ensures Slot(xa, ya, pa, k) == Slot(xb, yb, pb, k)
  {
    OffsetSameSizes(pa, pb, k);
  }

  /** Two importers with the same store and the same path sizes read the
      same points for every path, whatever else their records say. */
  lemma RecordsOnlyFrame(a: Importer, b: Importer)
    requires a.Valid() && b.Valid()
    requires a.xx == b.xx && a.yy == b.yy && |a.paths| == |b.paths|
    requires forall i :: 0 <= i < |a.paths| ==> a.paths[i].size == b.paths[i].size
    ensures forall k :: 0 <= k < |a.paths| ==> a.StoredPath(k) == b.StoredPath(k)
  {
    forall k | 0 <= k < |a.paths| ensures a.StoredPath(k) == b.StoredPath(k) {
      OffsetMonotone(a.paths, k, |a.paths|);
      StoredPathFrame(a, b, k);
    }
  }

  /** `startShape`: later paths belong to the next shape. */
  function StartShape(imp: Importer): (r: Importer)
    requires imp.Valid()
    ensures r.Valid()
    ensures r.shapeId == imp.shapeId + 1
    ensures r.xx == imp.xx && r.yy == imp.yy && r.pointId == imp.pointId && r.paths == imp.paths
  {
    imp.(shapeId := imp.shapeId + 1)
  }

  /** Starting a shape touches neither the store nor the recorded areas. */
  lemma StartShapeKeepsAreas(imp: Importer)
    requires imp.Valid() && imp.AreasMatch()
    ensures StartShape(imp).AreasMatch()
  {
    var r := StartShape(imp);
    assert r.paths[..|imp.paths|] == imp.paths;
    AppendFrame(imp, r);
  }

  /** The `n` points held in an interleaved array `[x, y, x, y, ...]` from `offs`. */
  function FlatPoints(arr: seq<int>, offs: nat, n: nat): (r: seq<Point>)
    requires offs + 2 * n <= |arr|
    ensures |r| == n
  {
    seq(n, i requires 0 <= i < n => Point(arr[offs + 2 * i], arr[offs + 2 * i + 1]))
  }

  /** Interleaves points into `[x, y, x, y, ...]`, as `importPoints` fills its buffer. */
  function Flatten(points: seq<Point>): (r: seq<int>)
    ensures |r| == 2 * |points|
  {
    seq(2 * |points|, i requires 0 <= i < 2 * |points| =>
      if i % 2 == 0 then points[i / 2].x else points[i / 2].y)
  }

  /** Point `i` sits at positions `2i` and `2i + 1` of the buffer. */
  lemma FlattenAt(points: seq<Point>, i: nat)
    requires i < |points|
    ensures Flatten(points)[2 * i] == points[i].x && Flatten(points)[2 * i + 1] == points[i].y
  {
    assert (2 * i) % 2 == 0 && (2 * i) / 2 == i;
    assert (2 * i + 1) % 2 == 1 && (2 * i + 1) / 2 == i;
  }

  /** The ring test of `importCoordsFromFlatArray` on the buffer is the
      closedness of the points. */
  lemma FlattenClosed(points: seq<Point>)
    ensures var f, n := Flatten(points), |points|;
            IsClosed(points) <==> n > 1 && f[0] == f[2 * (n - 1)] && f[1] == f[2 * (n - 1) + 1]
  {
    if |points| > 1 {
      FlattenAt(points, 0);
      FlattenAt(points, |points| - 1);
    }
  }

  /** Reading the buffer `importPoints` fills gives back its points. */
  lemma FlattenRoundTrip(points: seq<Point>)
    ensures FlatPoints(Flatten(points), 0, |points|) == points
  {
    forall i | 0 <= i < |points|
      ensures FlatPoints(Flatten(points), 0, |points|)[i] == points[i]
    {
      FlattenAt(points, i);
    }
  }

  /** The store `s` with entries `start .. start + n` taken from lane `lane`
      (0 for x, 1 for y) of the interleaved array `arr` from `offs`. */
  function CopyIn(s: seq<int>, start: nat, arr: seq<int>, offs: nat, n: nat, lane: nat): (r: seq<int>)
    requires start + n <= |s| && offs + 2 * n <= |arr| && lane < 2
    ensures |r| == |s|
  {
    seq(|s|, j requires 0 <= j < |s| => if start <= j < start + n then arr[offs + 2 * (j - start) + lane] else s[j])
  }

  /** A run is closed when it has more than one point and ends where it starts. */
  predicate IsClosed(pts: seq<Point>) {
    |pts| > 1 && pts[0] == pts[|pts| - 1]
  }

  /** `importCoordsFromFlatArray(arr, offs, pointCount)`: the pairs are
      copied to the store at the cursor and a path record is appended.  The
      source never checks the capacity; appending beyond it is a caller
      error, so it is a precondition here. */
  function ImportCoordsFromFlatArray(imp: Importer, arr: seq<int>, offs: nat, pointCount: nat): (r: (Importer, Path))
    requires imp.Valid()
    requires offs + 2 * pointCount <= |arr|
    requires imp.pointId + pointCount <= |imp.xx|
    ensures r.0.Valid()
    ensures |r.0.xx| == |imp.xx| && r.0.pointId == imp.pointId + pointCount
    ensures forall j :: imp.pointId <= j < imp.pointId + pointCount ==>
              r.0.xx[j] == arr[offs + 2 * (j - imp.pointId)] && r.0.yy[j] == arr[offs + 2 * (j - imp.pointId) + 1]
    ensures forall j :: 0 <= j < |imp.xx| && !(imp.pointId <= j < imp.pointId + pointCount) ==>
              r.0.xx[j] == imp.xx[j] && r.0.yy[j] == imp.yy[j]
    ensures r.0.shapeId == imp.shapeId && r.0.paths == imp.paths + [r.1]
    ensures r.1.size == pointCount && r.1.shapeId == imp.shapeId
    ensures r.1.IsRing() <==> pointCount > 1 && arr[offs] == arr[offs + 2 * (pointCount - 1)]
                              && arr[offs + 1] == arr[offs + 2 * (pointCount - 1) + 1]
    ensures r.1.IsRing() ==> r.1.kind.area == SignedArea2(FlatPoints(arr, offs, pointCount))
  {
    var start := imp.pointId;
    var xx := CopyIn(imp.xx, start, arr, offs, pointCount, 0);
    var yy := CopyIn(imp.yy, start, arr, offs, pointCount, 1);
    var last := offs + 2 * (pointCount - 1);
    var isRing := pointCount > 1 && xx[start] == arr[last] && yy[start] == arr[last + 1];
    var path := Path(pointCount, imp.shapeId, if isRing then Ring(SignedArea2(FlatPoints(arr, offs, pointCount))) else Open);
    SumSizesAppend(imp.paths, path);
    (Importer(xx, yy, start + pointCount, imp.shapeId, imp.paths + [path]), path)
  }

  /** Paths already stored read the same points after anything that keeps
      their records and the store below the cursor. */
  lemma AppendFrame(imp: Importer, r: Importer)
    requires imp.Valid() && r.Valid() && |r.xx| == |imp.xx|
    requires |imp.paths| <= |r.paths| && r.paths[..|imp.paths|] == imp.paths
    requires forall j :: 0 <= j < imp.pointId ==> r.xx[j] == imp.xx[j] && r.yy[j] == imp.yy[j]
    ensures forall k :: 0 <= k < |imp.paths| ==> r.StoredPath(k) == imp.StoredPath(k)
  {
    forall k | 0 <= k < |imp.paths| ensures r.StoredPath(k) == imp.StoredPath(k) {
      forall i | 0 <= i <= k ensures imp.paths[i].size == r.paths[i].size {
        assert r.paths[..|imp.paths|][i] == r.paths[i];
      }
      OffsetMonotone(imp.paths, k, |imp.paths|);
      var o, s := Offset(imp.paths, k), imp.paths[k].size;
      assert imp.xx[o..o + s] == r.xx[o..o + s];
      assert imp.yy[o..o + s] == r.yy[o..o + s];
      StoredPathFrame(imp, r, k);
    }
  }

  /** After appending, the new path reads back the appended pairs, and the
      paths before it read what they read before. */
  lemma ImportCoordsStored(imp: Importer, arr: seq<int>, offs: nat, pointCount: nat)
    requires imp.Valid()
    requires offs + 2 * pointCount <= |arr|
    requires imp.pointId + pointCount <= |imp.xx|
    ensures var r := ImportCoordsFromFlatArray(imp, arr, offs, pointCount).0;
            && r.StoredPath(|imp.paths|) == FlatPoints(arr, offs, pointCount)
            && forall k :: 0 <= k < |imp.paths| ==> r.StoredPath(k) == imp.StoredPath(k)
  {
    var r := ImportCoordsFromFlatArray(imp, arr, offs, pointCount).0;
    var o := imp.pointId;
    OffsetAppend(imp.paths, r.paths[|imp.paths|], |imp.paths|);
    assert r.paths[..|imp.paths|] == imp.paths;
    var s := r.StoredPath(|imp.paths|);
    assert s == Zip(r.xx[o..o + pointCount], r.yy[o..o + pointCount]);
    forall i | 0 <= i < pointCount ensures s[i] == FlatPoints(arr, offs, pointCount)[i] {
      assert s[i] == Point(r.xx[o + i], r.yy[o + i]);
    }
    AppendFrame(imp, r);
  }

  /** Appending keeps every recorded area in step with the store. */
  lemma ImportCoordsKeepsAreas(imp: Importer, arr: seq<int>, offs: nat, pointCount: nat)
    requires imp.Valid() && imp.AreasMatch()
    requires offs + 2 * pointCount <= |arr|
    requires imp.pointId + pointCount <= |imp.xx|
    ensures ImportCoordsFromFlatArray(imp, arr, offs, pointCount).0.AreasMatch()
  {
    var r := ImportCoordsFromFlatArray(imp, arr, offs, pointCount).0;
    ImportCoordsStored(imp, arr, offs, pointCount);
    AppendKeepsAreas(imp, r);
  }

  /** An append that leaves the earlier records and their points alone, and
      records for the new path the area of its stored points, keeps every
      recorded area in step with the store. */
  lemma AppendKeepsAreas(imp: Importer, r: Importer)
    requires imp.Valid() && imp.AreasMatch() && r.Valid()
    requires |r.paths| == |imp.paths| + 1 && r.paths[..|imp.paths|] == imp.paths
    requires forall k :: 0 <= k < |imp.paths| ==> r.StoredPath(k) == imp.StoredPath(k)
    requires var p := r.paths[|imp.paths|];
             p.IsRing() ==> p.kind.area == SignedArea2(r.StoredPath(|imp.paths|))
    ensures r.AreasMatch()
  {
    forall k | 0 <= k < |r.paths| && r.paths[k].IsRing()
      ensures r.paths[k].kind.area == SignedArea2(r.StoredPath(k))
    {
      if k < |imp.paths| {
        assert r.paths[k] == r.paths[..|imp.paths|][k];
        assert imp.paths[k].IsRing();
        assert r.StoredPath(k) == imp.StoredPath(k);
      }
    }
  }

  /** Reversing the slot of path `k` in both arrays reverses its points. */
  lemma ReverseStoredPath(imp: Importer, k: nat)
    requires imp.Valid() && k < |imp.paths|
    ensures var o, n := Offset(imp.paths, k), imp.paths[k].size;
            && o + n <= |imp.xx|
            && var r := imp.(xx := ReverseRange(imp.xx, o, n), yy := ReverseRange(imp.yy, o, n));
               r.Valid() && r.StoredPath(k) == Reverse(imp.StoredPath(k))
  {
    OffsetMonotone(imp.paths, k, |imp.paths|);
    SlotReverse(imp.xx, imp.yy, imp.paths, k);
  }

  /** `ReverseStoredPath` on the bare store. */
  lemma SlotReverse(xx: seq<int>, yy: seq<int>, paths: seq<Path>, k: nat)
    requires |xx| == |yy| && SumSizes(paths) <= |xx| && k < |paths|
    requires Offset(paths, k) + paths[k].size <= |xx|
    ensures var o, n := Offset(paths, k), paths[k].size;
            Slot(ReverseRange(xx, o, n), ReverseRange(yy, o, n), paths, k) == Reverse(Slot(xx, yy, paths, k))
  {
    var o, n := Offset(paths, k), paths[k].size;
    var xs, ys := xx[o..o + n], yy[o..o + n];
    ReverseRangeSlice(xx, o, n);
    ReverseRangeSlice(yy, o, n);
    ZipReverse(xs, ys);
  }

  /** The orientation rule of `importPoints`: a hole must not have positive
      area and an outer ring must not have negative area. */
  predicate NeedsReversal(area: int, isHole: bool) {
    (isHole && area > 0) || (!isHole && area < 0)
  }

  /** The points `importPoints` stores for `points`: reversed exactly when
      they form a ring of the wrong orientation. */
  function Oriented(points: seq<Point>, isHole: bool): seq<Point> {
    if IsClosed(points) && NeedsReversal(SignedArea2(points), isHole) then Reverse(points) else points
  }

  /** `importPoints(points, isHole)` exactly as the source does it: the run
      is appended, and a ring of the wrong orientation has its stored range
      reversed in both coordinate arrays, but its recorded area keeps the
      sign it had before. */
  function ImportPointsAsWritten(imp: Importer, points: seq<Point>, isHole: bool): (r: Importer)
    requires imp.Valid()
    requires imp.pointId + |points| <= |imp.xx|
    ensures r.Valid()
    ensures |r.xx| == |imp.xx| && r.pointId == imp.pointId + |points| && r.shapeId == imp.shapeId
    ensures |r.paths| == |imp.paths| + 1 && r.paths[..|imp.paths|] == imp.paths
    ensures r.paths[|imp.paths|].size == |points| && r.paths[|imp.paths|].shapeId == imp.shapeId
    ensures r.paths[|imp.paths|].IsRing() <==> IsClosed(points)
    ensures IsClosed(points) ==> r.paths[|imp.paths|].kind.area == SignedArea2(points)
    ensures forall j :: 0 <= j < |imp.xx| && !(imp.pointId <= j < imp.pointId + |points|) ==>
              r.xx[j] == imp.xx[j] && r.yy[j] == imp.yy[j]
  {
    var start, n := imp.pointId, |points|;
    FlattenRoundTrip(points);
    FlattenClosed(points);
    var (imp1, path) := ImportCoordsFromFlatArray(imp, Flatten(points), 0, n);
    assert imp1.paths[..|imp.paths|] == imp.paths;
    if path.IsRing() && NeedsReversal(path.kind.area, isHole) then
      imp1.(xx := ReverseRange(imp1.xx, start, n), yy := ReverseRange(imp1.yy, start, n))
    else
      imp1
  }

  /** The stored run of the appended path is `Oriented(points, isHole)`,
      and every earlier path reads what it read before. */
  lemma ImportPointsAsWrittenStored(imp: Importer, points: seq<Point>, isHole: bool)
    requires imp.Valid()
    requires imp.pointId + |points| <= |imp.xx|
    ensures var r := ImportPointsAsWritten(imp, points, isHole);
            && r.StoredPath(|imp.paths|) == Oriented(points, isHole)
            && forall k :: 0 <= k < |imp.paths| ==> r.StoredPath(k) == imp.StoredPath(k)
  {
    var start, n := imp.pointId, |points|;
    var flat := Flatten(points);
    FlattenRoundTrip(points);
    FlattenClosed(points);
    ImportCoordsStored(imp, flat, 0, n);
    var imp1 := ImportCoordsFromFlatArray(imp, flat, 0, n).0;
    var path := ImportCoordsFromFlatArray(imp, flat, 0, n).1;
    var r := ImportPointsAsWritten(imp, points, isHole);
    assert imp1.StoredPath(|imp.paths|) == points;
    if IsClosed(points) && NeedsReversal(SignedArea2(points), isHole) {
      OffsetAppend(imp.paths, path, |imp.paths|);
      ReverseStoredPath(imp1, |imp.paths|);
      assert r.paths[..|imp.paths|] == imp.paths;
      AppendFrame(imp, r);
    } else {
      assert r == imp1;
    }
  }

  /** `importPoints(points, isHole)` with the recorded area negated when the
      ring is reversed, so that it describes the stored points. */
  function ImportPoints(imp: Importer, points: seq<Point>, isHole: bool): (r: Importer)
    requires imp.Valid()
    requires imp.pointId + |points| <= |imp.xx|
    ensures r.Valid()
    ensures |r.xx| == |imp.xx| && r.pointId == imp.pointId + |points| && r.shapeId == imp.shapeId
    ensures |r.paths| == |imp.paths| + 1 && r.paths[..|imp.paths|] == imp.paths
    ensures r.paths[|imp.paths|].size == |points| && r.paths[|imp.paths|].shapeId == imp.shapeId
    ensures r.paths[|imp.paths|].IsRing() <==> IsClosed(points)
    ensures IsClosed(points) ==> r.paths[|imp.paths|].kind.area == SignedArea2(Oriented(points, isHole))
    ensures r.paths[|imp.paths|].IsRing() ==> !NeedsReversal(r.paths[|imp.paths|].kind.area, isHole)
    ensures forall j :: 0 <= j < |imp.xx| && !(imp.pointId <= j < imp.pointId + |points|) ==>
              r.xx[j] == imp.xx[j] && r.yy[j] == imp.yy[j]
  {
    var w := ImportPointsAsWritten(imp, points, isHole);
    var path := w.paths[|imp.paths|];
    assert w.paths == imp.paths + [path];
    ReverseNegatesArea(points);
    if path.IsRing() && NeedsReversal(path.kind.area, isHole) then
      var fixed := path.(kind := Ring(-path.kind.area));
      SumSizesAppend(imp.paths, path);
      SumSizesAppend(imp.paths, fixed);
      var r := w.(paths := imp.paths + [fixed]);
      assert r.paths[..|imp.paths|] == imp.paths;
      r
    else
      w
  }

  /** The corrected `importPoints` stores what the source stores and keeps
      every recorded area in step with the store. */
  lemma ImportPointsKeepsAreas(imp: Importer, points: seq<Point>, isHole: bool)
    requires imp.Valid() && imp.AreasMatch()
    requires imp.pointId + |points| <= |imp.xx|
    ensures ImportPoints(imp, points, isHole).AreasMatch()
  {
    var r := ImportPoints(imp, points, isHole);
    ImportPointsAsWrittenStored(imp, points, isHole);
    ImportPointsStoresAsWritten(imp, points, isHole);
    AppendKeepsAreas(imp, r);
  }

  /** The correction touches only the new record's area: the store, and
      hence every path's points, are those of the source's `importPoints`. */
  lemma ImportPointsStoresAsWritten(imp: Importer, points: seq<Point>, isHole: bool)
    requires imp.Valid()
    requires imp.pointId + |points| <= |imp.xx|
    ensures var r, w := ImportPoints(imp, points, isHole), ImportPointsAsWritten(imp, points, isHole);
            && r.xx == w.xx && r.yy == w.yy
            && forall k :: 0 <= k < |r.paths| ==> r.StoredPath(k) == w.StoredPath(k)
  {
    var w := ImportPointsAsWritten(imp, points, isHole);
    var r := ImportPoints(imp, points, isHole);
    assert r.xx == w.xx && r.yy == w.yy;
    assert forall i :: 0 <= i < |r.paths| ==> r.paths[i].size == w.paths[i].size;
    RecordsOnlyFrame(r, w);
  }

  /** With the source's `importPoints`, a ring it reverses is left with a
      recorded area that contradicts its stored points. */
  lemma AsWrittenReversalBreaksAreas(imp: Importer, points: seq<Point>, isHole: bool)
    requires imp.Valid()
    requires imp.pointId + |points| <= |imp.xx|
    requires IsClosed(points) && NeedsReversal(SignedArea2(points), isHole)
    ensures !ImportPointsAsWritten(imp, points, isHole).AreasMatch()
  {
    var r := ImportPointsAsWritten(imp, points, isHole);
    ImportPointsAsWrittenStored(imp, points, isHole);
    ReverseNegatesArea(points);
    var k := |imp.paths|;
    assert r.paths[k].IsRing();
    assert r.paths[k].kind.area == SignedArea2(points) != SignedArea2(r.StoredPath(k));
  }

  datatype GeometryType = Polyline | Polygon

  /** The `info` record of `done` (the snapping log is not modelled). */
  datatype Info = Info(
    inputPathCount: nat,
    inputPointCount: nat,
    inputSkippedPoints: nat,
    inputShapeCount: int,
    inputGeometryType: GeometryType)

  datatype Finished = Finished(pathData: Cleaned, info: Info)

  /** `roundCoords`: the rounding function applied to every entry. */
  function RoundCoords(arr: seq<int>, round: int -> int): (r: seq<int>)
    ensures |r| == |arr|
    ensures forall i :: 0 <= i < |arr| ==> r[i] == round(arr[i])
  {
    seq(|arr|, i requires 0 <= i < |arr| => round(arr[i]))
  }

  /** `done` without snapping: round the whole store if a rounding function
      is configured, clean the paths, and summarise.  Rounding forces every
      ring to be re-measured. */
  function Done(imp: Importer, round: Option<int -> int>): (r: Finished)
    requires imp.Valid()
    ensures r.info.inputShapeCount == imp.shapeId + 1
    ensures r.info.inputPathCount == |r.pathData.validPaths| == |r.pathData.nn|
    ensures r.info.inputPointCount == r.pathData.validPointCount == Sum(r.pathData.nn)
    ensures r.info.inputPointCount + r.info.inputSkippedPoints == imp.pointId
    ensures r.info.inputGeometryType == Polyline
            <==> exists k :: 0 <= k < |r.pathData.validPaths| && !r.pathData.validPaths[k].IsRing()
    ensures IsSubsequence(r.pathData.validPaths, imp.paths)
  {
    var xx := if round.Some? then RoundCoords(imp.xx, round.value) else imp.xx;
    var yy := if round.Some? then RoundCoords(imp.yy, round.value) else imp.yy;
    var data := CleanedFrom(xx, yy, imp.paths, round.Some?);
    var info := Info(
      |data.validPaths|,
      data.validPointCount,
      data.invalidPointCount,
      imp.shapeId + 1,
      if data.openPathCount > 0 then Polyline else Polygon);
    Finished(data, info)
  }

  /** Every kept path names a shape below `input_shape_count` (or -1 when it
      was imported before the first `startShape`). */
  lemma DoneShapeIdsInRange(imp: Importer, round: Option<int -> int>)
    requires imp.Valid()
    ensures var r := Done(imp, round);
            forall k :: 0 <= k < |r.pathData.validPaths| ==>
              -1 <= r.pathData.validPaths[k].shapeId < r.info.inputShapeCount
  {
    var r := Done(imp, round);
    SubsequenceMembers(r.pathData.validPaths, imp.paths);
    forall k | 0 <= k < |r.pathData.validPaths|
      ensures -1 <= r.pathData.validPaths[k].shapeId < r.info.inputShapeCount
    {
      assert r.pathData.validPaths[k] in imp.paths;
    }
  }
}
