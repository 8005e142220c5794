/** Worked examples on concrete inputs, including the inputs that exhibit
    the two discrepancies recorded in the README. */
module Scenarios {
  import opened Wrappers
  import opened Geometry
  import opened PathRecords
  import opened PathCleaning
  import opened PathImport
  import opened FileReading

  /** Extending a run by one point adds the area term of the new edge. */
  lemma AreaSnoc(s: seq<Point>, p: Point)
    requires |s| > 0
    ensures SignedArea2(s + [p]) == SignedArea2(s) + Cross(s[|s| - 1], p)
  {
    assert (s + [p])[..|s|] == s;
  }

  /** Extending a run by one point keeps that point unless it repeats the last. */
  lemma DedupSnocPoint(s: seq<Point>, p: Point)
    ensures |s| > 0 && s[|s| - 1] == p ==> Dedup(s + [p]) == Dedup(s)
    ensures !(|s| > 0 && s[|s| - 1] == p) ==> Dedup(s + [p]) == Dedup(s) + [p]
  {
    assert (s + [p])[..|s|] == s;
  }

  /** A square hole of side `a` given clockwise, with its second vertex
      repeated. */
  function HoleWithRepeat(a: int): seq<Point> {
    [Point(0, 0), Point(0, a), Point(0, a), Point(a, a), Point(a, 0), Point(0, 0)]
  }

  /** The hole is a closed run with positive (clockwise) area, so a hole
      import must reverse it. */
  lemma HoleArea(a: int)
    requires a > 0
    ensures IsClosed(HoleWithRepeat(a)) && SignedArea2(HoleWithRepeat(a)) > 0
  {
    var s1 := [Point(0, 0)];
    var s2 := s1 + [Point(0, a)];
    var s3 := s2 + [Point(0, a)];
    var s4 := s3 + [Point(a, a)];
    var s5 := s4 + [Point(a, 0)];
    var s6 := s5 + [Point(0, 0)];
    assert s6 == HoleWithRepeat(a);
    AreaSnoc(s1, Point(0, a));
    AreaSnoc(s2, Point(0, a));
    AreaSnoc(s3, Point(a, a));
    AreaSnoc(s4, Point(a, 0));
    AreaSnoc(s5, Point(0, 0));
  }

  /** Reversed, the hole still repeats one vertex, which cleaning drops:
      five of its six points survive. */
  lemma ReversedHoleKept(a: int)
    requires a > 0
    ensures |Dedup(Reverse(HoleWithRepeat(a)))| == 5
  {
    var h := HoleWithRepeat(a);
    var r1 := [Point(0, 0)];
    var r2 := r1 + [Point(a, 0)];
    var r3 := r2 + [Point(a, a)];
    var r4 := r3 + [Point(0, a)];
    var r5 := r4 + [Point(0, a)];
    var r6 := r5 + [Point(0, 0)];
    assert Reverse(h) == r6 by {
      forall i | 0 <= i < 6 ensures Reverse(h)[i] == r6[i] {
        assert Reverse(h)[i] == h[5 - i];
      }
    }
    assert Dedup(r1) == r1 by {
      assert r1[..0] == [];
    }
    DedupSnocPoint(r1, Point(a, 0));
    DedupSnocPoint(r2, Point(a, a));
    DedupSnocPoint(r3, Point(0, a));
    DedupSnocPoint(r4, Point(0, a));
    DedupSnocPoint(r5, Point(0, 0));
  }

  /** What cleaning sees of the reversed hole: five points whose area is
      the negation of the hole's positive area. */
  lemma ReversedHoleCleaned(a: int)
    requires a > 0
    ensures SignedArea2(HoleWithRepeat(a)) > 0
    ensures |Dedup(Reverse(HoleWithRepeat(a)))| == 5
    ensures SignedArea2(Dedup(Reverse(HoleWithRepeat(a)))) == -SignedArea2(HoleWithRepeat(a))
  {
    HoleArea(a);
    ReversedHoleKept(a);
    ReverseNegatesArea(HoleWithRepeat(a));
    DedupPreservesArea(Reverse(HoleWithRepeat(a)));
  }

  /** `done` on an importer holding one path that fills its store: the
      path is kept exactly when its verdict accepts it. */
  lemma DoneOneRing(imp: Importer)
    requires imp.Valid() && |imp.paths| == 1 && imp.paths[0].size == |imp.xx|
    ensures Done(imp, None).pathData.validPaths
            == if Verdict(imp.paths[0], Dedup(imp.StoredPath(0)), false).Some? then [] else imp.paths
  {
    var pts := Zip(imp.xx, imp.yy);
    var n := |imp.xx|;
    assert Offset(imp.paths, 0) == 0;
    assert imp.xx[0..n] == imp.xx && imp.yy[0..n] == imp.yy;
    KeptSlot(pts, imp.paths, 0, 0);
    assert pts[0..n] == pts;
    assert Kept(pts, imp.paths, 0) == Dedup(imp.StoredPath(0));
    assert Survive(pts, imp.paths, false).validPaths
           == if Verdict(imp.paths[0], Dedup(imp.StoredPath(0)), false).Some? then [] else [imp.paths[0]];
    assert imp.paths == [imp.paths[0]];
  }

  /** An importer with no paths yet, room for exactly the six points of the
      hole, inside its first shape: what `startShape` gives on a new importer. */
  ghost predicate ReadyForHole(imp: Importer) {
    imp.Valid() && imp.paths == [] && |imp.xx| == 6 && imp.shapeId == 0
  }

  lemma NewImporterReady()
    ensures ReadyForHole(StartShape(NewImporter(6)))
  {
  }

  /** The hole imported by the source's `importPoints`: the record keeps
      the area from before the reversal, while the store holds the reversed
      run. */
  lemma HoleImportedAsWritten(imp: Importer, a: int)
    requires ReadyForHole(imp) && a > 0
    ensures var w := ImportPointsAsWritten(imp, HoleWithRepeat(a), true);
            && w.paths == [Path(6, 0, Ring(SignedArea2(HoleWithRepeat(a))))]
            && w.StoredPath(0) == Reverse(HoleWithRepeat(a))
  {
    var w := ImportPointsAsWritten(imp, HoleWithRepeat(a), true);
    HoleArea(a);
    ImportPointsAsWrittenStored(imp, HoleWithRepeat(a), true);
    assert w.paths == [w.paths[0]];
  }

  /** The same import with the corrected `importPoints`: the record carries
      the area of the reversed run. */
  lemma HoleRecordCorrected(imp: Importer, a: int)
    requires ReadyForHole(imp) && a > 0
    ensures ImportPoints(imp, HoleWithRepeat(a), true).paths == [Path(6, 0, Ring(-SignedArea2(HoleWithRepeat(a))))]
  {
    var h := HoleWithRepeat(a);
    var r := ImportPoints(imp, h, true);
    HoleArea(a);
    ReverseNegatesArea(h);
    assert Oriented(h, true) == Reverse(h);
    assert r.paths == [r.paths[0]];
  }

  /** The correction leaves the stored run as the source stores it, so
      cleaning sees the same five points. */
  lemma HoleStoredCorrected(imp: Importer, a: int)
    requires ReadyForHole(imp) && a > 0
    ensures var r := ImportPoints(imp, HoleWithRepeat(a), true);
            && |r.paths| == 1 && r.StoredPath(0) == Reverse(HoleWithRepeat(a))
            && |Dedup(r.StoredPath(0))| == 5
            && SignedArea2(Dedup(r.StoredPath(0))) == -SignedArea2(HoleWithRepeat(a))
  {
    HoleImportedAsWritten(imp, a);
    ImportPointsStoresAsWritten(imp, HoleWithRepeat(a), true);
    ReversedHoleCleaned(a);
  }

  /** The validation of a six-point ring recorded with area `area`, of
      which five points survive with area `kept`. */
  lemma VerdictFiveOfSix(path: Path, kept: seq<Point>, area: int)
    requires path.size == 6 && path.kind == Ring(area) && area != 0
    requires |kept| == 5 && SignedArea2(kept) == -area
    ensures Verdict(path, kept, false) == Some(InvertedRing)
    ensures Verdict(path.(kind := Ring(-area)), kept, false) == None
  {
  }

  /** Every such hole is lost with the source's `importPoints`: once the
      repeated vertex is removed the ring is re-measured, and the area of the
      reversed run has the opposite sign to the recorded one. */
  lemma ReversedHoleRejectedAsWritten(imp: Importer, a: int)
    requires ReadyForHole(imp) && a > 0
    ensures var w := ImportPointsAsWritten(imp, HoleWithRepeat(a), true);
            && Verdict(w.paths[0], Dedup(w.StoredPath(0)), false) == Some(InvertedRing)
            && Done(w, None).pathData.validPaths == []
  {
    var w := ImportPointsAsWritten(imp, HoleWithRepeat(a), true);
    HoleImportedAsWritten(imp, a);
    ReversedHoleCleaned(a);
    VerdictFiveOfSix(w.paths[0], Dedup(w.StoredPath(0)), SignedArea2(HoleWithRepeat(a)));
    DoneOneRing(w);
  }

  /** With the area negated on reversal the same hole passes validation and
      `done` keeps it. */
  lemma ReversedHoleKeptCorrected(imp: Importer, a: int)
    requires ReadyForHole(imp) && a > 0
    ensures var r := ImportPoints(imp, HoleWithRepeat(a), true);
            && Verdict(r.paths[0], Dedup(r.StoredPath(0)), false) == None
            && Done(r, None).pathData.validPaths == r.paths
  {
    var r := ImportPoints(imp, HoleWithRepeat(a), true);
    var area := SignedArea2(HoleWithRepeat(a));
    HoleRecordCorrected(imp, a);
    HoleStoredCorrected(imp, a);
    ReversedHoleCleaned(a);
    VerdictFiveOfSix(Path(6, 0, Ring(area)), Dedup(r.StoredPath(0)), area);
    assert r.paths[0] == Path(6, 0, Ring(area)).(kind := Ring(-area));
    DoneOneRing(r);
  }

  /** A marker that ends exactly at the last byte `findString` reads, and
      occurs nowhere earlier. */
  ghost predicate MarkerOnlyAtEnd(rd: Reader, str: seq<bv8>, maxLen: nat) {
    && |rd.file| <= (if maxLen == 0 then DEFAULT_FIND_LEN else maxLen)
    && |str| <= |rd.file| && MatchAt(rd.file, str, |rd.file| - |str|)
    && forall j :: 0 <= j < |rd.file| - |str| ==> !MatchAt(rd.file, str, j)
  }

  /** The source's scan stops one position short of such a marker and
      reports nothing. */
  lemma MarkerAtEndMissed(rd: Reader, str: seq<bv8>, maxLen: nat, disk: Disk)
    requires rd.Valid() && Honest(disk) && MarkerOnlyAtEnd(rd, str, maxLen)
    ensures var r := FindString(rd, str, maxLen, disk);
            r.Success? && r.value.1 == None
  {
    var n := if maxLen == 0 then DEFAULT_FIND_LEN else maxLen;
    HonestDiskReads(rd, 0, n, disk);
    assert ReadSync(rd, 0, n, disk).Success?;
    var r := FindString(rd, str, maxLen, disk);
    assert r.Success?;
    forall j | 0 <= j && j + |str| < |rd.file| ensures !MatchAt(rd.file, str, j) {
      assert j < |rd.file| - |str|;
    }
  }

  /** A report names the first occurrence of the marker, so there is only
      one possible report. */
  lemma ReportIsFirstMatch(file: seq<bv8>, str: seq<bv8>, f: Found, k: nat)
    requires ReportsFirst(file, str, f) && |str| > 0
    requires MatchAt(file, str, k) && forall j :: 0 <= j < k ==> !MatchAt(file, str, j)
    ensures f == Found(k + |str|, file[..k])
  {
    assert MatchAt(file, str, f.offset - |str|);
  }

  /** The corrected scan reports an occurrence of such a marker... */
  lemma MarkerAtEndReportedCorrected(rd: Reader, str: seq<bv8>, maxLen: nat, disk: Disk)
    requires rd.Valid() && Honest(disk) && MarkerOnlyAtEnd(rd, str, maxLen)
    ensures var r := FindStringCorrected(rd, str, maxLen, disk);
            r.Success? && r.value.1.Some? && ReportsFirst(rd.file, str, r.value.1.value)
  {
    var n := if maxLen == 0 then DEFAULT_FIND_LEN else maxLen;
    HonestDiskReads(rd, 0, n, disk);
    assert ReadSync(rd, 0, n, disk).Success?;
    var last := |rd.file| - |str|;
    assert last + |str| <= |rd.file| && MatchAt(rd.file, str, last);
  }

  /** ... and it is the one that ends the file. */
  lemma MarkerAtEndFoundCorrected(rd: Reader, str: seq<bv8>, maxLen: nat, disk: Disk)
    requires rd.Valid() && Honest(disk) && MarkerOnlyAtEnd(rd, str, maxLen)
    ensures var r := FindStringCorrected(rd, str, maxLen, disk);
            r.Success? && r.value.1.Some? && r.value.1.value.offset == |rd.file|
  {
    var r := FindStringCorrected(rd, str, maxLen, disk);
    assert r.Success? && r.value.1.Some? && ReportsFirst(rd.file, str, r.value.1.value) by {
      MarkerAtEndReportedCorrected(rd, str, maxLen, disk);
    }
    OnlyReportAtEnd(rd.file, str, r.value.1.value);
  }

  /** When the marker occurs only at the end of the file, a report names
      the file's length. */
  lemma OnlyReportAtEnd(file: seq<bv8>, str: seq<bv8>, f: Found)
    requires |str| <= |file| && MatchAt(file, str, |file| - |str|)
    requires forall j :: 0 <= j < |file| - |str| ==> !MatchAt(file, str, j)
    requires ReportsFirst(file, str, f)
    ensures f.offset == |file|
  {
    ReportIsFirstMatch(file, str, f, |file| - |str|);
  }

  /** The smallest such file: two bytes, the marker being the second. */
  lemma TwoByteMarkerMissed(rd: Reader, disk: Disk)
    requires rd.Valid() && Honest(disk) && rd.file == [1, 2]
    ensures var r := FindString(rd, [2], 0, disk);
            r.Success? && r.value.1 == None
    ensures var r := FindStringCorrected(rd, [2], 0, disk);
            r.Success? && r.value.1 == Some(Found(2, [1]))
  {
    assert MarkerOnlyAtEnd(rd, [2], 0) by {
      assert rd.file[0..1] == [1] != [2];
      assert rd.file[1..2] == [2];
    }
    assert FindString(rd, [2], 0, disk).Success? && FindString(rd, [2], 0, disk).value.1 == None by {
      MarkerAtEndMissed(rd, [2], 0, disk);
    }
    var r := FindStringCorrected(rd, [2], 0, disk);
    assert r.Success? && r.value.1.Some? && r.value.1.value.offset == 2 && r.value.1.value.text == rd.file[..1] by {
      MarkerAtEndReportedCorrected(rd, [2], 0, disk);
      MarkerAtEndFoundCorrected(rd, [2], 0, disk);
    }
    assert rd.file[..1] == [1];
  }

  /** With a byte after it, the same marker is found by the source's scan. */
  lemma MarkerBeforeEndFound(rd: Reader, disk: Disk)
    requires rd.Valid() && Honest(disk) && rd.file == [1, 2, 3]
    ensures var r := FindString(rd, [2], 0, disk);
            r.Success? && r.value.1 == Some(Found(2, [1]))
  {
    var r := FindString(rd, [2], 0, disk);
    assert MatchAt(rd.file, [2], 1) && !MatchAt(rd.file, [2], 0) && rd.file[..1] == [1] by {
      assert rd.file[0..1] == [1] != [2];
      assert rd.file[1..2] == [2];
    }
    assert r.Success? by {
      HonestDiskReads(rd, 0, DEFAULT_FIND_LEN, disk);
    }
    assert r.value.1.Some? && ReportsFirst(rd.file, [2], r.value.1.value);
    ReportIsFirstMatch(rd.file, [2], r.value.1.value, 1);
  }
}
