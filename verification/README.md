# mapshaper path import and file reader, modelled in Dafny

This project models two pieces of mapshaper.

**The path importer** (`PathImporter`) does the following:
- It collects coordinate runs from a non-topological source into two parallel coordinate arrays. The arrays have the declared point count and are filled at a moving cursor.
- Each run gets a path record with its size and the current shape index. A closed run becomes a ring with a recorded signed area.
- `importPoints` reverses a ring whose winding does not fit its role: an outer ring must be clockwise and a hole counter-clockwise.
- `done` rounds the store if a precision is set, then cleans the paths and summarises them.
- Cleaning happens in place, in one pass. It drops repeated consecutive points, re-measures rings that lost points or were rounded, and skips rings and open paths that collapsed or flipped.
- `groupPathsByShape` then collects the parts of each shape into a sparse array.

**The caching file reader** (`FileReader`) serves reads of a file from a single cache window. It refills the window from disk only when a request falls outside it. `findString` looks for a marker in the first bytes of a file.

Modules:

- `Wrappers`: `Option` and `Result`.
- `Geometry`:
  - points with integer coordinates;
  - twice the signed ring area by the shoelace sum (clockwise positive, as `msSignedRingArea`);
  - reversal of a run and of a range in place (`reversePathCoords`);
  - zipping two coordinate arrays into points.
- `PathRecords`: the path record and where each path starts in the store.
- `PathCleaning`:
  - duplicate removal and the verdict on one path;
  - a reference definition of the cleaning pass;
  - `CleanPaths`, the in-place two-cursor compaction of `cleanPaths`, proved equal to the reference.
- `PathImport`: the importer state, `startShape`, `importCoordsFromFlatArray`, `importPoints` (as written and corrected), `roundCoords` and `done`.
- `ShapeGrouping`: `groupPathsByShape`.
- `FileReading`: the reader state, `updateCache`, `readSync`, `readToBinArray`, `expandBuffer`, `close`, `size` and `findString` (as written and corrected).
- `Scenarios`: concrete inputs, including those behind the two findings below.

Coordinates are integers. This keeps every area comparison exact and leaves floating point out; see "Left out". The importer's state is an immutable datatype, so each operation returns a new state.

Three things become parameters:
- the rounding function of `done` is an `Option<int -> int>`;
- the disk is a function from (position, count) to the number of bytes `fs.readSync` delivers;
- the file is its byte sequence.

`size()` is simply the length of that sequence (`FileReading.Size`, src/io/mapshaper-file-reader.js:37-39).

## Model

| member | source | states |
|---|---|---|
| Geometry.ReverseNegatesArea | src/mapshaper-path-import.js:145-150 | Walking a ring backwards negates its signed area. This is why reversal is the fix for a ring of the wrong winding. |
| Geometry.ReverseRange | src/mapshaper-path-import.js:148-149 | Reversing `n` entries from `lo` mirrors them inside the range and leaves every other entry alone. |
| Geometry.ReverseRangeSlice | src/mapshaper-path-import.js:148-149 | The reversed range holds the original run, last to first. |
| Geometry.ZipReverse | src/mapshaper-path-import.js:148-149 | Reversing the x and y arrays separately reverses the points they hold together. |
| Geometry.SignedArea2Front | src/mapshaper-path-import.js:124 | The ring area can be unfolded at the first edge as well as at the last. |
| PathRecords.OffsetMonotone | src/mapshaper-path-import.js:105-127 | Paths are stored back to back: each path ends no later than any later path starts. |
| PathRecords.OffsetAppend | src/mapshaper-path-import.js:127 | Appending a record does not move the paths already stored. |
| PathRecords.SumSizesAppend | src/mapshaper-path-import.js:114-127 | Appending a path of `n` points moves the cursor on by exactly `n`. |
| PathRecords.OffsetSameSizes | src/mapshaper-path-import.js:48 | Where a path starts depends only on the sizes of the paths before it. |
| PathCleaning.Dedup | src/mapshaper-path-import.js:48-58 | Removing repeats never makes a run longer. |
| PathCleaning.DedupKeepsEnds | src/mapshaper-path-import.js:51 | The first and last points of a run survive duplicate removal, so a closed run stays closed. |
| PathCleaning.DedupNoAdjacentDuplicates | src/mapshaper-path-import.js:51-57 | No two consecutive survivors are equal. |
| PathCleaning.DedupDropsOnlyRepeats | src/mapshaper-path-import.js:51-58 | Exactly the points equal to their predecessor are dropped: survivors plus repeats equal the input length. |
| PathCleaning.DedupSameElements | src/mapshaper-path-import.js:51-58 | Survivors and input contain the same points. |
| PathCleaning.DedupFixpoint | src/mapshaper-path-import.js:51-58 | A run without repeats is left unchanged, so cleaning twice is cleaning once. |
| PathCleaning.DedupPreservesArea | src/mapshaper-path-import.js:65-72 | Removing repeated points does not change the signed area. |
| PathCleaning.Verdict | src/mapshaper-path-import.js:61-80 | An accepted ring keeps at least 4 points and an accepted open path at least 2. |
| PathCleaning.RecordedAreaKeepsOrientation | src/mapshaper-path-import.js:61-73 | If a ring's recorded area is the area of its stored points and nothing was rounded, the ring is never rejected as inverted. It is rejected as zero-area only when the recorded area is zero. |
| PathCleaning.Kept | src/mapshaper-path-import.js:48-58 | A path's survivors are no more than its recorded size. |
| PathCleaning.KeptSlot | src/mapshaper-path-import.js:48-50 | The read cursor at path `k` is where path `k` is stored, and its slot lies inside the store. |
| PathCleaning.SubsequenceMembers | src/mapshaper-path-import.js:87 | Every kept path is one of the input paths. |
| PathCleaning.CountOpenPositive | src/mapshaper-path-import.js:179 | The open-path count is positive exactly when some kept path is open. |
| PathCleaning.AdmitConsistent | src/mapshaper-path-import.js:82-88 | Skipping or keeping one path preserves the agreement between the sizes, the kept records, the point total and the open-path count. |
| PathCleaning.SurviveConsistent | src/mapshaper-path-import.js:42-89 | After any number of paths, `nn` has one entry per kept path. The entries add up to the kept points, and each is within its path's size and at least 4 (ring) or 2 (open path). |
| PathCleaning.SurviveShrinks | src/mapshaper-path-import.js:44-59 | The write cursor never overtakes the read cursor, which is why compaction can reuse the input arrays. |
| PathCleaning.SurviveInOrder | src/mapshaper-path-import.js:87 | Kept paths appear in input order. |
| PathCleaning.CleanedFrom | src/mapshaper-path-import.js:91-99 | The returned arrays have `validPointCount` entries, the sum of `nn`. Valid plus invalid points make up all input points. `openPathCount` is exactly the number of open kept paths, so it is positive iff some kept path is open. Each `nn[k]` is at most its path's size, and at least 4 for a ring and 2 for an open path. The kept paths are an ordered selection of the input paths. |
| PathCleaning.DedupSnoc | src/mapshaper-path-import.js:51-57 | Reading one more point keeps it exactly when it is the first or differs from its predecessor. |
| PathCleaning.ScanPoint | src/mapshaper-path-import.js:49-57 | One turn of the inner loop reads the point at the read cursor and copies it to the write cursor unless it equals the point read before. The survivors so far stay the duplicate-free prefix of the path. |
| PathCleaning.CompactPath | src/mapshaper-path-import.js:48-59 | Compacting one path writes its survivors from the write cursor on. Everything before the cursor and the unread input are untouched, and the cursor moves by the survivor count. |
| PathCleaning.CleanPath | src/mapshaper-path-import.js:43-88 | One iteration of the path loop keeps or skips the path exactly as the reference pass does. |
| PathCleaning.CleanNext | src/mapshaper-path-import.js:42-89 | The loop state after `p + 1` paths is the reference state after `p + 1` paths. |
| PathCleaning.CompactPaths | src/mapshaper-path-import.js:37-89 | The in-place loop over all paths ends in the reference state. |
| PathCleaning.CleanPaths | src/mapshaper-path-import.js:36-100 | The in-place `cleanPaths` returns the reference cleaning result. |
| PathImport.NewImporter | src/mapshaper-path-import.js:11-24 | A new importer has zero-filled stores of the declared size, no paths, cursor 0 and shape index -1. |
| PathImport.StoredPathFrame | src/mapshaper-path-import.js:105-127 | A path reads the same points from any two states that agree on the sizes up to it and on its slot. |
| PathImport.RecordsOnlyFrame | src/mapshaper-path-import.js:117-125 | Records that differ only in shape or area leave every path's stored points unchanged. |
| PathImport.StartShape | src/mapshaper-path-import.js:26-28 | `startShape` advances the shape index by one and changes nothing else. |
| PathImport.StartShapeKeepsAreas | src/mapshaper-path-import.js:26-28 | Starting a shape keeps every ring's recorded area equal to the area of its stored points. |
| PathImport.FlatPoints | src/mapshaper-path-import.js:109-111 | Reading `n` pairs from an interleaved array gives `n` points. |
| PathImport.Flatten | src/mapshaper-path-import.js:138-142 | Interleaving points gives twice as many numbers. |
| PathImport.FlattenAt | src/mapshaper-path-import.js:138-142 | Point `i` sits at positions `2i` and `2i + 1` of the interleaved buffer. |
| PathImport.FlattenClosed | src/mapshaper-path-import.js:116 | On the buffer, the ring test of `importCoordsFromFlatArray` is exactly "more than one point, and the last equals the first". |
| PathImport.FlattenRoundTrip | src/mapshaper-path-import.js:137-144 | Reading back the buffer `importPoints` fills gives the original points. |
| PathImport.CopyIn | src/mapshaper-path-import.js:109-115 | Copying into the store keeps its length. |
| PathImport.ImportCoordsFromFlatArray | src/mapshaper-path-import.js:105-129 | The pairs go to the store at the cursor and nothing else in the store changes. The cursor advances by the point count, and the new record carries the size and the current shape. It is a ring iff the run has more than one point and its last pair equals its first, and a ring records the area of the copied points. |
| PathImport.AppendFrame | src/mapshaper-path-import.js:109-127 | An append that keeps the earlier records and the store below the cursor leaves every earlier path's points unchanged. |
| PathImport.ImportCoordsStored | src/mapshaper-path-import.js:105-129 | After the append, the new path reads back the pairs given and every earlier path reads what it read before. |
| PathImport.ImportCoordsKeepsAreas | src/mapshaper-path-import.js:117-127 | `importCoordsFromFlatArray` keeps every ring's recorded area equal to the area of its stored points. |
| PathImport.AppendKeepsAreas | src/mapshaper-path-import.js:123-127 | An append whose new ring records the area of its stored points keeps all recorded areas in step with the store. |
| PathImport.ReverseStoredPath | src/mapshaper-path-import.js:148-149 | Reversing a path's slot in both arrays reverses the path's points. |
| PathImport.ImportPointsAsWritten | src/mapshaper-path-import.js:133-152 | The run is appended as by `importCoordsFromFlatArray`, and it is a ring iff it is closed. The recorded area is the area of the points as given, even when the stored run was then reversed. |
| PathImport.ImportPointsAsWrittenStored | src/mapshaper-path-import.js:143-151 | The stored run is the input reversed exactly when it is a ring of the wrong winding for its role. Earlier paths are untouched. |
| PathImport.AsWrittenReversalBreaksAreas | src/mapshaper-path-import.js:145-150 | Whenever the source reverses a ring, the recorded area no longer matches the stored points. |
| PathImport.ImportPoints | src/mapshaper-path-import.js:133-152 | Corrected `importPoints`: the recorded area is the area of the stored (oriented) points, and a stored ring never has the wrong winding for its role. |
| PathImport.ImportPointsKeepsAreas | src/mapshaper-path-import.js:143-151 | Corrected `importPoints` keeps every recorded area equal to the area of its stored points. |
| PathImport.ImportPointsStoresAsWritten | src/mapshaper-path-import.js:143-151 | The correction changes only the new record's area: the store and every path's points are those of the source. |
| PathImport.RoundCoords | src/mapshaper-path-import.js:30-34 | Every entry is replaced by its rounded value, and the length is kept. |
| PathImport.Done | src/mapshaper-path-import.js:158-180 | The shape count is the last shape index plus one. The path count is the number of kept paths. Kept and skipped points add up to all imported points. The geometry is polyline exactly when some kept path is open. Kept paths are an ordered selection of the imported ones. |
| PathImport.DoneShapeIdsInRange | src/mapshaper-path-import.js:178-183 | Every kept path names a shape from -1 up to below `input_shape_count`. |
| ShapeGrouping.PartsBeyondCount | src/mapshaper-path-import.js:196-205 | No part lands at or beyond the array's length. |
| ShapeGrouping.PlaceStep | src/mapshaper-path-import.js:199-204 | Placing one part with `Place`, the model of the `shapeId in shapes` create-or-push step, extends that shape's entry (creating it if absent, padding the array when the index is past its end) and changes no other entry. |
| ShapeGrouping.GroupPathsByShape | src/mapshaper-path-import.js:196-207 | Entry `s` holds, in order, exactly the parts whose record names shape `s`. It is absent when there are none. |
| ShapeGrouping.PartsOfMembers | src/mapshaper-path-import.js:199-204 | A part is in shape `s`'s entry iff its record names `s`. |
| ShapeGrouping.PartsOfEmpty | src/mapshaper-path-import.js:200-201 | A shape's entry is absent exactly when no record names it. |
| ShapeGrouping.SlotCountWithinRange | src/mapshaper-path-import.js:197 | When every record names a shape below the declared count, the array has exactly that length. |
| ShapeGrouping.SlotCountBounds | src/mapshaper-path-import.js:197-204 | The array is at least the declared length, and every assigned index lies inside it. |
| ShapeGrouping.EveryPartGrouped | src/mapshaper-path-import.js:198-205 | Every part with a non-negative shape index is in that shape's entry. |
| ShapeGrouping.DoneGroupingLength | src/mapshaper-path-import.js:178-183 | In `done`, the grouped array has exactly `input_shape_count` entries. |
| FileReading.NewReader | src/io/mapshaper-file-reader.js:5-10 | A missing or zero cache size means 8 MiB and a missing or zero buffer size means 16 KiB. The reader starts closed, with no cache. |
| FileReading.ExpandBuffer | src/io/mapshaper-file-reader.js:12-15 | The default read length doubles and nothing else changes. |
| FileReading.Close | src/io/mapshaper-file-reader.js:41-47 | Closing drops the descriptor and the cache. A reader that is not open is left as it is. |
| FileReading.CloseIdempotent | src/io/mapshaper-file-reader.js:41-47 | Closing twice is closing once. |
| FileReading.RefillLength | src/io/mapshaper-file-reader.js:60-63 | A refill is at least the cache length and the request, but never more than what is left of the file. |
| FileReading.UpdateCache | src/io/mapshaper-file-reader.js:51-74 | It fails past end of file exactly when the request leaves the file. It fails on a short read exactly when a refill was needed and the disk delivered less. It reports a refill exactly when the old cache did not cover the request. On success the cache covers the request and holds the file's bytes; a hit leaves the state unchanged. |
| FileReading.ReadSync | src/io/mapshaper-file-reader.js:27-35 | It fails past end of file exactly when the offset is beyond the file. Otherwise it returns the file's bytes from the offset, at the requested (or default) length cut back at end of file. |
| FileReading.HonestDiskReads | src/io/mapshaper-file-reader.js:27-35 | With a disk that delivers what it is asked, every read at an offset inside the file succeeds. |
| FileReading.RereadHits | src/io/mapshaper-file-reader.js:57-59 | Repeating a read is served from the cache: the disk is not consulted and the state is unchanged. |
| FileReading.CoveredReadHits | src/io/mapshaper-file-reader.js:57-59 | Any read whose clamped range lies inside the current cache window succeeds without the disk, whatever the disk would deliver, and leaves the state unchanged. |
| FileReading.ExpandedDefaultRead | src/io/mapshaper-file-reader.js:28-32 | After `expandBuffer`, a default-length read returns twice the old default length, cut back at end of file. |
| FileReading.WindowBytes | src/io/mapshaper-file-reader.js:34 | The covered part of the cache is the file's bytes at the same place. |
| FileReading.ReadToBinArray | src/io/mapshaper-file-reader.js:18-24 | A statement about the cache window, not about the returned `BinArray`: after `updateCache`, the view's position is the requested offset minus the cache offset, and from there the cache holds the requested bytes of the file. Whether the returned view actually wraps that cache is not promised (see `FileReading.ReadToBinArray` under Left out). |
| FileReading.ScanFrom | src/io/mapshaper-file-reader.js:83-90 | The source's scan finds the first match starting below `buf.length - str.length`, and only there. |
| FileReading.ScanFromCorrected | src/io/mapshaper-file-reader.js:83-90 | With the bound `<=`, the scan finds the first match anywhere in the buffer. |
| FileReading.MatchInPrefix | src/io/mapshaper-file-reader.js:78 | A match inside the bytes read is a match in the file, and conversely. |
| FileReading.ScanReports | src/io/mapshaper-file-reader.js:80-91 | The source's scan reports nothing iff no marker ends before the last byte read. A report names the first marker in the file: the offset just past it and the bytes before it. |
| FileReading.ScanCorrectedReports | src/io/mapshaper-file-reader.js:80-91 | The corrected scan reports nothing iff no marker lies within the bytes read, and otherwise reports the first one. |
| FileReading.FindString | src/io/mapshaper-file-reader.js:77-92 | `findString` never fails past end of file. It returns null iff no marker ends strictly before the last of the first `maxLen` (default 256) bytes. Otherwise it returns the first marker's end offset and the text before it. |
| FileReading.FindStringCorrected | src/io/mapshaper-file-reader.js:77-92 | The corrected `findString` returns null iff the marker does not occur within the bytes read, and otherwise returns the first occurrence. |
| Scenarios.HoleArea | src/mapshaper-path-import.js:146 | The square hole with a repeated vertex, given clockwise, is closed and has positive area, so a hole import reverses it. |
| Scenarios.ReversedHoleKept | src/mapshaper-path-import.js:48-59 | Cleaning that reversed hole keeps five of its six points. |
| Scenarios.ReversedHoleCleaned | src/mapshaper-path-import.js:65-72 | The cleaned reversed hole has the negated area of the hole as given. |
| Scenarios.DoneOneRing | src/mapshaper-path-import.js:82-88 | With one imported ring, `done` keeps it iff its verdict accepts its cleaned points. |
| Scenarios.HoleImportedAsWritten | src/mapshaper-path-import.js:133-152 | The source imports the hole as a reversed run but records the area of the run as given. |
| Scenarios.HoleRecordCorrected | src/mapshaper-path-import.js:133-152 | The corrected import records the negated area for the hole. |
| Scenarios.HoleStoredCorrected | src/mapshaper-path-import.js:143-151 | The corrected import stores the reversed hole, whose cleaned points have the negated area. |
| Scenarios.VerdictFiveOfSix | src/mapshaper-path-import.js:61-73 | A ring of six points with five survivors is rejected as inverted when its recorded area has the opposite sign, and accepted when the sign agrees. |
| Scenarios.ReversedHoleRejectedAsWritten | src/mapshaper-path-import.js:145-150 | With the source's `importPoints`, the hole is rejected as an inverted ring and `done` keeps no path. |
| Scenarios.ReversedHoleKeptCorrected | src/mapshaper-path-import.js:145-150 | With the corrected `importPoints`, the hole is accepted and `done` keeps it. |
| Scenarios.MarkerAtEndMissed | src/io/mapshaper-file-reader.js:80-83 | A marker that occurs only at the very end of the bytes read is not found. |
| Scenarios.ReportIsFirstMatch | src/io/mapshaper-file-reader.js:84-88 | A report for the first match at `k` is the offset just past the marker (`k` plus its length) and the bytes before `k`. |
| Scenarios.MarkerAtEndReportedCorrected | src/io/mapshaper-file-reader.js:80-88 | The corrected search reports a marker that ends at the last byte read: the first occurrence in the file, with the bytes before it as text. |
| Scenarios.OnlyReportAtEnd | src/io/mapshaper-file-reader.js:84-88 | When the marker occurs only at the end of the file, any report of its first occurrence has the file length as offset. |
| Scenarios.MarkerAtEndFoundCorrected | src/io/mapshaper-file-reader.js:80-88 | The corrected search reports the file length as the offset: the marker found is the one that ends the file. |
| Scenarios.TwoByteMarkerMissed | src/io/mapshaper-file-reader.js:77-92 | In the file `[1, 2]`, the source does not find the marker `[2]`; the corrected search finds it, with offset 2 and text `[1]`. |
| Scenarios.MarkerBeforeEndFound | src/io/mapshaper-file-reader.js:77-92 | In the file `[1, 2, 3]`, the source finds the marker `[2]`, with offset 2 and text `[1]`. |

## Left out

- The file system. `fs.statSync`, `fs.openSync` and `fs.closeSync` are not modelled. The file is a byte sequence fixed for the reader's lifetime, and `fs.readSync` is the `Disk` parameter, which reports how many bytes were delivered.
- Buffer identity. `updateCache` reuses the cache buffer when its length is unchanged, and `readToBinArray` keeps its `BinArray` across cache hits. Only the bytes and positions are modelled. `FileReading.ReadToBinArray` returns the view's position, not a `BinArray`.
- FileReading.ReadToBinArray: models the cache window only, not the returned `BinArray` or the sharing of buffers, so three hazards of the source are not promised against. First, `binArr` is assigned only on a refill (src/io/mapshaper-file-reader.js:19-21). A `readToBinArray` that hits a cache filled by `readSync` then calls `position` on an undefined `binArr` and throws a TypeError. Second, after `readSync` replaces the cache with a buffer of a different length (lines 64-66, for example near end of file), a later hit positions the old `BinArray` over the old bytes and returns silently wrong data. Third, `readSync` returns `cache.slice(...)` (line 34), which shares memory with the cache, so a later refill of the same length overwrites bytes a caller already holds. `FileReading.ReadSync` returns an immutable byte sequence instead.
- Descriptor 0. The source tests the descriptor with `if (fd)`, so a descriptor numbered 0 counts as closed. The model keeps an `isOpen` flag instead.
- `readToBinArray` with no length. The model takes a length, which all callers pass.
- Negative or fractional offsets and lengths. These are not modelled: offsets and lengths are naturals, and a zero length stands for a missing one, as `len || DEFAULT_BUFFER_LEN` treats it.
- The state after an error. `error(...)` and `throw` become `Failure` results; the reader's state after a thrown read is not modelled.
- Text decoding. `findString` compares UTF-8 text. The model compares the marker's bytes directly, so the marker is a byte sequence and the text before it is returned as bytes.
- Default buffer size. `DEFAULT_BUFFER_LEN` is `0x4000`, which is 16 KiB, although the source's comment says 32K. The model uses the value.
- Snapping. `autoSnapCoords` and `snapped_points` under `opts.snapping` are not part of this model; `Done` is `done` with snapping off.
- Topology. `buildTopology` is not part of this model. `groupPathsByShape` is modelled for parts of any type, so it applies to whatever `buildTopology` returns.
- Floating point. Coordinates are integers and the ring area is the exact integer shoelace sum, twice the signed area. `NaN`, rounding error and `getRoundingFunction` are left out, and the rounding function is a parameter of `Done`.
- Buffer growth. The 1.3× growth of the `importPoints` buffer is not modelled; the buffer is exactly the interleaved points.
- Logging and timing. `trace` and `T.start` / `T.stop` are left out.
- PathImport.ImportCoordsFromFlatArray: requires the run to fit in the store and in the source array. The source checks neither. A typed array silently drops writes past its end, and reading `arr[offs++]` past the end of the source array gives `undefined`, which is stored as NaN. Importing more points than declared, or from a too-short array, is a caller error.
- ShapeGrouping.GroupPathsByShape: requires a record for every part, as the source reads `pathData[pathId].shapeId` for each one. A negative shape index becomes a named property of the JavaScript array rather than an entry, so the model leaves the entries unchanged for it. An index at or beyond the declared count lengthens the array; the model lengthens it likewise, but the property entries are not represented.
- FileReading.Size: has no contract of its own. It is the file length taken when the reader is made.

## Findings

| source | as written | input that shows it | evidently intended | confidence | as-written member | corrected member |
|---|---|---|---|---|---|---|
| src/mapshaper-path-import.js:145-150 | `importPoints` reverses a ring of the wrong winding in the coordinate arrays, but its record keeps the area measured before the reversal. That area now has the wrong sign for the stored points. `cleanPaths` re-measures a ring when points were dropped or coordinates rounded. It then finds the sign changed and skips the ring as "Inverted ring". | A hole given clockwise with one repeated vertex: `(0,0),(0,a),(0,a),(a,a),(a,0),(0,0)` for any `a > 0`, imported with `isHole` true. | The recorded area describes the stored points: negate it on reversal (or re-measure), so that a corrected ring survives cleaning. | not executed | PathImport.ImportPointsAsWritten, PathImport.AsWrittenReversalBreaksAreas, Scenarios.ReversedHoleRejectedAsWritten | PathImport.ImportPoints, PathImport.ImportPointsKeepsAreas, Scenarios.ReversedHoleKeptCorrected |
| src/io/mapshaper-file-reader.js:80-83 | The loop bound `i < buf.length - str.length` never tries the last start position. A marker that ends at the last byte read is not found, and `findString` returns null. | The file `[1, 2]` with marker `[2]` (`maxLen` 0 or at least 2). Likewise a file that ends with its marker, such as `hdrMARKER`. | `i <= buf.length - str.length`, so that every occurrence within the bytes read is found. | not executed | FileReading.FindString, Scenarios.MarkerAtEndMissed, Scenarios.TwoByteMarkerMissed | FileReading.FindStringCorrected, Scenarios.MarkerAtEndReportedCorrected, Scenarios.MarkerAtEndFoundCorrected |
