/** The caching file reader (`FileReader`): reads of an immutable file are
    served from one cache window `[offs, offs + |bytes|)` that is refilled from
    disk only when a request is not inside it.  The file is its bytes; the
    disk is a parameter that says how many bytes a read actually delivered. */
module FileReading {
  import opened Wrappers

  /** `DEFAULT_CACHE_LEN`: 8 MiB. */
  const DEFAULT_CACHE_LEN: nat := 0x800000
  /** `DEFAULT_BUFFER_LEN`: 16 KiB. */
  const DEFAULT_BUFFER_LEN: nat := 0x4000
  /** How much of the file `findString` reads when no maximum is given. */
  const DEFAULT_FIND_LEN: nat := 256

  /** The byte count `fs.readSync` reports for a read of `count` bytes at `pos`. */
  type Disk = (nat, nat) -> nat

  /** A disk that always delivers what it is asked for. */
  ghost predicate Honest(disk: Disk) {
    forall pos: nat, count: nat :: disk(pos, count) == count
  }

  /** The cache: its file offset `cacheOffs` and contents. */
  datatype Window = Window(offs: nat, bytes: seq<bv8>)

  /** The reader's state: the file, the two configured lengths, whether the
      file descriptor is open, and the cache (absent before the first read
      and after `close`). */
  datatype Reader = Reader(file: seq<bv8>, cacheLen: nat, bufferLen: nat, isOpen: bool, cache: Option<Window>) {

    /** The cache holds the file's bytes at its offset, and exists only
        while the file is open. */
    ghost predicate Valid() {
      cache.Some? ==>
        && isOpen
        && cache.value.offs + |cache.value.bytes| <= |file|
        && cache.value.bytes == file[cache.value.offs..cache.value.offs + |cache.value.bytes|]
    }
  }

  datatype ReadError =
    | PastEndOfFile  // "Tried to read past end-of-file"
    | ShortRead      // "Error reading file"

  /** `new FileReader(path, opts)`; a size of 0 stands for an option that
      is absent or falsy, which selects the default. */
  function NewReader(file: seq<bv8>, cacheSize: nat, bufferSize: nat): (r: Reader)
    ensures r.Valid() && r.file == file && !r.isOpen && r.cache.None?
    ensures r.cacheLen == (if cacheSize == 0 then DEFAULT_CACHE_LEN else cacheSize) > 0
    ensures r.bufferLen == (if bufferSize == 0 then DEFAULT_BUFFER_LEN else bufferSize) > 0
  {
    Reader(file,
      if cacheSize == 0 then DEFAULT_CACHE_LEN else cacheSize,
      if bufferSize == 0 then DEFAULT_BUFFER_LEN else bufferSize,
      false, None)
  }

  /** `size()`: the file length taken when the reader was made. */
  function Size(rd: Reader): nat {
    |rd.file|
  }

  /** `expandBuffer()`: later default-length reads ask for twice as much. */
  function ExpandBuffer(rd: Reader): (r: Reader)
    requires rd.Valid()
    ensures r.Valid()
    ensures r.bufferLen == 2 * rd.bufferLen
    ensures r.file == rd.file && r.cacheLen == rd.cacheLen && r.isOpen == rd.isOpen && r.cache == rd.cache
  {
    rd.(bufferLen := 2 * rd.bufferLen)
  }

  /** `close()`: drop the descriptor and the cache, if the file is open. */
  function Close(rd: Reader): (r: Reader)
    requires rd.Valid()
    ensures r.Valid() && !r.isOpen && r.cache.None?
    ensures r.file == rd.file && r.cacheLen == rd.cacheLen && r.bufferLen == rd.bufferLen
    ensures !rd.isOpen ==> r == rd
  {
    if rd.isOpen then rd.(isOpen := false, cache := None) else rd
  }

  /** Closing twice is closing once. */
  lemma CloseIdempotent(rd: Reader)
    requires rd.Valid()
    ensures Close(Close(rd)) == Close(rd)
  {
  }

  /** The request `[offs, offs + len)` lies inside the cache. */
  predicate Covers(rd: Reader, offs: nat, len: int) {
    rd.cache.Some? && offs >= rd.cache.value.offs && rd.cache.value.offs + |rd.cache.value.bytes| >= offs + len
  }

  /** The request lies inside the file. */
  predicate InFile(rd: Reader, offs: nat, len: int) {
    offs <= |rd.file| && len <= |rd.file| - offs
  }

  /** The size of a refill at a point with `headroom` bytes left: the cache
      length or the request, whichever is larger, but no more than is left. */
  function RefillLength(cacheLen: nat, bufLen: int, headroom: nat): (n: nat)
    ensures n <= headroom
    ensures bufLen <= headroom ==> bufLen <= n
    ensures n == headroom || (n >= cacheLen && n >= bufLen)
  {
    var want: nat := if bufLen > cacheLen then bufLen else cacheLen;
    if headroom < want then headroom else want
  }

  /** `updateCache(fileOffs, bufLen)`: fail past the end of the file; keep
      the cache when it covers the request (result false); otherwise refill
      it from `fileOffs` (result true), failing if the disk delivers less. */
  function UpdateCache(rd: Reader, fileOffs: nat, bufLen: int, disk: Disk): (r: Result<(Reader, bool), ReadError>)
    requires rd.Valid()
    ensures r == Failure(PastEndOfFile) <==> !InFile(rd, fileOffs, bufLen)
    ensures r == Failure(ShortRead) <==>
              && InFile(rd, fileOffs, bufLen) && !Covers(rd, fileOffs, bufLen)
              && var n := RefillLength(rd.cacheLen, bufLen, |rd.file| - fileOffs); disk(fileOffs, n) != n
    ensures r.Success? ==>
              && r.value.0.Valid()
              && r.value.0.file == rd.file && r.value.0.cacheLen == rd.cacheLen && r.value.0.bufferLen == rd.bufferLen
              && Covers(r.value.0, fileOffs, bufLen)
              && (r.value.1 <==> !Covers(rd, fileOffs, bufLen))
    ensures r.Success? && !r.value.1 ==> r.value.0 == rd
    ensures r.Success? && r.value.1 ==>
              && r.value.0.isOpen
              && r.value.0.cache.value.offs == fileOffs
              && |r.value.0.cache.value.bytes| == RefillLength(rd.cacheLen, bufLen, |rd.file| - fileOffs)
  {
    var headroom := |rd.file| - fileOffs;
    if headroom < bufLen || headroom < 0 then Failure(PastEndOfFile)
    else if Covers(rd, fileOffs, bufLen) then Success((rd, false))
    else
      var n := RefillLength(rd.cacheLen, bufLen, headroom);
      if disk(fileOffs, n) != n then Failure(ShortRead)
      else Success((rd.(isOpen := true, cache := Some(Window(fileOffs, rd.file[fileOffs..fileOffs + n]))), true))
  }

  /** The length `readSync(readOffs, len)` asks for before clamping. */
  function Requested(rd: Reader, len: nat): nat {
    if len == 0 then rd.bufferLen else len
  }

  /** `readSync(readOffs, len)`: the requested length, cut back at the end
      of the file, read through the cache. */
  function ReadSync(rd: Reader, readOffs: nat, len: nat, disk: Disk): (r: Result<(Reader, seq<bv8>), ReadError>)
    requires rd.Valid()
    ensures r == Failure(PastEndOfFile) <==> readOffs > |rd.file|
    ensures r.Success? ==>
              && |r.value.1| == (if readOffs + Requested(rd, len) > |rd.file| then |rd.file| - readOffs else Requested(rd, len))
              && r.value.1 == rd.file[readOffs..readOffs + |r.value.1|]
    ensures r.Success? ==>
              && r.value.0.Valid()
              && r.value.0.file == rd.file && r.value.0.cacheLen == rd.cacheLen && r.value.0.bufferLen == rd.bufferLen
              && Covers(r.value.0, readOffs, |r.value.1|)
  {
    var bufLen: int := if readOffs + Requested(rd, len) > |rd.file| then |rd.file| - readOffs else Requested(rd, len);
    assert InFile(rd, readOffs, bufLen) <==> readOffs <= |rd.file|;
    var u :- UpdateCache(rd, readOffs, bufLen, disk);
    var w := u.0.cache.value;
    WindowBytes(u.0, readOffs, bufLen);
    Success((u.0, w.bytes[readOffs - w.offs..readOffs - w.offs + bufLen]))
  }

  /** A disk that delivers what it is asked for never makes a read fail
      inside the file. */
  lemma HonestDiskReads(rd: Reader, readOffs: nat, len: nat, disk: Disk)
    requires rd.Valid() && Honest(disk)
    requires readOffs <= |rd.file|
    ensures ReadSync(rd, readOffs, len, disk).Success?
  {
    var bufLen: int := if readOffs + Requested(rd, len) > |rd.file| then |rd.file| - readOffs else Requested(rd, len);
    var n := RefillLength(rd.cacheLen, bufLen, |rd.file| - readOffs);
    assert disk(readOffs, n) == n;
  }

  /** Reading the same range again is served from the cache: the disk is
      not consulted and the state does not change. */
  lemma RereadHits(rd: Reader, readOffs: nat, len: nat, disk: Disk, disk2: Disk)
    requires rd.Valid()
    requires ReadSync(rd, readOffs, len, disk).Success?
    ensures var first := ReadSync(rd, readOffs, len, disk).value;
            ReadSync(first.0, readOffs, len, disk2) == Success(first)
  {
    var first := ReadSync(rd, readOffs, len, disk).value;
    var second := ReadSync(first.0, readOffs, len, disk2);
    assert Requested(first.0, len) == Requested(rd, len);
    assert second.Success?;
    assert second.value.1 == first.1;
  }

  /** Any read whose clamped range lies inside the cache window is served
      from the cache: it succeeds whatever the disk would deliver, and the
      state does not change. */
  lemma CoveredReadHits(rd: Reader, readOffs: nat, len: nat, disk: Disk)
    requires rd.Valid()
    requires readOffs <= |rd.file|
    requires Covers(rd, readOffs, if readOffs + Requested(rd, len) > |rd.file| then |rd.file| - readOffs else Requested(rd, len))
    ensures ReadSync(rd, readOffs, len, disk).Success?
    ensures ReadSync(rd, readOffs, len, disk).value.0 == rd
  {
  }

  /** After `expandBuffer`, a default-length read returns up to twice as
      many bytes. */
  lemma ExpandedDefaultRead(rd: Reader, readOffs: nat, disk: Disk)
    requires rd.Valid()
    requires ReadSync(ExpandBuffer(rd), readOffs, 0, disk).Success?
    ensures var n := |ReadSync(ExpandBuffer(rd), readOffs, 0, disk).value.1|;
            n == (if readOffs + 2 * rd.bufferLen > |rd.file| then |rd.file| - readOffs else 2 * rd.bufferLen)
  {
  }

  /** The covered part of the cache is the file's bytes at the same place. */
  lemma WindowBytes(rd: Reader, offs: nat, len: nat)
    requires rd.Valid() && Covers(rd, offs, len)
    ensures var w := rd.cache.value;
            offs - w.offs + len <= |w.bytes| && w.bytes[offs - w.offs..offs - w.offs + len] == rd.file[offs..offs + len]
  {
    var w := rd.cache.value;
    var p := offs - w.offs;
    var a, b := w.bytes[p..p + len], rd.file[offs..offs + len];
    forall k | 0 <= k < len ensures a[k] == b[k] {
      assert w.bytes[p + k] == rd.file[w.offs..w.offs + |w.bytes|][p + k];
    }
  }

  /** `readToBinArray(readOffs, len)` reduced to its arithmetic: the view is
      positioned at `readOffs - cacheOffs`, where the requested bytes start
      in the cache. */
  function ReadToBinArray(rd: Reader, readOffs: nat, len: nat, disk: Disk): (r: Result<(Reader, nat), ReadError>)
    requires rd.Valid()
    ensures r == Failure(PastEndOfFile) <==> !InFile(rd, readOffs, len)
    ensures r.Success? ==>
              && r.value.0.Valid() && r.value.0.file == rd.file
              && r.value.0.cache.Some?
              && var w := r.value.0.cache.value;
                 && w.offs + r.value.1 == readOffs
                 && r.value.1 + len <= |w.bytes|
                 && w.bytes[r.value.1..r.value.1 + len] == rd.file[readOffs..readOffs + len]
  {
    var u :- UpdateCache(rd, readOffs, len, disk);
    WindowBytes(u.0, readOffs, len);
    Success((u.0, readOffs - u.0.cache.value.offs))
  }

  /** What `findString` reports: the offset just past the marker and the
      bytes before it. */
  datatype Found = Found(offset: nat, text: seq<bv8>)

  /** `str` occurs in `buf` at `i`.  An empty marker never matches: its
      first character code is `NaN`, which equals no byte. */
  predicate MatchAt(buf: seq<bv8>, str: seq<bv8>, i: nat) {
    |str| > 0 && i + |str| <= |buf| && buf[i..i + |str|] == str
  }

  /** The scan of `findString` from position `i`, with its loop bound
      `i < buf.length - str.length`. */
  function ScanFrom(buf: seq<bv8>, str: seq<bv8>, i: nat): (r: Option<nat>)
    ensures r.Some? ==> i <= r.value < |buf| - |str| && MatchAt(buf, str, r.value)
    ensures r.Some? ==> forall j :: i <= j < r.value ==> !MatchAt(buf, str, j)
    ensures r.None? ==> forall j :: i <= j < |buf| - |str| ==> !MatchAt(buf, str, j)
    decreases |buf| - i
  {
    if i >= |buf| - |str| then None
    else if |str| > 0 && buf[i] == str[0] && buf[i..i + |str|] == str then Some(i)
    else ScanFrom(buf, str, i + 1)
  }

  /** The scan with the bound the search evidently intends,
      `i <= buf.length - str.length`, so that a marker ending at the last
      byte read is found too. */
  function ScanFromCorrected(buf: seq<bv8>, str: seq<bv8>, i: nat): (r: Option<nat>)
    ensures r.Some? ==> i <= r.value && MatchAt(buf, str, r.value)
    ensures r.Some? ==> forall j :: i <= j < r.value ==> !MatchAt(buf, str, j)
    ensures r.None? ==> forall j :: i <= j ==> !MatchAt(buf, str, j)
    decreases |buf| - i
  {
    if i > |buf| - |str| then None
    else if |str| > 0 && buf[i] == str[0] && buf[i..i + |str|] == str then Some(i)
    else ScanFromCorrected(buf, str, i + 1)
  }

  /** A match inside the bytes read is a match in the file, and conversely. */
  lemma MatchInPrefix(file: seq<bv8>, buf: seq<bv8>, str: seq<bv8>, j: nat)
    requires |buf| <= |file| && buf == file[..|buf|]
    requires j + |str| <= |buf|
    ensures MatchAt(buf, str, j) <==> MatchAt(file, str, j)
  {
    assert buf[j..j + |str|] == file[j..j + |str|];
  }

  lemma MatchesInPrefix(file: seq<bv8>, buf: seq<bv8>, str: seq<bv8>)
    requires |buf| <= |file| && buf == file[..|buf|]
    ensures forall j: nat :: j + |str| <= |buf| ==> (MatchAt(buf, str, j) <==> MatchAt(file, str, j))
  {
    forall j: nat | j + |str| <= |buf| ensures MatchAt(buf, str, j) <==> MatchAt(file, str, j) {
      MatchInPrefix(file, buf, str, j);
    }
  }

  /** The result for a match found at `i`. */
  function Report(buf: seq<bv8>, str: seq<bv8>, m: Option<nat>): Option<Found>
    requires m.Some? ==> m.value <= |buf|
  {
    match m
    case None => None
    case Some(i) => Some(Found(i + |str|, buf[..i]))
  }

  /** What a scan result says about the file the scanned bytes start. */
  ghost predicate ReportsFirst(file: seq<bv8>, str: seq<bv8>, f: Found) {
    && |str| <= f.offset <= |file|
    && file[f.offset - |str|..f.offset] == str
    && f.text == file[..f.offset - |str|]
    && forall j :: 0 <= j < f.offset - |str| ==> !MatchAt(file, str, j)
  }

  /** The source's scan over bytes that start the file: it finds the first
      marker that ends before the last byte scanned. */
  lemma ScanReports(file: seq<bv8>, buf: seq<bv8>, str: seq<bv8>)
    requires |buf| <= |file| && buf == file[..|buf|]
    ensures var m := ScanFrom(buf, str, 0);
            && (m.None? <==> forall j :: 0 <= j && j + |str| < |buf| ==> !MatchAt(file, str, j))
            && (m.Some? ==> m.value + |str| < |buf| && ReportsFirst(file, str, Report(buf, str, m).value))
  {
    MatchesInPrefix(file, buf, str);
    var m := ScanFrom(buf, str, 0);
    if m.Some? {
      assert buf[..m.value] == file[..m.value];
    }
  }

  /** The corrected scan finds the first marker anywhere in the bytes scanned. */
  lemma ScanCorrectedReports(file: seq<bv8>, buf: seq<bv8>, str: seq<bv8>)
    requires |buf| <= |file| && buf == file[..|buf|]
    ensures var m := ScanFromCorrected(buf, str, 0);
            && (m.None? <==> forall j :: 0 <= j && j + |str| <= |buf| ==> !MatchAt(file, str, j))
            && (m.Some? ==> m.value + |str| <= |buf| && ReportsFirst(file, str, Report(buf, str, m).value))
  {
    MatchesInPrefix(file, buf, str);
    var m := ScanFromCorrected(buf, str, 0);
    if m.Some? {
      assert buf[..m.value] == file[..m.value];
    }
  }

  /** `findString(str, maxLen)`: scan the first `maxLen` (by default 256)
      bytes of the file for the marker.  The marker is found only if it ends
      strictly before the last byte read. */
  function FindString(rd: Reader, str: seq<bv8>, maxLen: nat, disk: Disk): (r: Result<(Reader, Option<Found>), ReadError>)
    requires rd.Valid()
    ensures r != Failure(PastEndOfFile)
    ensures r.Success? ==>
              var n := if maxLen == 0 then DEFAULT_FIND_LEN else maxLen;
              var m := if n > |rd.file| then |rd.file| else n;
              && (r.value.1.None? <==> forall j :: 0 <= j && j + |str| < m ==> !MatchAt(rd.file, str, j))
              && (r.value.1.Some? ==> r.value.1.value.offset < m && ReportsFirst(rd.file, str, r.value.1.value))
  {
    var u :- ReadSync(rd, 0, if maxLen == 0 then DEFAULT_FIND_LEN else maxLen, disk);
    ScanReports(rd.file, u.1, str);
    Success((u.0, Report(u.1, str, ScanFrom(u.1, str, 0))))
  }

  /** `findString` with the corrected bound: it reports the first
      occurrence of the marker in the bytes read, wherever it ends. */
  function FindStringCorrected(rd: Reader, str: seq<bv8>, maxLen: nat, disk: Disk): (r: Result<(Reader, Option<Found>), ReadError>)
    requires rd.Valid()
    ensures r != Failure(PastEndOfFile)
    ensures r.Success? ==>
              var n := if maxLen == 0 then DEFAULT_FIND_LEN else maxLen;
              var m := if n > |rd.file| then |rd.file| else n;
              && (r.value.1.None? <==> forall j :: 0 <= j && j + |str| <= m ==> !MatchAt(rd.file, str, j))
              && (r.value.1.Some? ==> r.value.1.value.offset <= m && ReportsFirst(rd.file, str, r.value.1.value))
  {
    var u :- ReadSync(rd, 0, if maxLen == 0 then DEFAULT_FIND_LEN else maxLen, disk);
    ScanCorrectedReports(rd.file, u.1, str);
    Success((u.0, Report(u.1, str, ScanFromCorrected(u.1, str, 0))))
  }
}
