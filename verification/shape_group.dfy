/** `groupPathsByShape`: the parts produced for the kept paths are collected
    into one slot per shape, in path order.  The source's array is sparse: a
    shape no path refers to has no entry at all (`None` here), and assigning
    past the end lengthens the array. */
module ShapeGrouping {
  import opened Wrappers
  import opened PathRecords
  import opened PathImport

  /** The parts among the first `n` whose path record names shape `s`, in order. */
  function PartsOf<P>(parts: seq<P>, meta: seq<Path>, n: nat, s: int): seq<P>
    requires n <= |parts| && n <= |meta|
    decreases n
  {
    if n == 0 then []
    else PartsOf(parts, meta, n - 1, s) + (if meta[n - 1].shapeId == s then [parts[n - 1]] else [])
  }

  /** The length of the array after the first `n` parts: the declared shape
      count, or one past the largest shape index assigned. */
  function SlotCount(meta: seq<Path>, n: nat, shapeCount: nat): nat
    requires n <= |meta|
    decreases n
  {
    if n == 0 then shapeCount
    else
      var c := SlotCount(meta, n - 1, shapeCount);
      if meta[n - 1].shapeId + 1 > c then meta[n - 1].shapeId + 1 else c
  }

  /** A slot holds its parts, or is absent when there are none. */
  function Slot<P>(ps: seq<P>): Option<seq<P>> {
    if ps == [] then None else Some(ps)
  }

  function Contents<P>(o: Option<seq<P>>): seq<P> {
    match o
    case None => []
    case Some(ps) => ps
  }

  /** `shapes[shapeId] = [path]` or `shapes[shapeId].push(path)`.  A
      negative index names a property rather than an array entry, so the
      entries are left as they are. */
  function Place<P>(shapes: seq<Option<seq<P>>>, id: int, part: P): seq<Option<seq<P>>> {
    if id < 0 then shapes
    else
      var padded := if id < |shapes| then shapes else shapes + seq(id + 1 - |shapes|, _ => None);
      padded[id := Some(Contents(padded[id]) + [part])]
  }

  /** No part lands beyond the array's length. */
  lemma {:induction false} PartsBeyondCount<P>(parts: seq<P>, meta: seq<Path>, n: nat, shapeCount: nat, s: int)
    requires n <= |parts| && n <= |meta|
    requires s >= SlotCount(meta, n, shapeCount)
    ensures PartsOf(parts, meta, n, s) == []
    decreases n
  {
    if n > 0 {
      PartsBeyondCount(parts, meta, n - 1, shapeCount, s);
    }
  }

  /** The array's state after placing the first `n` parts. */
  ghost predicate GroupedUpTo<P>(parts: seq<P>, meta: seq<Path>, shapeCount: nat, n: nat, shapes: seq<Option<seq<P>>>)
    requires n <= |parts| && n <= |meta|
  {
    && |shapes| == SlotCount(meta, n, shapeCount)
    && forall s :: 0 <= s < |shapes| ==> shapes[s] == Slot(PartsOf(parts, meta, n, s))
  }

  /** Placing part `n` extends its own slot and no other. */
  lemma PlaceStep<P>(parts: seq<P>, meta: seq<Path>, shapeCount: nat, n: nat, shapes: seq<Option<seq<P>>>)
    requires n < |parts| && n < |meta|
    requires GroupedUpTo(parts, meta, shapeCount, n, shapes)
    ensures GroupedUpTo(parts, meta, shapeCount, n + 1, Place(shapes, meta[n].shapeId, parts[n]))
  {
    var id := meta[n].shapeId;
    var r := Place(shapes, id, parts[n]);
    forall s | 0 <= s < |r| ensures r[s] == Slot(PartsOf(parts, meta, n + 1, s)) {
      var before := PartsOf(parts, meta, n, s);
      if s >= |shapes| {
        PartsBeyondCount(parts, meta, n, shapeCount, s);
      }
      assert Contents(if s < |shapes| then shapes[s] else None) == before;
      if s == id {
        assert PartsOf(parts, meta, n + 1, s) == before + [parts[n]];
      } else {
        assert PartsOf(parts, meta, n + 1, s) == before;
      }
    }
  }

  /** `groupPathsByShape(parts, meta, shapeCount)`: part `i` goes to the slot
      named by `meta[i].shapeId`.  Reading `meta[i]` for every part is why
      there must be a record for each part. */
  method GroupPathsByShape<P>(parts: seq<P>, meta: seq<Path>, shapeCount: nat) returns (shapes: seq<Option<seq<P>>>)
    requires |parts| <= |meta|
    ensures |shapes| == SlotCount(meta, |parts|, shapeCount)
    ensures forall s :: 0 <= s < |shapes| ==> shapes[s] == Slot(PartsOf(parts, meta, |parts|, s))
  {
    shapes := seq(shapeCount, _ => None);
    var i := 0;
    while i < |parts|
      invariant i <= |parts|
      invariant GroupedUpTo(parts, meta, shapeCount, i, shapes)
    {
      PlaceStep(parts, meta, shapeCount, i, shapes);
      shapes := Place(shapes, meta[i].shapeId, parts[i]);
      i := i + 1;
    }
  }

  /** A shape's parts are exactly the parts whose record names it. */
  lemma {:induction false} PartsOfMembers<P>(parts: seq<P>, meta: seq<Path>, n: nat, s: int)
    requires n <= |parts| && n <= |meta|
    ensures forall i :: 0 <= i < n && meta[i].shapeId == s ==> parts[i] in PartsOf(parts, meta, n, s)
    ensures forall p :: p in PartsOf(parts, meta, n, s) ==> exists i :: 0 <= i < n && meta[i].shapeId == s && parts[i] == p
    decreases n
  {
    if n > 0 {
      PartsOfMembers(parts, meta, n - 1, s);
    }
  }

  /** A slot is absent exactly when no part names its shape. */
  lemma {:induction false} PartsOfEmpty<P>(parts: seq<P>, meta: seq<Path>, n: nat, s: int)
    requires n <= |parts| && n <= |meta|
    ensures PartsOf(parts, meta, n, s) == [] <==> forall i :: 0 <= i < n ==> meta[i].shapeId != s
    decreases n
  {
    if n > 0 {
      PartsOfEmpty(parts, meta, n - 1, s);
    }
  }

  /** When every record names a shape below `shapeCount` (or -1), the array
      has exactly `shapeCount` entries, which is the case in `done`. */
  lemma {:induction false} SlotCountWithinRange(meta: seq<Path>, n: nat, shapeCount: nat)
    requires n <= |meta|
    requires forall i :: 0 <= i < n ==> meta[i].shapeId < shapeCount
    ensures SlotCount(meta, n, shapeCount) == shapeCount
    decreases n
  {
    if n > 0 {
      SlotCountWithinRange(meta, n - 1, shapeCount);
    }
  }

  /** Every shape index assigned lies below the array's length. */
  lemma {:induction false} SlotCountBounds(meta: seq<Path>, n: nat, shapeCount: nat)
    requires n <= |meta|
    ensures shapeCount <= SlotCount(meta, n, shapeCount)
    ensures forall i :: 0 <= i < n ==> meta[i].shapeId < SlotCount(meta, n, shapeCount)
    decreases n
  {
    if n > 0 {
      SlotCountBounds(meta, n - 1, shapeCount);
    }
  }

  /** Every part whose record names a shape index sits in that shape's slot. */
  lemma EveryPartGrouped<P>(parts: seq<P>, meta: seq<Path>, shapeCount: nat, shapes: seq<Option<seq<P>>>, i: nat)
    requires |parts| <= |meta|
    requires GroupedUpTo(parts, meta, shapeCount, |parts|, shapes)
    requires i < |parts| && meta[i].shapeId >= 0
    ensures meta[i].shapeId < |shapes|
    ensures shapes[meta[i].shapeId].Some? && parts[i] in shapes[meta[i].shapeId].value
  {
    SlotCountBounds(meta, |parts|, shapeCount);
    PartsOfMembers(parts, meta, |parts|, meta[i].shapeId);
  }

  /** In `done` the kept paths are grouped under `input_shape_count`, and the
      array then has exactly that many entries. */
  lemma DoneGroupingLength(imp: Importer, round: Option<int -> int>)
    requires imp.Valid()
    ensures var r := Done(imp, round);
            SlotCount(r.pathData.validPaths, |r.pathData.validPaths|, r.info.inputShapeCount) == r.info.inputShapeCount
  {
    var r := Done(imp, round);
    DoneShapeIdsInRange(imp, round);
    SlotCountWithinRange(r.pathData.validPaths, |r.pathData.validPaths|, r.info.inputShapeCount);
  }
}
