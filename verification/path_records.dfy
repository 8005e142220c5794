/** The path record the importer creates for every appended coordinate run,
    and the arithmetic that locates a path's points in the shared coordinate
    store: paths are stored back to back in append order. */
module PathRecords {

  /** Only rings carry an area; an open path has none. */
  datatype PathKind = Open | Ring(area: int)

  datatype Path = Path(size: nat, shapeId: int, kind: PathKind) {
    predicate IsRing() {
      kind.Ring?
    }
  }

  /** Where path `k` starts in the store: the points of the paths before it. */
  function Offset(paths: seq<Path>, k: nat): nat
    requires k <= |paths|
    decreases k
  {
    if k == 0 then 0 else Offset(paths, k - 1) + paths[k - 1].size
  }

  /** Total number of points of `paths`, i.e. where the next path would start. */
  function SumSizes(paths: seq<Path>): nat {
    Offset(paths, |paths|)
  }

  /** Path `k` occupies `[Offset(paths, k), Offset(paths, k) + size)`, which
      ends no later than any later path starts. */
  lemma {:induction false} OffsetMonotone(paths: seq<Path>, j: nat, k: nat)
    requires j < k <= |paths|
    ensures Offset(paths, j) + paths[j].size <= Offset(paths, k)
    decreases k
  {
    if j < k - 1 {
      OffsetMonotone(paths, j, k - 1);
    }
  }

  /** Appending a path does not move the paths already stored. */
  lemma {:induction false} OffsetAppend(paths: seq<Path>, p: Path, k: nat)
    requires k <= |paths|
    ensures Offset(paths + [p], k) == Offset(paths, k)
    decreases k
  {
    if k > 0 {
      OffsetAppend(paths, p, k - 1);
      assert (paths + [p])[k - 1] == paths[k - 1];
    }
  }

  lemma SumSizesAppend(paths: seq<Path>, p: Path)
    ensures SumSizes(paths + [p]) == SumSizes(paths) + p.size
  {
    OffsetAppend(paths, p, |paths|);
  }

  /** Only the sizes of the paths before `k` matter for where it starts. */
  lemma {:induction false} OffsetSameSizes(a: seq<Path>, b: seq<Path>, k: nat)
    requires k <= |a| && k <= |b|
    requires forall i :: 0 <= i < k ==> a[i].size == b[i].size
    ensures Offset(a, k) == Offset(b, k)
    decreases k
  {
    if k > 0 {
      OffsetSameSizes(a, b, k - 1);
    }
  }
}
