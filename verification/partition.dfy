/**
  The partition plan of `file::read_parallel`: the file of `fileSize` bytes
  is split into `numThreads` byte ranges, worker `i` starting at
  `i * chunk` with `chunk = fileSize / numThreads`, every worker but the
  last reading `chunk` bytes and the last one absorbing the remainder.

  The plan is never stored by the program; `WorkerRange` computes one
  worker's range exactly as the worker's lambda does, and `Plan` collects
  them for the lemmas. `Owner` is an independent description of the same
  plan, from the point of view of a byte position: it names the one worker
  whose range holds that position.
 */
module Partition {
  import opened Machine

  /** A half-open byte range `[offset, offset + size)`. */
  datatype Range = Range(offset: nat, size: nat) {
    function End(): nat {
      offset + size
    }

    predicate Contains(k: int) {
      offset <= k < offset + size
    }
  }

  /** No byte position lies in both ranges. */
  predicate Disjoint(a: Range, b: Range) {
    a.End() <= b.offset || b.End() <= a.offset || a.size == 0 || b.size == 0
  }

  /** Sum of the sizes of a sequence of ranges. */
  function SumSizes(rs: seq<Range>): nat {
    if |rs| == 0 then 0 else SumSizes(rs[..|rs| - 1]) + rs[|rs| - 1].size
  }

  // ---------------------------------------------------------------------
  // Arithmetic facts about truncating division used by the plan.
  // ---------------------------------------------------------------------

  lemma MulMonotone(a: nat, b: nat, c: nat)
    requires a <= b
    ensures a * c <= b * c
  {
    assert b * c == a * c + (b - a) * c;
  }

  lemma QuotientTimesDivisor(fileSize: nat, n: nat)
    requires n >= 1
    ensures n * (fileSize / n) <= fileSize < n * (fileSize / n) + n
  {
  }

  /** Multiplying by the same positive factor preserves strict order in reverse. */
  lemma MulCancelLess(a: nat, b: nat, c: nat)
    requires a * c < b * c
    ensures a < b
    decreases a
  {
    assert b * c > 0;
    if a > 0 {
      assert (a - 1) * c == a * c - c;
      assert (b - 1) * c == b * c - c;
      MulCancelLess(a - 1, b - 1, c);
    }
  }

  /** `q` is the quotient of `k` by `c` when `k` lies in `[q*c, q*c + c)`. */
  lemma QuotientFromBounds(k: nat, c: nat, q: nat)
    requires c > 0
    requires q * c <= k < q * c + c
    ensures k / c == q
  {
    var d := k / c;
    assert d * c <= k < d * c + c;
    assert (d + 1) * c == d * c + c;
    assert (q + 1) * c == q * c + c;
    MulCancelLess(d, q + 1, c);
    MulCancelLess(q, d + 1, c);
  }

  lemma QuotientLowerBound(k: nat, c: nat, q: nat)
    requires c > 0
    requires q * c <= k
    ensures q <= k / c
  {
    var d := k / c;
    assert k < d * c + c;
    assert (d + 1) * c == d * c + c;
    MulCancelLess(q, d + 1, c);
  }

  // ---------------------------------------------------------------------
  // The plan.
  // ---------------------------------------------------------------------

  /** `chunk_size` of `read_parallel`: the size of every range but the last. */
  function ChunkSize(fileSize: u64, numThreads: u32): (c: u64)
    requires numThreads >= 1
    ensures c * numThreads <= fileSize < c * numThreads + numThreads
  {
    QuotientTimesDivisor(fileSize, numThreads);
    fileSize / numThreads
  }

  /**
    The range worker `i` reads: offset `i * chunk`, size `chunk`, except
    for the last worker, whose size is whatever is left up to `fileSize`.
    Neither the product nor the difference can leave `uint64_t`.
   */
  function WorkerRange(fileSize: u64, numThreads: u32, i: nat): (r: Range)
    requires 1 <= numThreads && i < numThreads
    ensures r.End() <= fileSize
  {
    var chunk := ChunkSize(fileSize, numThreads);
    MulMonotone(i + 1, numThreads, chunk);
    assert (i + 1) * chunk == i * chunk + chunk;
    var offset := i * chunk;
    var size := if i == numThreads - 1 then fileSize - offset else chunk;
    Range(offset, size)
  }

  /** The ranges of all workers, in thread-creation order. */
  function Plan(fileSize: u64, numThreads: u32): (p: seq<Range>)
    requires numThreads >= 1
    ensures |p| == numThreads
    ensures forall i :: 0 <= i < |p| ==> p[i] == WorkerRange(fileSize, numThreads, i)
  {
    seq(numThreads, i requires 0 <= i < numThreads => WorkerRange(fileSize, numThreads, i))
  }

  /**
    The worker responsible for byte position `k`: position `k` falls in
    chunk `k / chunk`, except that positions past the last full chunk, and
    every position when the chunks are empty, belong to the last worker.
   */
  function Owner(fileSize: u64, numThreads: u32, k: nat): (i: nat)
    requires numThreads >= 1 && k < fileSize
    ensures i < numThreads
  {
    var c: nat := fileSize / numThreads;
    if c == 0 then numThreads - 1
    else
      var q: nat := k / c;
      if q < numThreads - 1 then q else numThreads - 1
  }

  /** The owner of a position of the file does hold it in its range. */
  lemma OwnerContains(fileSize: u64, numThreads: u32, k: nat)
    requires numThreads >= 1 && k < fileSize
    ensures WorkerRange(fileSize, numThreads, Owner(fileSize, numThreads, k)).Contains(k)
  {
    var c := ChunkSize(fileSize, numThreads);
    var i := Owner(fileSize, numThreads, k);
    var r := WorkerRange(fileSize, numThreads, i);
    assert r.offset == i * c;
    if c == 0 {
      assert r.offset == 0 && r.size == fileSize;
    } else if k / c < numThreads - 1 {
      assert i == k / c;
      assert i * c <= k < i * c + c;
    } else {
      MulMonotone(numThreads - 1, k / c, c);
      assert (k / c) * c <= k;
      assert r.End() == fileSize;
    }
  }

  /**
    A worker's range contains position `k` exactly when `k` is inside the
    file and that worker is `k`'s owner: every byte of the file is read by
    one worker and by no other, and no worker reaches past the file.
   */
  lemma ContainsIffOwner(fileSize: u64, numThreads: u32, i: nat, k: nat)
    requires 1 <= numThreads && i < numThreads
    ensures WorkerRange(fileSize, numThreads, i).Contains(k)
            <==> k < fileSize && Owner(fileSize, numThreads, k) == i
  {
    var r := WorkerRange(fileSize, numThreads, i);
    var c := ChunkSize(fileSize, numThreads);
    if k < fileSize {
      OwnerContains(fileSize, numThreads, k);
    }
    if r.Contains(k) {
      assert k < fileSize;
      if c == 0 {
        assert i == numThreads - 1;
      } else if i < numThreads - 1 {
        QuotientFromBounds(k, c, i);
      } else {
        QuotientLowerBound(k, c, i);
      }
    }
  }

  /** `ContainsIffOwner` for every position of one worker at once. */
  lemma WorkerPositions(fileSize: u64, numThreads: u32, i: nat)
    requires 1 <= numThreads && i < numThreads
    ensures forall k: nat :: WorkerRange(fileSize, numThreads, i).Contains(k)
                             <==> k < fileSize && Owner(fileSize, numThreads, k) == i
  {
    forall k: nat
      ensures WorkerRange(fileSize, numThreads, i).Contains(k)
              <==> k < fileSize && Owner(fileSize, numThreads, k) == i
    {
      ContainsIffOwner(fileSize, numThreads, i, k);
    }
  }

  // ---------------------------------------------------------------------
  // Properties of the plan.
  // ---------------------------------------------------------------------

  /**
    Worker 0 starts at offset 0, every later worker starts where its
    predecessor's range ends, and the last range ends at `fileSize`.
   */
  lemma PlanContiguous(fileSize: u64, numThreads: u32)
    requires numThreads >= 1
    ensures Plan(fileSize, numThreads)[0].offset == 0
    ensures forall i :: 0 <= i < numThreads - 1 ==>
              Plan(fileSize, numThreads)[i + 1].offset == Plan(fileSize, numThreads)[i].End()
    ensures Plan(fileSize, numThreads)[numThreads - 1].End() == fileSize
  {
    var p := Plan(fileSize, numThreads);
    var c := ChunkSize(fileSize, numThreads);
    forall i | 0 <= i < numThreads - 1
      ensures p[i + 1].offset == p[i].End()
    {
      assert (i + 1) * c == i * c + c;
    }
  }

  /**
    Every worker but the last reads exactly `fileSize / numThreads` bytes;
    the last reads the rest, which is at least that and less than
    `fileSize / numThreads + numThreads`.
   */
  lemma PlanSizes(fileSize: u64, numThreads: u32)
    requires numThreads >= 1
    ensures forall i :: 0 <= i < numThreads - 1 ==>
              Plan(fileSize, numThreads)[i].size == fileSize / numThreads
    ensures Plan(fileSize, numThreads)[numThreads - 1].size
            == fileSize - (numThreads - 1) * (fileSize / numThreads)
    ensures fileSize / numThreads <= Plan(fileSize, numThreads)[numThreads - 1].size
                                   < fileSize / numThreads + numThreads
  {
    var c := ChunkSize(fileSize, numThreads);
    assert (numThreads - 1) * c + c == numThreads * c;
  }

  /** The ranges of the workers before `j` fill `[0, offset_j)` exactly. */
  lemma {:induction false} PrefixSum(fileSize: u64, numThreads: u32, j: nat)
    requires numThreads >= 1 && j < numThreads
    ensures SumSizes(Plan(fileSize, numThreads)[..j]) == Plan(fileSize, numThreads)[j].offset
  {
    var p := Plan(fileSize, numThreads);
    if j == 0 {
      assert p[0].offset == 0 * ChunkSize(fileSize, numThreads);
    } else {
      PrefixSum(fileSize, numThreads, j - 1);
      PlanContiguous(fileSize, numThreads);
      assert p[..j][..j - 1] == p[..j - 1];
      assert SumSizes(p[..j]) == SumSizes(p[..j - 1]) + p[j - 1].size;
    }
  }

  /** The range sizes add up to exactly `fileSize`. */
  lemma PlanSum(fileSize: u64, numThreads: u32)
    requires numThreads >= 1
    ensures SumSizes(Plan(fileSize, numThreads)) == fileSize
  {
    var p := Plan(fileSize, numThreads);
    PrefixSum(fileSize, numThreads, numThreads - 1);
    PlanContiguous(fileSize, numThreads);
    assert p[..numThreads - 1] == p[..|p| - 1];
  }

  /**
    The ranges are pairwise disjoint, also when the chunks are empty; a
    range that precedes another in thread order ends before it starts.
   */
  lemma PlanDisjoint(fileSize: u64, numThreads: u32)
    requires numThreads >= 1
    ensures forall i, j :: 0 <= i < j < numThreads ==>
              Plan(fileSize, numThreads)[i].End() <= Plan(fileSize, numThreads)[j].offset
    ensures forall i, j :: 0 <= i < numThreads && 0 <= j < numThreads && i != j ==>
              Disjoint(Plan(fileSize, numThreads)[i], Plan(fileSize, numThreads)[j])
  {
    var p := Plan(fileSize, numThreads);
    var c := ChunkSize(fileSize, numThreads);
    forall i, j | 0 <= i < j < numThreads
      ensures p[i].End() <= p[j].offset
    {
      MulMonotone(i + 1, j, c);
      assert (i + 1) * c == i * c + c;
    }
  }

  /**
    Every position of `[0, fileSize)` lies in exactly one range of the plan
    (its owner's), and no range holds a position outside it.
   */
  lemma PlanCovers(fileSize: u64, numThreads: u32)
    requires numThreads >= 1
    ensures forall k: nat :: k < fileSize ==>
              Plan(fileSize, numThreads)[Owner(fileSize, numThreads, k)].Contains(k)
    ensures forall i, j, k ::
              && 0 <= i < numThreads && 0 <= j < numThreads
              && Plan(fileSize, numThreads)[i].Contains(k)
              && Plan(fileSize, numThreads)[j].Contains(k)
              ==> i == j
    ensures forall i, k :: 0 <= i < numThreads && Plan(fileSize, numThreads)[i].Contains(k) ==>
              0 <= k < fileSize
  {
    var p := Plan(fileSize, numThreads);
    forall k: nat | k < fileSize
      ensures p[Owner(fileSize, numThreads, k)].Contains(k)
    {
      OwnerContains(fileSize, numThreads, k);
    }
    forall i, j, k | 0 <= i < numThreads && 0 <= j < numThreads && p[i].Contains(k) && p[j].Contains(k)
      ensures i == j
    {
      ContainsIffOwner(fileSize, numThreads, i, k);
      ContainsIffOwner(fileSize, numThreads, j, k);
    }
  }

  /** 1024 bytes over 3 workers: two ranges of 341 bytes and a last one of 342. */
  lemma PlanScenario1024By3()
    ensures Plan(1024, 3) == [Range(0, 341), Range(341, 341), Range(682, 342)]
  {
  }

  /** 10 bytes over 4 workers: chunks of 2 and a last range of 4. */
  lemma PlanScenario10By4()
    ensures Plan(10, 4) == [Range(0, 2), Range(2, 2), Range(4, 2), Range(6, 4)]
  {
  }

  /** More workers than bytes: the empty chunks all sit at 0 and the last worker reads everything. */
  lemma PlanScenario3By5()
    ensures Plan(3, 5) == [Range(0, 0), Range(0, 0), Range(0, 0), Range(0, 0), Range(0, 3)]
  {
  }
}
