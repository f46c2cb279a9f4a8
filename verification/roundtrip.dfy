/**
  The measurement sequence the benchmark's driver runs on one `file`:
  generate the pattern, write it, clear the buffer, read it back (with one
  stream or with several workers) and validate against the reference.
  These lemmas state what the final validation does and does not tell.
 */
module RoundTrip {
  import opened Machine
  import opened Partition
  import opened Buffer
  import opened Transfer
  import opened ParallelRead

  /** The file after `generate_random_data` and a `write` whose stream opened. */
  function WrittenPattern(f: File, disk0: seq<byte>): (disk: seq<byte>)
    requires f.fileSize < U32_LIMIT
    ensures |disk| == f.fileSize
    ensures disk == GenerateRandomData(f).referenceData
  {
    Write(GenerateRandomData(f), disk0, true)
  }

  /**
    Every position owned by a worker whose stream did not open is a
    multiple of 128, where the pattern byte is 0.
   */
  ghost predicate FailuresInvisible(fileSize: u64, numThreads: u32, opens: seq<bool>)
    requires numThreads >= 1 && |opens| == numThreads
  {
    forall i, k :: 0 <= i < numThreads && !opens[i] && WorkerRange(fileSize, numThreads, i).Contains(k) ==>
      k % 128 == 0
  }

  /**
    generate, write, clear, read: the read reports success, validation
    passes, and the buffer is back to the generated state.
   */
  lemma SequentialRoundTrip(f: File, disk0: seq<byte>)
    requires f.fileSize < U32_LIMIT
    ensures Read(Clear(GenerateRandomData(f)), WrittenPattern(f, disk0), true)
            == ReadResult(true, GenerateRandomData(f))
    ensures StateMatchReference(Read(Clear(GenerateRandomData(f)), WrittenPattern(f, disk0), true).file)
  {
    var g := GenerateRandomData(f);
    WriteReadRoundTrip(g, Clear(g), disk0);
    ValidateIsEquality(g);
  }

  /**
    generate, write, clear, `read_parallel`: validation passes exactly when
    every worker whose stream failed to open owns only positions that are
    multiples of 128, the positions where the pattern byte is the zero that
    `clear` left behind.
   */
  lemma ParallelValidationIff(f: File, disk0: seq<byte>, numThreads: u32, opens: seq<bool>)
    requires f.fileSize < U32_LIMIT
    requires numThreads >= 1 && |opens| == numThreads
    ensures ReadParallel(Clear(GenerateRandomData(f)), WrittenPattern(f, disk0), numThreads, opens).ok
    ensures StateMatchReference(ReadParallel(Clear(GenerateRandomData(f)), WrittenPattern(f, disk0),
                                             numThreads, opens).file)
            <==> FailuresInvisible(f.fileSize, numThreads, opens)
  {
    var g := GenerateRandomData(f);
    var disk := WrittenPattern(f, disk0);
    var r := ReadParallel(Clear(g), disk, numThreads, opens).file;
    ValidateIsEquality(r);
    if StateMatchReference(r) {
      forall i, k | 0 <= i < numThreads && !opens[i] && WorkerRange(f.fileSize, numThreads, i).Contains(k)
        ensures k % 128 == 0
      {
        ContainsIffOwner(f.fileSize, numThreads, i, k);
        assert r.data[k] == 0;
      }
    } else {
      var k :| 0 <= k < |r.data| && r.data[k] != g.referenceData[k];
      var i := Owner(f.fileSize, numThreads, k);
      OwnerContains(f.fileSize, numThreads, k);
      assert !opens[i] && k % 128 != 0;
    }
  }

  /**
    generate, write, clear, `read_parallel` with every stream opening:
    validation passes for every thread count.
   */
  lemma ParallelRoundTrip(f: File, disk0: seq<byte>, numThreads: u32, opens: seq<bool>)
    requires f.fileSize < U32_LIMIT
    requires numThreads >= 1 && |opens| == numThreads
    requires forall i :: 0 <= i < numThreads ==> opens[i]
    ensures ReadParallel(Clear(GenerateRandomData(f)), WrittenPattern(f, disk0), numThreads, opens)
            == ReadResult(true, GenerateRandomData(f))
    ensures StateMatchReference(ReadParallel(Clear(GenerateRandomData(f)), WrittenPattern(f, disk0),
                                             numThreads, opens).file)
  {
    var g := GenerateRandomData(f);
    ParallelMatchesSequential(Clear(g), WrittenPattern(f, disk0), numThreads, opens);
    SequentialRoundTrip(f, disk0);
  }

  /**
    A worker whose stream failed to open and whose range holds at least two
    bytes always makes validation fail: one of any two neighbouring
    positions is not a multiple of 128.
   */
  lemma SkippedWorkerDetected(f: File, disk0: seq<byte>, numThreads: u32, opens: seq<bool>, i: nat)
    requires f.fileSize < U32_LIMIT
    requires numThreads >= 1 && |opens| == numThreads
    requires i < numThreads && !opens[i] && WorkerRange(f.fileSize, numThreads, i).size >= 2
    ensures !StateMatchReference(ReadParallel(Clear(GenerateRandomData(f)), WrittenPattern(f, disk0),
                                              numThreads, opens).file)
  {
    ParallelValidationIff(f, disk0, numThreads, opens);
    var r := WorkerRange(f.fileSize, numThreads, i);
    assert r.Contains(r.offset) && r.Contains(r.offset + 1);
  }

  /**
    The result `true` of `read_parallel` does not mean every worker read its
    range, and validation does not always notice: with 2 bytes and 2
    threads, worker 0 reads only position 0, whose pattern byte is 0, so a
    failed open there leaves a buffer that still validates.
   */
  lemma SkippedWorkerUnnoticed(disk0: seq<byte>)
    ensures WorkerRange(2, 2, 0) == Range(0, 1)
    ensures ReadParallel(Clear(GenerateRandomData(NewFile("test.bin", 2))),
                         WrittenPattern(NewFile("test.bin", 2), disk0), 2, [false, true]).ok
    ensures StateMatchReference(ReadParallel(Clear(GenerateRandomData(NewFile("test.bin", 2))),
                                             WrittenPattern(NewFile("test.bin", 2), disk0),
                                             2, [false, true]).file)
  {
    var f := NewFile("test.bin", 2);
    ParallelValidationIff(f, disk0, 2, [false, true]);
    forall i, k | 0 <= i < 2 && ![false, true][i] && WorkerRange(2, 2, i).Contains(k)
      ensures k % 128 == 0
    {
      assert i == 0 && k == 0;
    }
  }
}
