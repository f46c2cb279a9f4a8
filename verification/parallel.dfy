/**
  `file::read_parallel`: `numThreads` workers, each with its own input
  stream, read their range of the partition plan into the shared buffer at
  the same offset; the call joins all of them and returns true.

  The workers write to the buffer without synchronisation. Because their
  ranges are disjoint, the outcome does not depend on how they interleave,
  so the threads are modelled as a fold of whole-range copies over a
  schedule: any sequence of worker indices, applied in order.
  `ScheduleIndependent` shows that every schedule that runs the same
  workers leaves the same buffer, which is what licenses the model.

  Whether worker `i`'s `ifstream` opens is the input `opens[i]`; a worker
  whose stream does not open returns early and leaves its range untouched.
 */
module ParallelRead {
  import opened Machine
  import opened Partition
  import opened Buffer
  import opened Transfer

  /** Every entry of the schedule names one of the `numThreads` workers. */
  predicate ValidSchedule(numThreads: nat, order: seq<nat>) {
    forall j :: 0 <= j < |order| ==> order[j] < numThreads
  }

  /** Byte `k` of the buffer is overwritten from the file by a worker of `order`. */
  predicate ReadByWorker(disk: seq<byte>, fileSize: u64, numThreads: u32, opens: seq<bool>,
                         order: seq<nat>, k: nat)
    requires 1 <= numThreads && |opens| == numThreads
  {
    && k < fileSize
    && k < |disk|
    && Owner(fileSize, numThreads, k) in order
    && opens[Owner(fileSize, numThreads, k)]
  }

  /**
    The body of worker `i`: if its stream opens, it copies its range of the
    file into the buffer; either way only the bytes it owns can change.
   */
  function WorkerStep(data: seq<byte>, disk: seq<byte>, fileSize: u64, numThreads: u32,
                      opens: seq<bool>, i: nat): (d: seq<byte>)
    requires 1 <= numThreads && i < numThreads && |opens| == numThreads
    requires fileSize <= |data|
    ensures |d| == |data|
    ensures forall k :: 0 <= k < |d| ==>
              d[k] == if opens[i] && k < fileSize && k < |disk| && Owner(fileSize, numThreads, k) == i
                      then disk[k] else data[k]
  {
    WorkerPositions(fileSize, numThreads, i);
    if opens[i] then CopyRange(data, disk, WorkerRange(fileSize, numThreads, i)) else data
  }

  /**
    Running the workers of `order` one after the other. A byte ends up
    holding the file's byte exactly when its owner is among the workers run
    and its owner's stream opened; every other byte keeps its old value.
   */
  function ApplySchedule(data: seq<byte>, disk: seq<byte>, fileSize: u64, numThreads: u32,
                         opens: seq<bool>, order: seq<nat>): (d: seq<byte>)
    requires 1 <= numThreads && |opens| == numThreads && fileSize <= |data|
    requires ValidSchedule(numThreads, order)
    ensures |d| == |data|
    ensures forall k :: 0 <= k < |d| ==>
              d[k] == if ReadByWorker(disk, fileSize, numThreads, opens, order, k) then disk[k] else data[k]
    decreases |order|
  {
    if |order| == 0 then data
    else
      var first := WorkerStep(data, disk, fileSize, numThreads, opens, order[0]);
      ApplySchedule(first, disk, fileSize, numThreads, opens, order[1..])
  }

  /** The workers in thread-creation order, `0 .. numThreads-1`. */
  function Workers(numThreads: nat): (order: seq<nat>)
    ensures |order| == numThreads
    ensures ValidSchedule(numThreads, order)
    ensures forall i :: 0 <= i < numThreads ==> i in order
  {
    if numThreads == 0 then [] else Workers(numThreads - 1) + [numThreads - 1]
  }

  /**
    `read_parallel(numThreads)`: returns true unconditionally; every byte of
    the file whose owner's stream opened is read into the buffer, and every
    other byte, including those past `fileSize`, keeps its value.
   */
  function ReadParallel(f: File, disk: seq<byte>, numThreads: u32, opens: seq<bool>): (r: ReadResult)
    requires numThreads >= 1 && |opens| == numThreads
    requires f.fileSize <= |f.data|
    ensures r.ok
    ensures r.file == f.(data := r.file.data)
    ensures |r.file.data| == |f.data|
    ensures forall k :: 0 <= k < |f.data| ==>
              r.file.data[k] == if k < f.fileSize && k < |disk| && opens[Owner(f.fileSize, numThreads, k)]
                                then disk[k] else f.data[k]
  {
    var order := Workers(numThreads);
    ReadResult(true, f.(data := ApplySchedule(f.data, disk, f.fileSize, numThreads, opens, order)))
  }

  /**
    Two schedules that run the same set of workers, in any order and with
    any repetitions, leave the same buffer: the unsynchronised writes of
    `read_parallel` cannot race.
   */
  lemma ScheduleIndependent(data: seq<byte>, disk: seq<byte>, fileSize: u64, numThreads: u32,
                            opens: seq<bool>, order1: seq<nat>, order2: seq<nat>)
    requires 1 <= numThreads && |opens| == numThreads && fileSize <= |data|
    requires ValidSchedule(numThreads, order1) && ValidSchedule(numThreads, order2)
    requires forall i :: i in order1 <==> i in order2
    ensures ApplySchedule(data, disk, fileSize, numThreads, opens, order1)
         == ApplySchedule(data, disk, fileSize, numThreads, opens, order2)
  {
    var d1 := ApplySchedule(data, disk, fileSize, numThreads, opens, order1);
    var d2 := ApplySchedule(data, disk, fileSize, numThreads, opens, order2);
    forall k | 0 <= k < |data|
      ensures d1[k] == d2[k]
    {
      assert ReadByWorker(disk, fileSize, numThreads, opens, order1, k)
         <==> ReadByWorker(disk, fileSize, numThreads, opens, order2, k);
    }
  }

  /**
    The outcome of `read_parallel` range by range: inside worker `i`'s range
    the buffer holds the file's bytes if `i`'s stream opened and its old
    bytes if not; beyond `fileSize` nothing changes.
   */
  lemma ReadParallelByRange(f: File, disk: seq<byte>, numThreads: u32, opens: seq<bool>)
    requires numThreads >= 1 && |opens| == numThreads
    requires f.fileSize <= |f.data|
    ensures forall i, k :: 0 <= i < numThreads && WorkerRange(f.fileSize, numThreads, i).Contains(k) ==>
              ReadParallel(f, disk, numThreads, opens).file.data[k]
              == if opens[i] && k < |disk| then disk[k] else f.data[k]
    ensures forall k :: f.fileSize <= k < |f.data| ==>
              ReadParallel(f, disk, numThreads, opens).file.data[k] == f.data[k]
  {
    forall i, k | 0 <= i < numThreads && WorkerRange(f.fileSize, numThreads, i).Contains(k)
      ensures ReadParallel(f, disk, numThreads, opens).file.data[k]
              == if opens[i] && k < |disk| then disk[k] else f.data[k]
    {
      ContainsIffOwner(f.fileSize, numThreads, i, k);
    }
  }

  /**
    With every stream opening, the parallel read leaves the buffer exactly
    as the single-stream `read` does, whatever the number of threads.
   */
  lemma ParallelMatchesSequential(f: File, disk: seq<byte>, numThreads: u32, opens: seq<bool>)
    requires numThreads >= 1 && |opens| == numThreads
    requires f.fileSize <= |f.data|
    requires forall i :: 0 <= i < numThreads ==> opens[i]
    ensures ReadParallel(f, disk, numThreads, opens).file == Read(f, disk, true).file
  {
    var p := ReadParallel(f, disk, numThreads, opens).file;
    var s := Read(f, disk, true).file;
    forall k | 0 <= k < |f.data|
      ensures p.data[k] == s.data[k]
    {
      if k < f.fileSize {
        assert opens[Owner(f.fileSize, numThreads, k)];
      }
    }
  }

  /**
    With every stream opening and a buffer of `fileSize` bytes, the buffer
    ends up equal to the file contents byte for byte.
   */
  lemma ReadParallelAllOpen(f: File, disk: seq<byte>, numThreads: u32, opens: seq<bool>)
    requires numThreads >= 1 && |opens| == numThreads
    requires |f.data| == f.fileSize <= |disk|
    requires forall i :: 0 <= i < numThreads ==> opens[i]
    ensures ReadParallel(f, disk, numThreads, opens).file.data == disk[..f.fileSize]
  {
    var p := ReadParallel(f, disk, numThreads, opens).file;
    forall k | 0 <= k < f.fileSize
      ensures p.data[k] == disk[k]
    {
      assert opens[Owner(f.fileSize, numThreads, k)];
    }
  }
}
