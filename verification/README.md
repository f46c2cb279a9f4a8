# Disk bandwidth benchmark: parallel chunked read, in Dafny

This project models the `file` struct of the disk benchmark
(`bandwidth/disk.cpp`). The struct holds a target file (`filename`,
`file_size`), a working buffer `data` and a `reference_data` buffer. Its
operations are:

- `generate_random_data` fills both buffers with the pattern `k % 128`;
- `write` and `read` move the whole buffer to and from the file through one stream;
- `clear` zero-fills the working buffer;
- `read_parallel(num_threads)` splits the file into `num_threads` byte ranges
  and reads each range on its own thread, with its own stream, into the same
  buffer;
- `state_match_reference` checks the working buffer against the reference.

The model is functional:

- A `File` datatype holds the struct's state. The file on disk is a byte
  sequence passed in and returned.
- Whether a stream opens is an input flag. `read_parallel` takes one flag
  per worker.
- `Partition` computes the range of every worker as `disk.cpp` does.
  `Owner` describes the same plan independently, from the side of a byte
  position, and the two are proved to agree.
- The threads of `read_parallel` are modelled as a fold of whole-range copies
  over a schedule of worker indices. `ScheduleIndependent` proves that every
  schedule running the same workers yields the same buffer. This holds
  because the ranges are disjoint, and it is why the unsynchronised writes
  are safe.

Files:

- `machine.dfy`: bytes and the `uint32_t`/`uint64_t` ranges.
- `partition.dfy`: the partition plan and its coverage, disjointness and size lemmas.
- `buffer.dfy`: `File`, `generate_random_data`, `clear`, `state_match_reference`.
- `transfer.dfy`: positioned copies, `write`, `read`.
- `parallel.dfy`: `read_parallel` as a fold over a schedule.
- `roundtrip.dfy`: the driver's generate → write → clear → read → validate
  sequence, and what validation detects.

Machine-level preconditions of the C++ code:

- `num_threads >= 1`, because `read_parallel` divides by it.
- `file_size < 2^32` for `generate_random_data`, because its `uint32_t` loop
  counter would otherwise wrap and the loop would never end.
- `file_size <= data.size()` for `read`, `write` and `read_parallel`,
  because these access `file_size` bytes of `data`.
- `data.size() <= reference_data.size()` for `state_match_reference`,
  because `transform_reduce` reads `reference_data` at every index of `data`.

The offsets and sizes of `read_parallel` are computed in `uint64_t`. They are
proved never to exceed `file_size`, so no wrap-around can occur there.

## Model

| member | source | states |
|---|---|---|
| Partition.ChunkSize | bandwidth/disk.cpp:63 | the chunk is the truncated quotient: `numThreads` chunks fit in the file and leave fewer than `numThreads` bytes over |
| Partition.WorkerRange | bandwidth/disk.cpp:69-70 | a worker's range never reaches past `file_size`, so offset and size stay inside `uint64_t` and inside a buffer of `file_size` bytes |
| Partition.Plan | bandwidth/disk.cpp:65-70 | one range per worker, `numThreads` in all, in thread-creation order, each the range worker `i`'s lambda computes |
| Partition.Owner | bandwidth/disk.cpp:63-70 | the independent per-byte description of the plan: every position of the file is assigned a valid worker index (`k / chunk`, capped at the last worker); that this agrees with the ranges is `ContainsIffOwner` |
| Partition.OwnerContains | bandwidth/disk.cpp:63-70 | the worker `Owner` names for a position of the file does hold that position in its range |
| Partition.ContainsIffOwner | bandwidth/disk.cpp:63-70 | worker `i`'s range holds position `k` if and only if `k < file_size` and `i` is `k`'s owner: one worker per byte, none past the end |
| Partition.PlanContiguous | bandwidth/disk.cpp:63-70 | worker 0 starts at 0, each later worker starts where the previous range ends, and the last range ends at `file_size` |
| Partition.PlanSizes | bandwidth/disk.cpp:63-70 | workers `0..n-2` get `file_size / n` bytes; the last gets `file_size - (n-1)*(file_size/n)`, at least `file_size/n` and below `file_size/n + n` |
| Partition.PrefixSum | bandwidth/disk.cpp:63-70 | the first `j < n` ranges together hold exactly `j` chunks |
| Partition.PlanSum | bandwidth/disk.cpp:63-70 | the range sizes add up to exactly `file_size` |
| Partition.PlanDisjoint | bandwidth/disk.cpp:69-70 | an earlier worker's range ends before a later one's starts, so distinct ranges are disjoint, also when the chunk is 0 |
| Partition.PlanCovers | bandwidth/disk.cpp:69-78 | every byte of `[0, file_size)` lies in its owner's range, no byte lies in two ranges, and no range holds a byte outside the file |
| Partition.PlanScenario1024By3 | bandwidth/disk.cpp:63-70 | 1024 bytes over 3 threads: (0,341), (341,341), (682,342) |
| Partition.PlanScenario10By4 | bandwidth/disk.cpp:63-70 | 10 bytes over 4 threads: (0,2), (2,2), (4,2), (6,4) |
| Partition.PlanScenario3By5 | bandwidth/disk.cpp:63-70 | more threads than bytes: four empty ranges at 0, and the last worker reads all 3 bytes |
| Buffer.NewFile | bandwidth/disk.cpp:35 | the constructor takes name and size and starts both buffers empty |
| Buffer.DefaultFile | bandwidth/disk.cpp:36 | the default file is `test.bin` of 2^30 bytes |
| Buffer.Pattern | bandwidth/disk.cpp:92-96 | the bytes the generator loop produces: `n` bytes, byte `k` equal to `k % 128` |
| Buffer.GenerateRandomData | bandwidth/disk.cpp:88-97 | both buffers get length `file_size` and equal contents, with byte `k` equal to `k % 128`; name and size unchanged |
| Buffer.GenerateDeterministic | bandwidth/disk.cpp:88-97 | the generated buffers depend on the size only; generating twice gives identical buffers |
| Buffer.Clear | bandwidth/disk.cpp:99-102 | the working buffer keeps its length and every byte becomes 0; reference, name and size are untouched |
| Buffer.ClearIdempotent | bandwidth/disk.cpp:99-102 | clearing twice is clearing once, and the result does not depend on the old contents |
| Buffer.CountMatches | bandwidth/disk.cpp:113-114 | the count of equal positions is at most `data.size()`, and reaches it exactly when every position agrees |
| Buffer.StateMatchReference | bandwidth/disk.cpp:111-116 | validation is true if and only if `data` equals the first `data.size()` bytes of the reference |
| Buffer.ValidateIsEquality | bandwidth/disk.cpp:111-116 | with buffers of equal length, validation is exactly buffer equality |
| Buffer.CorruptionDetected | bandwidth/disk.cpp:111-116 | changing one byte of a buffer that validated makes validation fail |
| Transfer.Delivered | bandwidth/disk.cpp:77-78 | a stream asked for a range delivers the whole range when the file holds it, and otherwise stops only at the end of the file |
| Transfer.CopyRange | bandwidth/disk.cpp:77-78 | reading a range at the same offset overwrites exactly the range's bytes that exist in the file and keeps every other byte |
| Transfer.Write | bandwidth/disk.cpp:38-47 | when the stream opens, the file becomes the first `file_size` bytes of the buffer; when it does not, the file is unchanged |
| Transfer.Read | bandwidth/disk.cpp:48-58 | false and no change when the stream does not open; otherwise the bytes the file holds are read, and the result is true exactly when it held `file_size` bytes |
| Transfer.WriteReadRoundTrip | bandwidth/disk.cpp:38-58 | reading back what was written restores the buffer exactly, whatever it held in between, and reports success |
| ParallelRead.WorkerStep | bandwidth/disk.cpp:69-78 | a worker changes only the bytes it owns, and only if its stream opened, to the file's bytes |
| ParallelRead.ApplySchedule | bandwidth/disk.cpp:65-84 | after any schedule of workers, a byte holds the file's byte exactly when its owner ran and opened its stream, else its old value |
| ParallelRead.Workers | bandwidth/disk.cpp:65-67 | thread creation starts every worker `0..n-1` |
| ParallelRead.ReadParallel | bandwidth/disk.cpp:60-87 | returns true always; a byte of the file is read when its owner's stream opened, and every other byte, including those past `file_size`, keeps its value |
| ParallelRead.ScheduleIndependent | bandwidth/disk.cpp:62-84 | any two schedules running the same workers, in any order and with repeats, leave identical buffers |
| ParallelRead.ReadParallelByRange | bandwidth/disk.cpp:69-78 | inside worker `i`'s range the buffer holds the file's bytes if `i` opened its stream and the old bytes if not |
| ParallelRead.ParallelMatchesSequential | bandwidth/disk.cpp:48-87 | with every stream opening, `read_parallel(n)` leaves the same buffer as `read`, for every `n` |
| ParallelRead.ReadParallelAllOpen | bandwidth/disk.cpp:71-78 | with every stream opening and a buffer of `file_size` bytes, the buffer equals the file byte for byte |
| RoundTrip.WrittenPattern | bandwidth/disk.cpp:38-47 | after generate and a successful write the file holds exactly the reference buffer |
| RoundTrip.SequentialRoundTrip | bandwidth/disk.cpp:128-151 | generate, write, clear, read: the read succeeds, the buffer is restored and validation passes |
| RoundTrip.ParallelValidationIff | bandwidth/disk.cpp:157-166 | after generate, write, clear, `read_parallel`, validation passes if and only if every position owned by a worker whose open failed is a multiple of 128 |
| RoundTrip.ParallelRoundTrip | bandwidth/disk.cpp:128-166 | with every stream opening, generate, write, clear, `read_parallel(n)` restores the buffer and validates, for every `n >= 1` |
| RoundTrip.SkippedWorkerDetected | bandwidth/disk.cpp:71-76 | a worker whose open failed and whose range has at least 2 bytes always makes validation fail |
| RoundTrip.SkippedWorkerUnnoticed | bandwidth/disk.cpp:71-86 | with 2 bytes, 2 threads and worker 0's open failing, `read_parallel` returns true and validation still passes |

## Left out

- `cpu_timer` (`bandwidth/disk.cpp:7-31`, `include/timer.hpp`) and `compute_gbs`: wall-clock time and floating point.
- `display` and `main`'s sweep loop, with its GB/s printing. These are console output and a driver loop. One trial's generate → write → clear → read → validate sequence is stated by the `RoundTrip` lemmas for every thread count, not only 2 to 8.
- Thread creation and `join`. Workers run as a sequential fold of whole-range copies. `ScheduleIndependent` shows the order does not matter. Interleavings finer than a whole range are not modelled. They cannot change the outcome either, because no two workers write the same byte (`PlanCovers`).
- Stream behaviour other than "opens or not" and "delivers the bytes the file has": `std::ifstream`/`std::ofstream` internals, error messages to `std::cerr`, and I/O errors in mid-transfer.
- Transfer.Write: does not model a write that fails after the stream opened, such as a full disk. `disk.cpp` does not check for this.
- Buffer.GenerateRandomData: requires `file_size < 2^32`. It does not model the non-terminating loop that the wrapping `uint32_t` counter gives for larger sizes.
- Transfer.Read, Transfer.Write and ParallelRead.ReadParallel: require `file_size <= data.size()`. The C++ code has undefined behaviour otherwise and does not check.
- Buffer.StateMatchReference: requires `data.size() <= reference_data.size()`. `transform_reduce` reads past the reference otherwise.
- Buffer.CountMatches: the `uint64_t` accumulator is unbounded here. It cannot overflow anyway, because the count is at most `data.size()`.
