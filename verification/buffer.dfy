/**
  The `file` struct of the disk benchmark: a target file name and size, the
  working buffer `data` that every read and write goes through, and the
  `reference_data` it is validated against.

  This module holds the buffer operations that touch no file:
  `generate_random_data`, `clear` and `state_match_reference`.
 */
module Buffer {
  import opened Machine

  datatype File = File(filename: string, fileSize: u64, data: seq<byte>, referenceData: seq<byte>)

  /** `file(filename, bytes)`: both buffers start empty. */
  function NewFile(filename: string, bytes: u64): (f: File)
    ensures f.filename == filename && f.fileSize == bytes
    ensures |f.data| == 0 && |f.referenceData| == 0
  {
    File(filename, bytes, [], [])
  }

  /** `file()`: `test.bin` of 2^30 bytes. */
  function DefaultFile(): (f: File)
    ensures f == NewFile("test.bin", 0x4000_0000)
  {
    File("test.bin", 0x4000_0000, [], [])
  }

  // ---------------------------------------------------------------------
  // generate_random_data
  // ---------------------------------------------------------------------

  /**
    The first `n` bytes the generator loop produces, one per iteration:
    byte `i` is `i % 128`.
   */
  function Pattern(n: nat): (p: seq<byte>)
    ensures |p| == n
    ensures forall k :: 0 <= k < n ==> p[k] as int == k % 128
  {
    if n == 0 then [] else Pattern(n - 1) + [((n - 1) % 128) as byte]
  }

  /**
    `generate_random_data`: resizes both buffers to `fileSize` and fills them
    with the same pattern. The loop counter is a `uint32_t`, so the loop only
    terminates for sizes below 2^32.
   */
  function GenerateRandomData(f: File): (g: File)
    requires f.fileSize < U32_LIMIT
    ensures g.filename == f.filename && g.fileSize == f.fileSize
    ensures |g.data| == f.fileSize && g.referenceData == g.data
    ensures forall k :: 0 <= k < |g.data| ==> g.data[k] as int == k % 128
  {
    var p := Pattern(f.fileSize);
    f.(data := p, referenceData := p)
  }

  /**
    The buffers only depend on the size: generating twice, or from two
    files of the same size, gives identical buffers.
   */
  lemma GenerateDeterministic(f: File, f': File)
    requires f.fileSize < U32_LIMIT && f.fileSize == f'.fileSize
    ensures GenerateRandomData(f).data == GenerateRandomData(f').data
    ensures GenerateRandomData(f).referenceData == GenerateRandomData(f').referenceData
    ensures GenerateRandomData(GenerateRandomData(f)) == GenerateRandomData(f)
  {
  }

  // ---------------------------------------------------------------------
  // clear
  // ---------------------------------------------------------------------

  /** `clear`: zero-fills the working buffer, leaving everything else alone. */
  function Clear(f: File): (g: File)
    ensures g.filename == f.filename && g.fileSize == f.fileSize
    ensures g.referenceData == f.referenceData
    ensures |g.data| == |f.data|
    ensures forall k :: 0 <= k < |g.data| ==> g.data[k] == 0
  {
    f.(data := seq(|f.data|, _ => 0))
  }

  /** Clearing is idempotent, and what it leaves depends only on the buffer's length. */
  lemma ClearIdempotent(f: File)
    ensures Clear(Clear(f)) == Clear(f)
    ensures forall d: seq<byte> :: |d| == |f.data| ==> Clear(f.(data := d)) == Clear(f)
  {
  }

  // ---------------------------------------------------------------------
  // state_match_reference
  // ---------------------------------------------------------------------

  /**
    The `transform_reduce` of `state_match_reference`: the number of
    positions of `data` at which it agrees with `reference`. It reads
    `reference` at every index of `data`.
   */
  function CountMatches(data: seq<byte>, reference: seq<byte>): (c: nat)
    requires |data| <= |reference|
    ensures c <= |data|
    ensures c == |data| <==> forall k :: 0 <= k < |data| ==> data[k] == reference[k]
  {
    if |data| == 0 then 0
    else
      (if data[0] == reference[0] then 1 else 0)
      + CountMatches(data[1..], reference[1..])
  }

  /**
    `state_match_reference`: true exactly when every byte of the working
    buffer equals the reference byte at the same position.
   */
  function StateMatchReference(f: File): (b: bool)
    requires |f.data| <= |f.referenceData|
    ensures b <==> f.data == f.referenceData[..|f.data|]
  {
    CountMatches(f.data, f.referenceData) == |f.data|
  }

  /** With buffers of equal length, validation is plain equality. */
  lemma ValidateIsEquality(f: File)
    requires |f.data| == |f.referenceData|
    ensures StateMatchReference(f) <==> f.data == f.referenceData
  {
    assert f.referenceData[..|f.data|] == f.referenceData;
  }

  /** Corrupting one byte of a buffer that passed validation makes it fail. */
  lemma CorruptionDetected(f: File, k: nat, b: byte)
    requires |f.data| <= |f.referenceData| && StateMatchReference(f)
    requires k < |f.data| && b != f.data[k]
    ensures !StateMatchReference(f.(data := f.data[k := b]))
  {
    var g := f.(data := f.data[k := b]);
    assert g.data[k] != g.referenceData[..|g.data|][k];
  }
}
