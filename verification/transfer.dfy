/**
  Moving bytes between the working buffer and the file on disk:
  `file::write` and the single-stream `file::read`, plus the positioned
  copy that both `read` and every worker of `read_parallel` perform.

  The file's contents are an ordinary byte sequence passed in and out, and
  whether opening a stream succeeds is an input flag: the file system is
  not part of this model. A stream positioned at `offset` and asked for
  `size` bytes delivers those of them that exist in the file.
 */
module Transfer {
  import opened Machine
  import opened Partition
  import opened Buffer

  /** What a read returns: the success flag and the updated `file`. */
  datatype ReadResult = ReadResult(ok: bool, file: File)

  /** Number of bytes a stream seeked to `r.offset` delivers when asked for `r.size` bytes. */
  function Delivered(disk: seq<byte>, r: Range): (n: nat)
    ensures n <= r.size
    ensures n > 0 ==> r.offset + n <= |disk|
    ensures r.End() <= |disk| ==> n == r.size
    ensures n < r.size ==> |disk| <= r.offset + n
  {
    if |disk| <= r.offset then 0
    else if r.End() <= |disk| then r.size
    else |disk| - r.offset
  }

  /**
    Reading range `r` of the file into the buffer at the same offset: the
    delivered prefix of the range is overwritten, every other byte kept.
    The buffer must be long enough to take the whole range.
   */
  function CopyRange(data: seq<byte>, disk: seq<byte>, r: Range): (d: seq<byte>)
    requires r.End() <= |data|
    ensures |d| == |data|
    ensures forall k :: 0 <= k < |d| ==>
              d[k] == if r.Contains(k) && k < |disk| then disk[k] else data[k]
  {
    var n := Delivered(disk, r);
    if n == 0 then data
    else data[..r.offset] + disk[r.offset..r.offset + n] + data[r.offset + n..]
  }

  /**
    `file::write`: when the output stream opens, the file becomes the first
    `fileSize` bytes of the buffer; when it does not, the file is left
    alone. The buffer must hold `fileSize` bytes.
   */
  function Write(f: File, disk: seq<byte>, openOk: bool): (disk': seq<byte>)
    requires f.fileSize <= |f.data|
    ensures !openOk ==> disk' == disk
    ensures openOk ==> |disk'| == f.fileSize
    ensures openOk ==> forall k :: 0 <= k < f.fileSize ==> disk'[k] == f.data[k]
  {
    if openOk then f.data[..f.fileSize] else disk
  }

  /**
    `file::read`: when the input stream does not open, nothing changes and
    the result is false; otherwise the first `fileSize` bytes are read and
    the result is the stream's `good()`, true exactly when the file held
    all of them.
   */
  function Read(f: File, disk: seq<byte>, openOk: bool): (r: ReadResult)
    requires f.fileSize <= |f.data|
    ensures r.ok <==> openOk && f.fileSize <= |disk|
    ensures r.file == f.(data := r.file.data)
    ensures |r.file.data| == |f.data|
    ensures forall k :: 0 <= k < |f.data| ==>
              r.file.data[k] == if openOk && k < f.fileSize && k < |disk| then disk[k] else f.data[k]
  {
    if !openOk then ReadResult(false, f)
    else ReadResult(f.fileSize <= |disk|, f.(data := CopyRange(f.data, disk, Range(0, f.fileSize))))
  }

  /**
    Reading back what was written restores the buffer exactly, whatever it
    held in between (in particular after `clear`), and the read reports
    success.
   */
  lemma WriteReadRoundTrip(f: File, g: File, disk: seq<byte>)
    requires |f.data| == f.fileSize
    requires g == f.(data := g.data) && |g.data| == |f.data|
    ensures Read(g, Write(f, disk, true), true) == ReadResult(true, f)
  {
    var r := Read(g, Write(f, disk, true), true);
    assert r.file.data == f.data;
  }
}
