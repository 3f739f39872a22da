/** Runs of file_read calls on the descriptors of one process, in any interleaving. */
module FileReads {
  import F = FdTable
  import opened FileSystem

  datatype Call = Call(fd: int, nbytes: int)

  /** The descriptor refers to a good file and stands inside it or at its end. */
  predicate GoodFd(img: Image, f: F.FdFile) {
    GoodFile(img, f.inode) && f.filePos <= FileLength(img, f.inode)
  }

  predicate Answered(img: Image, files: seq<F.FdFile>, c: Call) {
    && 0 <= c.fd < |files| && -0x8000_0000 <= c.nbytes < 0x8000_0000
    && GoodFd(img, files[c.fd])
  }

  function After(img: Image, files: seq<F.FdFile>, c: Call): (r: seq<F.FdFile>)
    requires Answered(img, files, c)
    ensures |r| == |files|
  {
    files[c.fd := AfterRead(img, files[c.fd], c.nbytes)]
  }

  predicate AllAnswered(img: Image, files: seq<F.FdFile>, calls: seq<Call>) {
    forall k :: 0 <= k < |calls| ==> Answered(img, files, calls[k])
  }

  lemma AnsweredAfter(img: Image, files: seq<F.FdFile>, calls: seq<Call>)
    requires calls != [] && AllAnswered(img, files, calls)
    ensures AllAnswered(img, After(img, files, calls[0]), calls[1..])
  {
    var files' := After(img, files, calls[0]);
    assert GoodFd(img, files'[calls[0].fd]);
    forall k | 0 <= k < |calls[1..]|
      ensures Answered(img, files', calls[1..][k])
    {
      assert Answered(img, files, calls[k + 1]);
    }
  }

  /** The descriptors after a run of calls. */
  function AfterAll(img: Image, files: seq<F.FdFile>, calls: seq<Call>): (r: seq<F.FdFile>)
    requires AllAnswered(img, files, calls)
    ensures |r| == |files|
    decreases |calls|
  {
    if calls == [] then files
    else
      AnsweredAfter(img, files, calls);
      AfterAll(img, After(img, files, calls[0]), calls[1..])
  }

  /** What a run of calls delivered on one descriptor, one chunk after the other. */
  function Delivered(img: Image, files: seq<F.FdFile>, calls: seq<Call>, fd: int): (data: seq<byte>)
    requires AllAnswered(img, files, calls)
    decreases |calls|
  {
    if calls == [] then []
    else
      AnsweredAfter(img, files, calls);
      var rest := Delivered(img, After(img, files, calls[0]), calls[1..], fd);
      if calls[0].fd == fd then Chunk(img, files[fd], calls[0].nbytes) + rest else rest
  }

  /** How many bytes a run of calls asked for on one descriptor. */
  function Asked(calls: seq<Call>, fd: int): nat
    requires forall k :: 0 <= k < |calls| ==> -0x8000_0000 <= calls[k].nbytes < 0x8000_0000
    decreases |calls|
  {
    if calls == [] then 0
    else (if calls[0].fd == fd then AsUint32(calls[0].nbytes) else 0) + Asked(calls[1..], fd)
  }

  /** A read answers 0 exactly when it asked for nothing or stands at the end; otherwise the rest of the file
      shrinks. */
  lemma ZeroExactlyAtEnd(img: Image, f: F.FdFile, nbytes: int)
    requires GoodFd(img, f) && -0x8000_0000 <= nbytes < 0x8000_0000
    ensures |Chunk(img, f, nbytes)| == 0 <==> nbytes == 0 || f.filePos == FileLength(img, f.inode)
    ensures var f' := AfterRead(img, f, nbytes);
      && GoodFd(img, f') && f'.inode == f.inode
      && (nbytes != 0 && f.filePos < FileLength(img, f.inode) ==>
           FileLength(img, f.inode) - f'.filePos < FileLength(img, f.inode) - f.filePos)
  {
  }

  /** The descriptor moved forward by n bytes, up to the end of the file. */
  function Advanced(img: Image, f: F.FdFile, n: nat): (r: F.FdFile)
    requires GoodFd(img, f)
    ensures f.filePos <= r.filePos <= FileLength(img, f.inode) && r.inode == f.inode
  {
    var length := FileLength(img, f.inode);
    f.(filePos := if f.filePos + n < length then f.filePos + n else length)
  }

  lemma ChunkThenRest(img: Image, f: F.FdFile, nbytes: int, n: nat)
    requires GoodFd(img, f) && -0x8000_0000 <= nbytes < 0x8000_0000
    ensures var f1 := AfterRead(img, f, nbytes);
      && GoodFd(img, f1) && f1.inode == f.inode
      && Advanced(img, f1, n) == Advanced(img, f, AsUint32(nbytes) + n)
      && var end := Advanced(img, f1, n).filePos;
         Chunk(img, f, nbytes) + FileData(img, f.inode)[f1.filePos..end] == FileData(img, f.inode)[f.filePos..end]
  {
  }

  /** However reads of several descriptors interleave, even of one file, each descriptor delivers consecutive bytes of
      its file: as many as were asked for on it, up to the end. */
  lemma {:induction false} ReadsAreConsecutive(img: Image, files: seq<F.FdFile>, calls: seq<Call>, fd: int)
    requires AllAnswered(img, files, calls) && 0 <= fd < |files| && GoodFd(img, files[fd])
    ensures AfterAll(img, files, calls)[fd] == Advanced(img, files[fd], Asked(calls, fd))
    ensures Delivered(img, files, calls, fd)
         == FileData(img, files[fd].inode)[files[fd].filePos..AfterAll(img, files, calls)[fd].filePos]
    decreases |calls|
  {
    if calls != [] {
      AnsweredAfter(img, files, calls);
      if calls[0].fd == fd {
        ChunkThenRest(img, files[fd], calls[0].nbytes, Asked(calls[1..], fd));
      }
      ReadsAreConsecutive(img, After(img, files, calls[0]), calls[1..], fd);
    }
  }

  /** Reading from the start until a read answers 0 delivers the file, whatever the sizes of the pieces. */
  lemma ReadToTheEnd(img: Image, files: seq<F.FdFile>, calls: seq<Call>, fd: int, nbytes: int)
    requires AllAnswered(img, files, calls) && 0 <= fd < |files| && GoodFd(img, files[fd]) && files[fd].filePos == 0
    requires -0x8000_0000 <= nbytes < 0x8000_0000 && nbytes != 0
    ensures GoodFd(img, AfterAll(img, files, calls)[fd])
    ensures |Chunk(img, AfterAll(img, files, calls)[fd], nbytes)| == 0 <==>
      Delivered(img, files, calls, fd) == FileData(img, files[fd].inode)
  {
    ReadsAreConsecutive(img, files, calls, fd);
    ZeroExactlyAtEnd(img, AfterAll(img, files, calls)[fd], nbytes);
  }

  /** What was asked for, when every count is positive. */
  predicate CountsUp(calls: seq<Call>) {
    forall k :: 0 <= k < |calls| ==> 0 <= calls[k].nbytes < 0x8000_0000
  }

  function Sum(calls: seq<Call>, fd: int): int
    decreases |calls|
  {
    if calls == [] then 0 else (if calls[0].fd == fd then calls[0].nbytes else 0) + Sum(calls[1..], fd)
  }

  lemma {:induction false} AskedIsSum(calls: seq<Call>, fd: int)
    requires CountsUp(calls)
    ensures Asked(calls, fd) == Sum(calls, fd) >= 0
    decreases |calls|
  {
    if calls != [] {
      AskedIsSum(calls[1..], fd);
    }
  }

  /** open and read together: the descriptor of a file of type 2 that open returns delivers the file of its inode from
      its start, as many bytes as the counts add up to or all of it, however reads of other descriptors interleave. */
  lemma OpenedFileReads(img: Image, t: F.Table, inode: nat, calls: seq<Call>)
    requires F.Tidy(t) && F.Open(t, F.Entry(2, inode)).fd != -1 && GoodFile(img, inode)
    requires AllAnswered(img, F.Open(t, F.Entry(2, inode)).table.files, calls) && CountsUp(calls)
    ensures var r, data := F.Open(t, F.Entry(2, inode)), FileData(img, inode);
      Delivered(img, r.table.files, calls, r.fd) ==
        if 0 <= Sum(calls, r.fd) < |data| then data[..Sum(calls, r.fd)] else data
  {
    var r := F.Open(t, F.Entry(2, inode));
    F.OpenTakesLeastFree(t, F.Entry(2, inode));
    AskedIsSum(calls, r.fd);
    ReadsAreConsecutive(img, r.table.files, calls, r.fd);
  }
}
