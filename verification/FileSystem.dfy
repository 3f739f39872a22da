/** The read-only file system image, read through byte addresses as the kernel reads it, and what read_data and
    file_read deliver of a file. */
module FileSystem {
  import F = FdTable
  import Strings

  const BLOCK := 4096
  const BLOCK_WORDS := 1024
  const NUM_DATA_BLOCKS := 1023
  const TABLE_BYTES := 4194304    // 1024 entries: the 1023 of the inode and the word after them

  type byte = Strings.byte
  type Image = seq<byte>

  predicate HasWord(img: Image, w: nat) {
    4 * w + 4 <= |img|
  }

  /** The number that n bytes of the image, lowest first, stand for. */
  function LittleEndian(img: Image, at: nat, n: nat): (v: nat)
    requires at + n <= |img|
    ensures n == 0 ==> v == 0
    ensures n == 1 ==> v < 0x100
    ensures n == 2 ==> v < 0x1_0000
    ensures n == 3 ==> v < 0x100_0000
    ensures n == 4 ==> v < 0x1_0000_0000
    decreases img, n
  {
    if n == 0 then 0 else img[at] + 0x100 * LittleEndian(img, at + 1, n - 1)
  }

  /** A 32-bit little-endian word. */
  function Word(img: Image, w: nat): (v: nat)
    requires HasWord(img, w)
    ensures v < 0x1_0000_0000
  {
    LittleEndian(img, 4 * w, 4)
  }

  lemma {:induction false} SameBytes(a: Image, b: Image, at: nat, n: nat)
    requires at + n <= |a| && at + n <= |b| && forall i :: at <= i < at + n ==> a[i] == b[i]
    ensures LittleEndian(a, at, n) == LittleEndian(b, at, n)
    decreases n
  {
    if n > 0 {
      SameBytes(a, b, at + 1, n - 1);
    }
  }

  /** The four bytes from `at` on are the number v, the lowest byte first. */
  predicate Holds32(s: seq<byte>, at: int, v: int) {
    && 0 <= at && at + 4 <= |s|
    && var b0: int, b1: int, b2: int, b3: int := s[at], s[at + 1], s[at + 2], s[at + 3];
       v == b0 + 0x100 * b1 + 0x1_0000 * b2 + 0x100_0000 * b3
  }

  lemma WordHolds(img: Image, w: nat)
    requires HasWord(img, w)
    ensures Holds32(img, 4 * w, Word(img, w))
  {
    var at := 4 * w;
    var b1: int, b2: int, b3: int := img[at + 1], img[at + 2], img[at + 3];
    assert LittleEndian(img, at + 4, 0) == 0;
    assert LittleEndian(img, at + 3, 1) == b3;
    assert LittleEndian(img, at + 2, 2) == b2 + 0x100 * b3;
    assert LittleEndian(img, at + 1, 3) == b1 + 0x100 * b2 + 0x1_0000 * b3;
  }

  predicate HasBootBlock(img: Image) {
    |img| >= BLOCK
  }

  function NumInodes(img: Image): nat
    requires HasBootBlock(img)
  {
    Word(img, 1)
  }

  function NumDataBlocks(img: Image): nat
    requires HasBootBlock(img)
  {
    Word(img, 2)
  }

  /** The image is as large as its boot block says, and fits the address space. */
  predicate WellFormed(img: Image) {
    HasBootBlock(img) && |img| == BLOCK * (1 + NumInodes(img) + NumDataBlocks(img)) < 0x1_0000_0000
  }

  function LengthWord(inode: nat): nat {
    (inode + 1) * BLOCK_WORDS
  }

  function FileLength(img: Image, inode: nat): nat
    requires HasWord(img, LengthWord(inode))
  {
    Word(img, LengthWord(inode))
  }

  function EntryWord(inode: nat, j: nat): nat {
    (inode + 1) * BLOCK_WORDS + 1 + j
  }

  /** data_blocks[j] as the code addresses it, also for j = 1023, one past the table. */
  function Entry(img: Image, inode: nat, j: nat): nat
    requires HasWord(img, EntryWord(inode, j))
  {
    Word(img, EntryWord(inode, j))
  }

  lemma EntriesInImage(img: Image, inode: nat, j: nat)
    requires WellFormed(img) && inode < NumInodes(img) && j <= NUM_DATA_BLOCKS
    requires j < NUM_DATA_BLOCKS || NumDataBlocks(img) > 0
    ensures HasWord(img, EntryWord(inode, j)) && HasWord(img, LengthWord(inode))
  {
  }

  /** One past its table, an inode's entry is the length of the next inode. */
  lemma EntryPastTable(img: Image, inode: nat)
    requires WellFormed(img) && inode + 1 < NumInodes(img)
    ensures HasWord(img, EntryWord(inode, 1023)) && HasWord(img, LengthWord(inode + 1))
    ensures Entry(img, inode, 1023) == FileLength(img, inode + 1)
  {
  }

  /** In bytes: there are n inodes and d data blocks, and e is data_blocks[j] of the inode. */
  predicate EntryIs(img: Image, inode: nat, j: nat, n: int, d: int, e: int) {
    Holds32(img, 4, n) && Holds32(img, 8, d) && Holds32(img, 4096 * (inode + 1) + 4 * (j + 1), e)
  }

  lemma EntryHolds(img: Image, inode: nat, j: nat)
    requires HasBootBlock(img) && HasWord(img, EntryWord(inode, j))
    ensures EntryIs(img, inode, j, NumInodes(img), NumDataBlocks(img), Entry(img, inode, j))
  {
    WordHolds(img, 1);
    WordHolds(img, 2);
    WordHolds(img, EntryWord(inode, j));
  }

  predicate GoodEntry(img: Image, inode: nat, j: nat)
    requires HasBootBlock(img)
  {
    HasWord(img, EntryWord(inode, j)) && Entry(img, inode, j) < NumDataBlocks(img)
  }

  function BlockAddress(img: Image, inode: nat, j: nat): (a: nat)
    requires WellFormed(img) && GoodEntry(img, inode, j)
    ensures a + BLOCK <= |img|
  {
    BLOCK * (NumInodes(img) + Entry(img, inode, j) + 1)
  }

  /** Byte p of the file. */
  function FileByte(img: Image, inode: nat, p: nat): byte
    requires WellFormed(img) && GoodEntry(img, inode, p / BLOCK)
  {
    img[BlockAddress(img, inode, p / BLOCK) + p % BLOCK]
  }

  predicate IsFileByte(img: Image, inode: nat, p: nat, b: byte)
    requires WellFormed(img)
  {
    GoodEntry(img, inode, p / BLOCK) && b == FileByte(img, inode, p)
  }

  /** data are the bytes of the file from offset on. */
  predicate FileBytes(img: Image, inode: nat, offset: nat, data: seq<byte>)
    requires WellFormed(img)
  {
    forall i :: 0 <= i < |data| ==> IsFileByte(img, inode, offset + i, data[i])
  }

  lemma FileBytesExtend(img: Image, inode: nat, offset: nat, data: seq<byte>, j: nat, n: nat)
    requires WellFormed(img) && FileBytes(img, inode, offset, data) && GoodEntry(img, inode, j)
    requires j * BLOCK <= offset + |data| && offset + |data| + n <= (j + 1) * BLOCK
    ensures var from := BlockAddress(img, inode, j) + (offset + |data| - j * BLOCK);
      FileBytes(img, inode, offset, data + img[from..from + n])
  {
    var from := BlockAddress(img, inode, j) + (offset + |data| - j * BLOCK);
    var data' := data + img[from..from + n];
    forall i | 0 <= i < |data'|
      ensures IsFileByte(img, inode, offset + i, data'[i])
    {
      if i < |data| {
        assert data'[i] == data[i];
      } else {
        assert (offset + i) / BLOCK == j;
      }
    }
  }

  // ---------------------------------------------------------------------------------------------
  // What a read visits and delivers
  // ---------------------------------------------------------------------------------------------

  /** The last table entry a read of length > 0 looks at. */
  function LastEntry(offset: nat, length: nat): nat
    requires length > 0
  {
    var j := (offset + length - 1) / BLOCK;
    if j <= NUM_DATA_BLOCKS then j else NUM_DATA_BLOCKS
  }

  predicate EntriesGood(img: Image, inode: nat, n: nat)
    requires HasBootBlock(img)
  {
    forall j :: 0 <= j < n ==> GoodEntry(img, inode, j)
  }

  predicate ReadFails(img: Image, inode: nat, offset: nat, length: nat)
    requires HasBootBlock(img)
  {
    inode >= NumInodes(img) || (length > 0 && !EntriesGood(img, inode, LastEntry(offset, length) + 1))
  }

  /** How many bytes a read that does not fail delivers: all of them, unless the 1024 visited entries run out. */
  function ReadCount(offset: nat, length: nat): (n: nat)
    ensures n <= length
  {
    if offset + length <= TABLE_BYTES then length else if offset < TABLE_BYTES then TABLE_BYTES - offset else 0
  }

  /** The number of leading good entries among the first n. */
  function GoodPrefix(img: Image, inode: nat, n: nat): (g: nat)
    requires HasBootBlock(img)
    ensures g <= n && EntriesGood(img, inode, g)
    ensures g < n ==> !GoodEntry(img, inode, g)
  {
    if n == 0 then 0
    else
      var g := GoodPrefix(img, inode, n - 1);
      if g == n - 1 && GoodEntry(img, inode, n - 1) then n else g
  }

  /** Bytes stored by a read, whether it fails part of the way or not. */
  function BytesStored(img: Image, inode: nat, offset: nat, length: nat): (n: nat)
    requires HasBootBlock(img)
    ensures n <= length
  {
    if inode >= NumInodes(img) || length == 0 then 0
    else
      var end := BLOCK * GoodPrefix(img, inode, LastEntry(offset, length) + 1);
      if end <= offset then 0 else if end < offset + length then end - offset else length
  }

  /** The last table entry a read looks at: the first bad one, or the one that completes it. */
  function LastVisited(img: Image, inode: nat, offset: nat, length: nat): nat
    requires HasBootBlock(img) && length > 0
  {
    var last := LastEntry(offset, length);
    var g := GoodPrefix(img, inode, last + 1);
    if g <= last then g else last
  }

  /** A read looks past the table of 1023 entries exactly when it ends after 1023 blocks and the whole table is good. */
  lemma LooksPastTableExactly(img: Image, inode: nat, offset: nat, length: nat)
    requires HasBootBlock(img) && length > 0
    ensures LastVisited(img, inode, offset, length) <= 1023
    ensures LastVisited(img, inode, offset, length) == 1023 <==>
      offset + length > 1023 * 4096 && EntriesGood(img, inode, 1023)
  {
    StaysInTable(offset, length);
  }

  /** Unless it fails before, a read looks at no entry past the table exactly when it ends within 1023 blocks. */
  lemma StaysInTable(offset: nat, length: nat)
    requires length > 0
    ensures LastEntry(offset, length) < 1023 <==> offset + length <= 1023 * 4096
  {
  }

  // ---------------------------------------------------------------------------------------------
  // The file as a sequence
  // ---------------------------------------------------------------------------------------------

  /** The first n data blocks of the file, one after the other. */
  function Content(img: Image, inode: nat, n: nat): (c: seq<byte>)
    requires WellFormed(img) && EntriesGood(img, inode, n)
    ensures |c| == n * BLOCK
  {
    if n == 0 then []
    else
      var a := BlockAddress(img, inode, n - 1);
      Content(img, inode, n - 1) + img[a..a + BLOCK]
  }

  lemma LastBlockInContent(img: Image, inode: nat, n: nat, p: nat)
    requires WellFormed(img) && 0 < n && EntriesGood(img, inode, n) && p < n * BLOCK
    ensures Content(img, inode, n)[p] ==
      if p < (n - 1) * BLOCK then Content(img, inode, n - 1)[p]
      else img[BlockAddress(img, inode, n - 1) + (p - (n - 1) * BLOCK)]
  {
    var a := BlockAddress(img, inode, n - 1);
    assert Content(img, inode, n) == Content(img, inode, n - 1) + img[a..a + BLOCK];
  }

  /** Byte o of block j is where it belongs in the first n blocks. */
  predicate InPlace(img: Image, inode: nat, n: nat, j: nat, o: nat)
    requires WellFormed(img) && EntriesGood(img, inode, n) && j < n && o < BLOCK
  {
    Content(img, inode, n)[j * BLOCK + o] == img[BlockAddress(img, inode, j) + o]
  }

  lemma LastInPlace(img: Image, inode: nat, j: nat, o: nat)
    requires WellFormed(img) && EntriesGood(img, inode, j + 1) && o < BLOCK
    ensures InPlace(img, inode, j + 1, j, o)
  {
    LastBlockInContent(img, inode, j + 1, j * BLOCK + o);
  }

  lemma StaysInPlace(img: Image, inode: nat, n: nat, j: nat, o: nat)
    requires WellFormed(img) && EntriesGood(img, inode, n + 1) && j < n && o < BLOCK && InPlace(img, inode, n, j, o)
    ensures InPlace(img, inode, n + 1, j, o)
  {
    LastBlockInContent(img, inode, n + 1, j * BLOCK + o);
  }

  lemma {:induction false} BlockInContent(img: Image, inode: nat, n: nat, j: nat, o: nat)
    requires WellFormed(img) && EntriesGood(img, inode, n) && j < n && o < BLOCK
    ensures InPlace(img, inode, n, j, o)
    decreases n
  {
    if j == n - 1 {
      LastInPlace(img, inode, j, o);
    } else {
      BlockInContent(img, inode, n - 1, j, o);
      StaysInPlace(img, inode, n - 1, j, o);
    }
  }

  lemma {:induction false} FileByteIsContent(img: Image, inode: nat, n: nat, p: nat)
    requires WellFormed(img) && EntriesGood(img, inode, n) && p < n * BLOCK
    ensures GoodEntry(img, inode, p / BLOCK) && FileByte(img, inode, p) == Content(img, inode, n)[p]
  {
    BlockInContent(img, inode, n, p / BLOCK, p % BLOCK);
  }

  /** Every block the file's length covers is in the table and in the image. */
  predicate GoodFile(img: Image, inode: nat) {
    && WellFormed(img) && inode < NumInodes(img) && HasWord(img, LengthWord(inode))
    && FileLength(img, inode) <= NUM_DATA_BLOCKS * BLOCK
    && EntriesGood(img, inode, Blocks(FileLength(img, inode)))
  }

  function Blocks(length: nat): nat {
    (length + BLOCK - 1) / BLOCK
  }

  /** The file. */
  function FileData(img: Image, inode: nat): (c: seq<byte>)
    requires GoodFile(img, inode)
    ensures |c| == FileLength(img, inode)
  {
    Content(img, inode, Blocks(FileLength(img, inode)))[..FileLength(img, inode)]
  }

  lemma FileByteIsData(img: Image, inode: nat, p: nat, b: byte)
    requires GoodFile(img, inode) && p < FileLength(img, inode) && IsFileByte(img, inode, p, b)
    ensures FileData(img, inode)[p] == b
  {
    FileByteIsContent(img, inode, Blocks(FileLength(img, inode)), p);
  }

  /** Inside a good file a read does not fail, delivers all it was asked for, and stays in the table. */
  lemma GoodRead(img: Image, inode: nat, offset: nat, length: nat)
    requires GoodFile(img, inode) && offset + length <= FileLength(img, inode)
    ensures !ReadFails(img, inode, offset, length) && ReadCount(offset, length) == length
    ensures length > 0 ==> LastEntry(offset, length) < NUM_DATA_BLOCKS
  {
    if length > 0 {
      StaysInTable(offset, length);
      assert LastEntry(offset, length) < Blocks(FileLength(img, inode));
    }
  }

  /** The bytes of a read within a good file are the slice of the file. */
  lemma ReadIsSlice(img: Image, inode: nat, offset: nat, data: seq<byte>)
    requires GoodFile(img, inode) && offset + |data| <= FileLength(img, inode)
    requires FileBytes(img, inode, offset, data)
    ensures data == FileData(img, inode)[offset..offset + |data|]
  {
    forall i | 0 <= i < |data|
      ensures data[i] == FileData(img, inode)[offset + i]
    {
      assert IsFileByte(img, inode, offset + i, data[i]);
      FileByteIsContent(img, inode, Blocks(FileLength(img, inode)), offset + i);
    }
  }

  // ---------------------------------------------------------------------------------------------
  // The kernel's reader
  // ---------------------------------------------------------------------------------------------

  /** An int32 seen as a uint32. */
  function AsUint32(n: int): nat
    requires -0x8000_0000 <= n < 0x8000_0000
  {
    if n >= 0 then n else n + 0x1_0000_0000
  }

  /** The bytes file_read asks read_data for; a negative count is compared as a uint32 and so asks for the rest. */
  function Wanted(img: Image, f: F.FdFile, nbytes: int): nat
    requires HasWord(img, LengthWord(f.inode)) && -0x8000_0000 <= nbytes < 0x8000_0000
  {
    var length := FileLength(img, f.inode);
    if f.filePos >= length then 0
    else if length - f.filePos > AsUint32(nbytes) then AsUint32(nbytes) else length - f.filePos
  }

  /** What one file_read delivers from a good file. */
  function Chunk(img: Image, f: F.FdFile, nbytes: int): (data: seq<byte>)
    requires GoodFile(img, f.inode) && -0x8000_0000 <= nbytes < 0x8000_0000
    ensures |data| == Wanted(img, f, nbytes)
  {
    var n := Wanted(img, f, nbytes);
    if n == 0 then [] else FileData(img, f.inode)[f.filePos..f.filePos + n]
  }

  /** From a good file a count of n >= 0 delivers n bytes or what is left of the file, and a negative count what is
      left. */
  lemma CountDelivers(img: Image, f: F.FdFile, nbytes: int)
    requires GoodFile(img, f.inode) && f.filePos <= FileLength(img, f.inode) && -0x8000_0000 <= nbytes < 0x8000_0000
    ensures var left := FileLength(img, f.inode) - f.filePos;
      Wanted(img, f, nbytes) == if 0 <= nbytes < left then nbytes else left
    ensures Chunk(img, f, nbytes) == FileData(img, f.inode)[f.filePos..f.filePos + Wanted(img, f, nbytes)]
  {
  }

  /** The descriptor after that read. */
  function AfterRead(img: Image, f: F.FdFile, nbytes: int): F.FdFile
    requires GoodFile(img, f.inode) && -0x8000_0000 <= nbytes < 0x8000_0000
  {
    f.(filePos := f.filePos + |Chunk(img, f, nbytes)|)
  }

  /** Only the bytes from lo up to hi may differ. */
  predicate SameOutside(after: seq<byte>, before: seq<byte>, lo: nat, hi: nat) {
    |after| == |before| && forall i {:trigger after[i]} :: 0 <= i < |after| && !(lo <= i < hi) ==> after[i] == before[i]
  }

  lemma SameOutsideTwice(after: seq<byte>, mid: seq<byte>, before: seq<byte>, lo: nat, p: nat, hi: nat)
    requires lo <= p <= hi && SameOutside(after, mid, p, hi) && SameOutside(mid, before, lo, p)
    ensures SameOutside(after, before, lo, hi)
  {
  }

  /** The first n bytes from the offset on are in the buffer from `at` on, and the rest of it is as it was. */
  predicate Stores(img: Image, inode: nat, offset: nat, after: seq<byte>, before: seq<byte>, at: nat, n: nat)
    requires WellFormed(img)
  {
    at + n <= |after| && SameOutside(after, before, at, at + n) && FileBytes(img, inode, offset, after[at..at + n])
  }

  lemma StoresMore(img: Image, inode: nat, offset: nat, after: seq<byte>, mid: seq<byte>, before: seq<byte>,
                   at: nat, m: nat, j: nat, n: nat)
    requires WellFormed(img) && Stores(img, inode, offset, mid, before, at, m) && GoodEntry(img, inode, j)
    requires j * BLOCK <= offset + m && offset + m + n <= (j + 1) * BLOCK
    requires at + m + n <= |after| && SameOutside(after, mid, at + m, at + m + n)
    requires var from := BlockAddress(img, inode, j) + (offset + m - j * BLOCK);
      after[at + m..at + m + n] == img[from..from + n]
    ensures Stores(img, inode, offset, after, before, at, m + n)
  {
    SameOutsideTwice(after, mid, before, at, at + m, at + m + n);
    FileBytesExtend(img, inode, offset, mid[at..at + m], j, n);
    assert after[at..at + m] == mid[at..at + m];
    assert after[at..at + m + n] == after[at..at + m] + after[at + m..at + m + n];
  }

  /** The loop of read_data before entry j: n bytes read, off bytes still to pass over. */
  predicate Reached(img: Image, inode: nat, offset: nat, length: nat, j: nat, off: nat, n: nat)
    requires HasBootBlock(img)
  {
    && j <= NUM_DATA_BLOCKS + 1 && EntriesGood(img, inode, j) && n < length
    && offset + n == j * BLOCK + off && (off > 0 ==> n == 0)
  }

  class Reader {
    const image: Image                // the image at boot_addr
    const fdArray: array<F.FdFile>    // the current process's descriptors

    constructor (img: Image, files: array<F.FdFile>)
      requires WellFormed(img) && files.Length == F.FD_ARRAY_SIZE
      ensures image == img && fdArray == files && Valid()
    {
      image := img;
      fdArray := files;
    }

    ghost predicate Valid() {
      WellFormed(image) && fdArray.Length == F.FD_ARRAY_SIZE
    }

    /** memcpy of n bytes from the image. */
    method Copy(buf: array<byte>, at: nat, from: nat, n: nat)
      requires at + n <= buf.Length && from + n <= |image|
      modifies buf
      ensures SameOutside(buf[..], old(buf[..]), at, at + n)
      ensures buf[..][at..at + n] == image[from..from + n]
    {
      forall i | at <= i < at + n {
        buf[i] := image[from + (i - at)];
      }
    }

    /** The copy of one step of read_data: what is left of block j from byte off on, or of the request. After it,
        the bytes stored so far are still bytes of the file. */
    method CopyPiece(ghost inode: nat, ghost offset: nat, buf: array<byte>, ghost before: seq<byte>, ghost at: nat,
                     ghost stored: nat, ptr: nat, ghost j: nat, dblockAddr: nat, off: nat, left: nat) returns (n: nat)
      requires Valid() && ptr == at + stored && ptr + left <= buf.Length && off < BLOCK
      requires Stores(image, inode, offset, buf[..], before, at, stored) && GoodEntry(image, inode, j)
      requires dblockAddr == BlockAddress(image, inode, j) && offset + stored == j * BLOCK + off
      modifies buf
      ensures n == if left < BLOCK - off then left else BLOCK - off
      ensures Stores(image, inode, offset, buf[..], before, at, stored + n)
    {
      var currBlockSize := BLOCK - off;
      n := if left < currBlockSize then left else currBlockSize;
      ghost var mid := buf[..];
      Copy(buf, ptr, dblockAddr + off, n);
      StoresMore(image, inode, offset, buf[..], mid, before, at, stored, j, n);
    }

    /** The check of one table entry, and the address of its block: -1 for a bad entry. */
    method LookUp(inode: nat, j: nat) returns (address: int)
      requires Valid() && inode < NumInodes(image) && j <= NUM_DATA_BLOCKS && (j > 0 ==> GoodEntry(image, inode, 0))
      ensures address == -1 <==> !GoodEntry(image, inode, j)
      ensures address != -1 ==> address == BlockAddress(image, inode, j)
      ensures forall n, d, e :: EntryIs(image, inode, j, n, d, e) ==>
        address == if e >= d then -1 else 4096 * (n + e + 1)
    {
      EntriesInImage(image, inode, j);
      EntryHolds(image, inode, j);
      if Entry(image, inode, j) >= NumDataBlocks(image) {
        return -1;
      }
      return BLOCK * (NumInodes(image) + Entry(image, inode, j) + 1);
    }

    /** One round of the loop of read_data: a bad entry (-1), a block passed over, or a piece of the block copied. */
    method ReadBlock(inode: nat, ghost offset: nat, buf: array<byte>, ghost before: seq<byte>, ghost at: nat,
                     stored: nat, ptr: nat, j: nat, off: nat, length: nat) returns (n: int)
      requires Valid() && inode < NumInodes(image) && Reached(image, inode, offset, length, j, off, stored)
      requires j <= NUM_DATA_BLOCKS && ptr == at + stored && at + length <= buf.Length
      requires Stores(image, inode, offset, buf[..], before, at, stored)
      modifies buf
      ensures n == -1 <==> !GoodEntry(image, inode, j)
      ensures n == -1 ==> buf[..] == old(buf[..])
      ensures n != -1 ==>
        n == if off >= BLOCK then 0 else if length - stored < BLOCK - off then length - stored else BLOCK - off
      ensures n != -1 ==> Stores(image, inode, offset, buf[..], before, at, stored + n)
    {
      assert j > 0 ==> GoodEntry(image, inode, 0);
      var dblockAddr := LookUp(inode, j);
      if dblockAddr == -1 {
        return -1;
      }
      if off >= BLOCK {
        return 0;
      }
      n := CopyPiece(inode, offset, buf, before, at, stored, ptr, j, dblockAddr, off, length - stored);
    }

    /** The loop of read_data. It ends at table entry j: a bad entry, the entry that completes the read, or the last. */
    method ReadBlocks(inode: nat, offset: nat, buf: array<byte>, at: nat, length: nat)
      returns (r: int, ghost j: nat, ghost stored: nat)
      requires Valid() && at + length <= buf.Length && inode < NumInodes(image) && length > 0
      modifies buf
      ensures j <= NUM_DATA_BLOCKS && j * BLOCK < offset + length && EntriesGood(image, inode, j)
      ensures r == -1 ==>
        !GoodEntry(image, inode, j) && stored == (if j * BLOCK <= offset then 0 else j * BLOCK - offset)
      ensures r != -1 ==> GoodEntry(image, inode, j) && (offset + length <= (j + 1) * BLOCK || j == NUM_DATA_BLOCKS)
      ensures r != -1 ==> r == stored == ReadCount(offset, length)
      ensures stored <= length && Stores(image, inode, offset, buf[..], old(buf[..]), at, stored)
    {
      var bytesRead: nat := 0;
      var dblockNum: nat := 0;
      var off: nat, ptr: nat := offset, at;
      while dblockNum <= NUM_DATA_BLOCKS
        invariant Reached(image, inode, offset, length, dblockNum, off, bytesRead) && ptr == at + bytesRead
        invariant Stores(image, inode, offset, buf[..], old(buf[..]), at, bytesRead)
        decreases NUM_DATA_BLOCKS - dblockNum
      {
        var n := ReadBlock(inode, offset, buf, old(buf[..]), at, bytesRead, ptr, dblockNum, off, length);
        if n == -1 {
          return -1, dblockNum, bytesRead;
        }
        if off >= BLOCK {
          off := off - BLOCK;
          dblockNum := dblockNum + 1;
          continue;
        }
        bytesRead := bytesRead + n;
        off := 0;
        if bytesRead == length {
          return bytesRead, dblockNum, bytesRead;
        }
        ptr := ptr + n;
        dblockNum := dblockNum + 1;
      }
      return bytesRead, NUM_DATA_BLOCKS, bytesRead;
    }

    /** read_data, storing from buf[at] on. */
    method ReadData(inode: nat, offset: nat, buf: array<byte>, at: nat, length: nat)
      returns (r: int, ghost visited: nat)
      requires Valid() && at + length <= buf.Length
      modifies buf
      ensures inode < NumInodes(image) && length > 0 ==> visited == LastVisited(image, inode, offset, length)
      ensures r == -1 <==> ReadFails(image, inode, offset, length)
      ensures r != -1 ==> r == ReadCount(offset, length) == BytesStored(image, inode, offset, length)
      ensures FileBytes(image, inode, offset, buf[at..at + BytesStored(image, inode, offset, length)])
      ensures SameOutside(buf[..], old(buf[..]), at, at + BytesStored(image, inode, offset, length))
    {
      if inode >= NumInodes(image) {
        return -1, 0;
      }
      if length == 0 {
        return 0, 0;
      }
      ghost var stored;
      r, visited, stored := ReadBlocks(inode, offset, buf, at, length);
      assert buf[..][at..at + stored] == buf[at..at + stored];
      if r == -1 {
        StoppedAt(image, inode, offset, length, visited);
      } else {
        FinishedAt(image, inode, offset, length, visited);
      }
    }

    /** read_data into the start of a buffer, seen from a good file. */
    method ReadSlice(inode: nat, offset: nat, buf: array<byte>, length: nat) returns (r: int)
      requires Valid() && length <= buf.Length
      modifies buf
      ensures r >= -1 && (r == -1 <==> ReadFails(image, inode, offset, length))
      ensures GoodFile(image, inode) && offset + length <= FileLength(image, inode) ==>
        r == length && buf[..] == FileData(image, inode)[offset..offset + length] + old(buf[length..])
    {
      ghost var visited;
      r, visited := ReadData(inode, offset, buf, 0, length);
      if GoodFile(image, inode) && offset + length <= FileLength(image, inode) {
        GoodRead(image, inode, offset, length);
        ReadIsSlice(image, inode, offset, buf[..length]);
      }
    }

    /** file_read_nopos: the start of the file, at most nbytes of it. */
    method FileReadNopos(fd: int, buf: array<byte>, nbytes: int) returns (r: int)
      requires Valid() && -0x8000_0000 <= nbytes < 0x8000_0000
      requires 0 <= fd < F.FD_ARRAY_SIZE ==>
        HasWord(image, LengthWord(fdArray[fd].inode)) && Wanted(image, fdArray[fd].(filePos := 0), nbytes) <= buf.Length
      modifies buf
      ensures !(0 <= fd < F.FD_ARRAY_SIZE) ==> r == -1 && buf[..] == old(buf[..])
      ensures 0 <= fd < F.FD_ARRAY_SIZE && GoodFile(image, fdArray[fd].inode) ==>
        var n := Wanted(image, fdArray[fd].(filePos := 0), nbytes);
        r == n && buf[..] == FileData(image, fdArray[fd].inode)[..n] + old(buf[n..])
    {
      if fd < 0 || fd >= F.FD_ARRAY_SIZE {
        return -1;
      }
      var inode := fdArray[fd].inode;
      var bytesCopy := FileLength(image, inode);
      if bytesCopy > AsUint32(nbytes) {
        bytesCopy := AsUint32(nbytes);
      }
      r := ReadSlice(inode, 0, buf, bytesCopy);
    }

    /** file_read: the next bytes of the file, at most nbytes, and the position moved past them. */
    method FileRead(fd: int, buf: array<byte>, nbytes: int) returns (r: int)
      requires Valid() && -0x8000_0000 <= nbytes < 0x8000_0000
      requires 0 <= fd < F.FD_ARRAY_SIZE ==>
        HasWord(image, LengthWord(fdArray[fd].inode)) && Wanted(image, fdArray[fd], nbytes) <= buf.Length
      modifies buf, fdArray
      ensures !(0 <= fd < F.FD_ARRAY_SIZE) ==> r == -1 && buf[..] == old(buf[..]) && fdArray[..] == old(fdArray[..])
      ensures 0 <= fd < F.FD_ARRAY_SIZE ==>
        var f := old(fdArray[fd]);
        var n := Wanted(image, f, nbytes);
        && r >= -1
        && (r == -1 <==> f.filePos < FileLength(image, f.inode) && ReadFails(image, f.inode, f.filePos, n))
        && fdArray[..] == old(fdArray[..])[fd := f.(filePos := if r == -1 then f.filePos else f.filePos + r)]
        && (GoodFile(image, f.inode) ==>
            && r == n && buf[..] == Chunk(image, f, nbytes) + old(buf[n..])
            && fdArray[fd] == AfterRead(image, f, nbytes))
      ensures 0 <= fd < 8 && GoodFile(image, old(fdArray[fd]).inode) ==>
        var f := old(fdArray[fd]);
        var left := FileLength(image, f.inode) - f.filePos;
        left >= 0 ==> r == if 0 <= nbytes < left then nbytes else left
    {
      if fd < 0 || fd >= F.FD_ARRAY_SIZE {
        return -1;
      }
      var f := fdArray[fd];
      if f.filePos >= FileLength(image, f.inode) {
        return 0;
      }
      var bytesCopy := FileLength(image, f.inode) - f.filePos;
      if bytesCopy > AsUint32(nbytes) {
        bytesCopy := AsUint32(nbytes);
      }
      r := ReadSlice(f.inode, f.filePos, buf, bytesCopy);
      if r == -1 {
        return -1;
      }
      fdArray[fd] := f.(filePos := f.filePos + r);
    }

    /** One read of cat from a good file: the next chunk, and the position moved past it. */
    method NextChunk(fd: int, buf: array<byte>) returns (cnt: int)
      requires Valid() && 0 <= fd < F.FD_ARRAY_SIZE && GoodFile(image, fdArray[fd].inode) && buf.Length == 1024
      requires fdArray[fd].filePos <= FileLength(image, fdArray[fd].inode)
      modifies buf, fdArray
      ensures var f := old(fdArray[fd]);
        var left := FileLength(image, f.inode) - f.filePos;
        && cnt == (if left > 1024 then 1024 else left)
        && buf[..cnt] == FileData(image, f.inode)[f.filePos..f.filePos + cnt]
        && fdArray[..] == old(fdArray[..])[fd := f.(filePos := f.filePos + cnt)]
    {
      cnt := FileRead(fd, buf, 1024);
    }

    /** The loop of the cat program: it ends, and prints the rest of the file. */
    method Cat(fd: int) returns (printed: seq<byte>, status: int)
      requires Valid() && 0 <= fd < F.FD_ARRAY_SIZE && GoodFile(image, fdArray[fd].inode)
      requires fdArray[fd].filePos <= FileLength(image, fdArray[fd].inode)
      modifies fdArray
      ensures var f := old(fdArray[fd]);
        && status == 0 && printed == FileData(image, f.inode)[f.filePos..]
        && fdArray[..] == old(fdArray[..])[fd := f.(filePos := FileLength(image, f.inode))]
    {
      ghost var f := fdArray[fd];
      ghost var data := FileData(image, f.inode);
      var buf := new byte[1024](_ => 0);
      printed := [];
      var cnt := NextChunk(fd, buf);
      ghost var done: nat := f.filePos;    // printed so far
      while cnt != 0
        modifies buf, fdArray
        invariant f.filePos <= done <= |data| && printed == data[f.filePos..done]
        invariant ChunkIn(buf[..], cnt, data, done)
        invariant fdArray[..] == old(fdArray[..])[fd := f.(filePos := done + cnt)]
        decreases |data| - done
      {
        if cnt == -1 {
          return printed, 3;
        }
        PrintChunk(data, f.filePos, done, cnt);
        printed := printed + buf[..cnt];
        done := done + cnt;
        cnt := NextChunk(fd, buf);
      }
      status := 0;
    }
  }

  /** The buffer holds the next chunk of the data. */
  predicate ChunkIn(buf: seq<byte>, cnt: int, data: seq<byte>, done: nat) {
    && done <= |data| && |buf| == 1024
    && cnt == (if |data| - done > 1024 then 1024 else |data| - done)
    && buf[..cnt] == data[done..done + cnt]
  }

  lemma PrintChunk(data: seq<byte>, from: nat, done: nat, cnt: nat)
    requires from <= done && done + cnt <= |data|
    ensures data[from..done] + data[done..done + cnt] == data[from..done + cnt]
  {
  }

  lemma StoppedAt(img: Image, inode: nat, offset: nat, length: nat, j: nat)
    requires HasBootBlock(img) && inode < NumInodes(img) && length > 0 && j <= NUM_DATA_BLOCKS
    requires EntriesGood(img, inode, j) && !GoodEntry(img, inode, j) && j * BLOCK < offset + length
    ensures ReadFails(img, inode, offset, length) && LastVisited(img, inode, offset, length) == j
    ensures BytesStored(img, inode, offset, length) == if j * BLOCK <= offset then 0 else j * BLOCK - offset
  {
    var last := LastEntry(offset, length);
    assert j <= last;
    var g := GoodPrefix(img, inode, last + 1);
    assert g == j;
  }

  lemma FinishedAt(img: Image, inode: nat, offset: nat, length: nat, j: nat)
    requires HasBootBlock(img) && inode < NumInodes(img) && length > 0 && j <= NUM_DATA_BLOCKS
    requires EntriesGood(img, inode, j + 1) && j * BLOCK < offset + length
    requires offset + length <= (j + 1) * BLOCK || j == NUM_DATA_BLOCKS
    ensures !ReadFails(img, inode, offset, length) && LastVisited(img, inode, offset, length) == j
    ensures BytesStored(img, inode, offset, length) == ReadCount(offset, length)
  {
    assert LastEntry(offset, length) == j;
    assert GoodPrefix(img, inode, j + 1) == j + 1;
  }
}
