/** The file system image byte by byte: where each number, block and directory entry is, and the round trip: an image
    laid out from given files and directory entries reads back as those files and those entries. */
module ImageLayout {
  import opened FileSystem
  import opened Directory
  import Strings

  // ---------------------------------------------------------------------------------------------
  // Where things are
  // ---------------------------------------------------------------------------------------------

  /** An image of n inode blocks and d data blocks: the boot block, which holds n and d, the inodes, the data. */
  predicate Parts(img: Image, boot: Bytes, inodes: Bytes, data: Bytes, n: nat, d: nat) {
    && img == boot + inodes + data
    && |boot| == 4096 && |inodes| == 4096 * n && |data| == 4096 * d
    && Holds32(boot, 4, n) && Holds32(boot, 8, d)
  }

  lemma SameNumber(s: Bytes, at: int, v: int, v': int)
    requires Holds32(s, at, v) && Holds32(s, at, v')
    ensures v == v'
  {
  }

  lemma SameHolds(s: Bytes, at: int, s': Bytes, at': int, v: int)
    requires Holds32(s, at, v) && 0 <= at' && at' + 4 <= |s'| && s'[at'..at' + 4] == s[at..at + 4]
    ensures Holds32(s', at', v)
  {
    var four, four' := s[at..at + 4], s'[at'..at' + 4];
    assert four[0] == four'[0] && four[1] == four'[1] && four[2] == four'[2] && four[3] == four'[3];
  }

  lemma SliceHolds(s: Bytes, at: nat, part: Bytes, off: nat, v: int)
    requires at + |part| <= |s| && s[at..at + |part|] == part && Holds32(part, off, v)
    ensures Holds32(s, at + off, v)
  {
    assert forall i {:trigger part[i]} :: 0 <= i < |part| ==> part[i] == s[at + i];
  }

  /** The boot block's two numbers are those of an image of that many blocks, and such an image is well formed. */
  lemma PartsWellFormed(img: Image, boot: Bytes, inodes: Bytes, data: Bytes, n: nat, d: nat)
    requires Parts(img, boot, inodes, data, n, d) && |img| < 0x1_0000_0000
    ensures WellFormed(img) && NumInodes(img) == n && NumDataBlocks(img) == d
  {
    SameHolds(boot, 4, img, 4, n);
    SameHolds(boot, 8, img, 8, d);
    WordHolds(img, 1);
    WordHolds(img, 2);
    SameNumber(img, 4, n, NumInodes(img));
    SameNumber(img, 8, d, NumDataBlocks(img));
  }

  lemma InodeWord(img: Image, boot: Bytes, inodes: Bytes, data: Bytes, n: nat, d: nat, w: nat, v: int)
    requires Parts(img, boot, inodes, data, n, d) && w < 1024 * n && Holds32(inodes, 4 * w, v)
    ensures HasWord(img, 1024 + w) && Word(img, 1024 + w) == v
  {
    SameHolds(inodes, 4 * w, img, 4096 + 4 * w, v);
    WordHolds(img, 1024 + w);
    SameNumber(img, 4 * (1024 + w), v, Word(img, 1024 + w));
  }

  /** The length of a file is the first number of its inode. */
  lemma LengthInBytes(img: Image, boot: Bytes, inodes: Bytes, data: Bytes, n: nat, d: nat, inode: nat, length: int)
    requires Parts(img, boot, inodes, data, n, d) && inode < n && Holds32(inodes, 4096 * inode, length)
    ensures HasWord(img, LengthWord(inode)) && FileLength(img, inode) == length
  {
    InodeWord(img, boot, inodes, data, n, d, 1024 * inode, length);
  }

  /** The number e that follows it j + 1 numbers on names data block e, and is good exactly when there is such a block:
      byte o of block j of the file is byte 4096 * e + o of the data. */
  lemma BlockInBytes(img: Image, boot: Bytes, inodes: Bytes, data: Bytes, n: nat, d: nat, inode: nat, j: nat, e: int,
                     o: nat)
    requires Parts(img, boot, inodes, data, n, d) && |img| < 0x1_0000_0000 && inode < n && j < 1023 && o < 4096
    requires Holds32(inodes, 4096 * inode + 4 * (j + 1), e)
    ensures WellFormed(img)
    ensures GoodEntry(img, inode, j) <==> e < d
    ensures e < d ==> IsFileByte(img, inode, 4096 * j + o, data[4096 * e + o])
  {
    PartsWellFormed(img, boot, inodes, data, n, d);
    InodeWord(img, boot, inodes, data, n, d, 1024 * inode + 1 + j, e);
    if e < d {
      assert (4096 * j + o) / 4096 == j && (4096 * j + o) % 4096 == o;
      assert img[4096 * (n + e + 1) + o] == data[4096 * e + o];
    }
  }

  function BlockCount(file: Bytes): nat {
    (|file| + 4095) / 4096
  }

  /** The bytes of the file in its j-th 4 KB. */
  function PieceSize(file: Bytes, j: nat): (m: nat)
    requires 4096 * j <= |file|
    ensures m <= 4096 && 4096 * j + m <= |file|
  {
    if |file| - 4096 * j < 4096 then |file| - 4096 * j else 4096
  }

  /** Inode i names data block e for the j-th 4 KB of the file, and there they are. */
  predicate StoresBlock(inodes: Bytes, data: Bytes, i: nat, file: Bytes, j: nat, e: nat) {
    && 4096 * j < |file| && Holds32(inodes, 4096 * i + 4 * (j + 1), e) && 4096 * e + 4096 <= |data|
    && data[4096 * e..4096 * e + PieceSize(file, j)] == file[4096 * j..4096 * j + PieceSize(file, j)]
  }

  /** Inode i stores the file in the data blocks of these numbers, in this order. */
  predicate StoresFile(inodes: Bytes, data: Bytes, i: nat, file: Bytes, blocks: seq<nat>) {
    && |file| <= 1023 * 4096 && |blocks| == BlockCount(file) && Holds32(inodes, 4096 * i, |file|)
    && forall j :: 0 <= j < |blocks| ==> StoresBlock(inodes, data, i, file, j, blocks[j])
  }

  lemma StoredByteReads(img: Image, boot: Bytes, inodes: Bytes, data: Bytes, n: nat, d: nat, i: nat, file: Bytes,
                        j: nat, e: nat, o: nat)
    requires Parts(img, boot, inodes, data, n, d) && |img| < 0x1_0000_0000 && i < n && j < 1023 && o < 4096
    requires StoresBlock(inodes, data, i, file, j, e)
    ensures WellFormed(img) && GoodEntry(img, i, j)
    ensures 4096 * j + o < |file| ==> IsFileByte(img, i, 4096 * j + o, file[4096 * j + o])
  {
    BlockInBytes(img, boot, inodes, data, n, d, i, j, e, o);
    if 4096 * j + o < |file| {
      var m := PieceSize(file, j);
      assert data[4096 * e + o] == data[4096 * e..4096 * e + m][o] == file[4096 * j..4096 * j + m][o];
    }
  }

  lemma StoredFileIsGood(img: Image, boot: Bytes, inodes: Bytes, data: Bytes, n: nat, d: nat, i: nat, file: Bytes,
                         blocks: seq<nat>)
    requires Parts(img, boot, inodes, data, n, d) && |img| < 0x1_0000_0000 && i < n
    requires StoresFile(inodes, data, i, file, blocks)
    ensures GoodFile(img, i) && FileLength(img, i) == |file|
  {
    PartsWellFormed(img, boot, inodes, data, n, d);
    LengthInBytes(img, boot, inodes, data, n, d, i, |file|);
    forall j | 0 <= j < Blocks(|file|)
      ensures GoodEntry(img, i, j)
    {
      StoredByteReads(img, boot, inodes, data, n, d, i, file, j, blocks[j], 0);
    }
  }

  lemma StoredByteInFile(img: Image, boot: Bytes, inodes: Bytes, data: Bytes, n: nat, d: nat, i: nat, file: Bytes,
                         blocks: seq<nat>, p: nat)
    requires Parts(img, boot, inodes, data, n, d) && |img| < 0x1_0000_0000 && i < n && p < |file|
    requires StoresFile(inodes, data, i, file, blocks) && GoodFile(img, i) && FileLength(img, i) == |file|
    ensures FileData(img, i)[p] == file[p]
  {
    var j, o := p / 4096, p % 4096;
    StoredByteReads(img, boot, inodes, data, n, d, i, file, j, blocks[j], o);
    FileByteIsData(img, i, p, file[p]);
  }

  /** Any image that stores a file this way, wherever its blocks are, reads back as the file. */
  lemma StoredFileReadsBack(img: Image, boot: Bytes, inodes: Bytes, data: Bytes, n: nat, d: nat, i: nat, file: Bytes,
                            blocks: seq<nat>)
    requires Parts(img, boot, inodes, data, n, d) && |img| < 0x1_0000_0000 && i < n
    requires StoresFile(inodes, data, i, file, blocks)
    ensures GoodFile(img, i) && FileData(img, i) == file
  {
    StoredFileIsGood(img, boot, inodes, data, n, d, i, file, blocks);
    forall p | 0 <= p < |file|
      ensures FileData(img, i)[p] == file[p]
    {
      StoredByteInFile(img, boot, inodes, data, n, d, i, file, blocks, p);
    }
  }

  // ---------------------------------------------------------------------------------------------
  // Laying out an image
  // ---------------------------------------------------------------------------------------------

  function Zeros(n: nat): (s: Bytes)
    ensures |s| == n
  {
    seq(n, _ => 0)
  }

  /** A number as four bytes, the lowest first. */
  function Bytes32(v: nat): (s: Bytes)
    requires v < 0x1_0000_0000
    ensures |s| == 4
  {
    [v % 0x100, v / 0x100 % 0x100, v / 0x1_0000 % 0x100, v / 0x100_0000]
  }

  lemma Bytes32Holds(v: nat)
    requires v < 0x1_0000_0000
    ensures Holds32(Bytes32(v), 0, v)
  {
    assert v / 0x1_0000 == v / 0x100 / 0x100 && v / 0x100_0000 == v / 0x1_0000 / 0x100;
  }

  predicate AllOf(parts: seq<Bytes>, size: nat) {
    forall k :: 0 <= k < |parts| ==> |parts[k]| == size
  }

  /** Parts of 4 KB, one after the other. */
  function Packed(parts: seq<Bytes>): (s: Bytes)
    requires AllOf(parts, 4096)
    ensures |s| == 4096 * |parts|
  {
    seq(4096 * |parts|, p requires 0 <= p < 4096 * |parts| && AllOf(parts, 4096) => parts[p / 4096][p % 4096])
  }

  /** Part k is where it belongs. */
  lemma PackedPart(parts: seq<Bytes>, k: nat)
    requires AllOf(parts, 4096) && k < |parts|
    ensures Packed(parts)[4096 * k..4096 * k + 4096] == parts[k]
  {
    forall o | 0 <= o < 4096
      ensures Packed(parts)[4096 * k + o] == parts[k][o]
    {
      assert (4096 * k + o) / 4096 == k && (4096 * k + o) % 4096 == o;
    }
  }

  /** The j-th 4 KB of a file, with zeros after its end. */
  function Piece(file: Bytes, j: nat): (s: Bytes)
    ensures |s| == 4096
  {
    seq(4096, o requires 0 <= o => if 4096 * j + o < |file| then file[4096 * j + o] else 0)
  }

  function Pieces(file: Bytes): (s: seq<Bytes>)
    ensures |s| == BlockCount(file)
  {
    seq(BlockCount(file), j requires 0 <= j => Piece(file, j))
  }

  /** The data blocks: the pieces of the first file, then those of the second, and so on. */
  function DataBlocks(files: seq<Bytes>): (s: seq<Bytes>)
    ensures AllOf(s, 4096)
  {
    if files == [] then [] else DataBlocks(files[..|files| - 1]) + Pieces(files[|files| - 1])
  }

  /** The number of the first data block of file i. */
  function FirstBlock(files: seq<Bytes>, i: nat): nat
    requires i <= |files|
  {
    |DataBlocks(files[..i])|
  }

  lemma {:induction false} PieceIsBlock(files: seq<Bytes>, i: nat, j: nat)
    requires i < |files| && j < BlockCount(files[i])
    ensures FirstBlock(files, i) + j < |DataBlocks(files)|
    ensures DataBlocks(files)[FirstBlock(files, i) + j] == Piece(files[i], j)
    decreases |files|
  {
    var last := |files| - 1;
    if i < last {
      PieceIsBlock(files[..last], i, j);
      assert files[..last][..i] == files[..i];
    }
  }

  /** An inode: the length, the numbers of the blocks, and zeros. */
  function InodeNumbers(length: nat, first: nat, count: nat): (s: seq<nat>)
    ensures |s| == 1024
  {
    seq(1024, w requires 0 <= w => if w == 0 then length else if w <= count then first + (w - 1) else 0)
  }

  predicate Numbers32(numbers: seq<nat>) {
    forall w :: 0 <= w < |numbers| ==> numbers[w] < 0x1_0000_0000
  }

  /** 1024 numbers, four bytes each. */
  function Words(numbers: seq<nat>): (s: Bytes)
    requires |numbers| == 1024 && Numbers32(numbers)
    ensures |s| == 4096
  {
    seq(4096, p requires 0 <= p < 4096 && |numbers| == 1024 && Numbers32(numbers) => Bytes32(numbers[p / 4])[p % 4])
  }

  lemma NumberAt(numbers: seq<nat>, w: nat)
    requires |numbers| == 1024 && Numbers32(numbers) && w < 1024
    ensures Holds32(Words(numbers), 4 * w, numbers[w])
  {
    var s, word := Words(numbers), Bytes32(numbers[w]);
    forall o | 0 <= o < 4
      ensures s[4 * w + o] == word[o]
    {
      assert (4 * w + o) / 4 == w && (4 * w + o) % 4 == o;
    }
    Bytes32Holds(numbers[w]);
    SliceHolds(s, 4 * w, word, 0, numbers[w]);
  }

  /** A name of at most 32 bytes without NUL; one of 32 is ended by the high byte of the type. */
  predicate Storable(e: Dentry) {
    && |e.name| <= 32 && 0 !in e.name
    && e.fileType < 0x1_0000_0000 && e.inode < 0x1_0000_0000
    && (|e.name| < 32 || e.fileType < 0x100_0000)
  }

  /** A directory entry: the name and NULs up to 32 bytes, the type, the inode number, and 24 more bytes. */
  function DentryPart(e: Dentry): (s: Bytes)
    requires Storable(e)
    ensures |s| == 64
  {
    e.name + Zeros(32 - |e.name|) + Bytes32(e.fileType) + Bytes32(e.inode) + Zeros(24)
  }

  predicate Listed(dir: seq<Dentry>) {
    |dir| <= 63 && forall k :: 0 <= k < |dir| ==> Storable(dir[k])
  }

  /** The boot block in parts of 64 bytes: the three counts, and 63 directory entries. */
  function BootPart(dir: seq<Dentry>, n: nat, d: nat, k: nat): (s: Bytes)
    requires Listed(dir) && n < 0x1_0000_0000 && d < 0x1_0000_0000
    ensures |s| == 64
  {
    if k == 0 then Bytes32(|dir|) + Bytes32(n) + Bytes32(d) + Zeros(52)
    else if k <= |dir| then DentryPart(dir[k - 1])
    else Zeros(64)
  }

  function BootBlock(dir: seq<Dentry>, n: nat, d: nat): (s: Bytes)
    requires Listed(dir) && n < 0x1_0000_0000 && d < 0x1_0000_0000
    ensures |s| == 4096
  {
    seq(4096, p requires 0 <= p < 4096 && Listed(dir) && n < 0x1_0000_0000 && d < 0x1_0000_0000 =>
      BootPart(dir, n, d, p / 64)[p % 64])
  }

  lemma BootPartAt(dir: seq<Dentry>, n: nat, d: nat, k: nat)
    requires Listed(dir) && n < 0x1_0000_0000 && d < 0x1_0000_0000 && k < 64
    ensures BootBlock(dir, n, d)[64 * k..64 * k + 64] == BootPart(dir, n, d, k)
  {
    forall o | 0 <= o < 64
      ensures BootBlock(dir, n, d)[64 * k + o] == BootPart(dir, n, d, k)[o]
    {
      assert (64 * k + o) / 64 == k && (64 * k + o) % 64 == o;
    }
  }

  /** The files and entries can be stored: at most 63 entries, files of at most 1023 blocks, and less than 4 GB in all.
      */
  predicate Fitting(files: seq<Bytes>, dir: seq<Dentry>) {
    && Listed(dir)
    && (forall i :: 0 <= i < |files| ==> |files[i]| <= 1023 * 4096)
    && 4096 * (1 + |files| + |DataBlocks(files)|) < 0x1_0000_0000
  }

  lemma FirstBlockInData(files: seq<Bytes>, i: nat)
    requires i < |files|
    ensures FirstBlock(files, i) + BlockCount(files[i]) <= |DataBlocks(files)|
    decreases |files|
  {
    var last := |files| - 1;
    if i < last {
      FirstBlockInData(files[..last], i);
      assert files[..last][..i] == files[..i];
    }
  }

  function InodeOf(files: seq<Bytes>, i: nat): (numbers: seq<nat>)
    requires i < |files|
    ensures |numbers| == 1024
  {
    InodeNumbers(|files[i]|, FirstBlock(files, i), BlockCount(files[i]))
  }

  lemma InodeOf32(files: seq<Bytes>, dir: seq<Dentry>, i: nat)
    requires Fitting(files, dir) && i < |files|
    ensures Numbers32(InodeOf(files, i))
  {
    FirstBlockInData(files, i);
  }

  function InodePart(files: seq<Bytes>, dir: seq<Dentry>, i: nat): (s: Bytes)
    requires Fitting(files, dir) && i < |files|
    ensures |s| == 4096
  {
    InodeOf32(files, dir, i);
    Words(InodeOf(files, i))
  }

  function InodeParts(files: seq<Bytes>, dir: seq<Dentry>): (parts: seq<Bytes>)
    requires Fitting(files, dir)
    ensures |parts| == |files| && AllOf(parts, 4096)
  {
    seq(|files|, i requires 0 <= i < |files| => InodePart(files, dir, i))
  }

  /** The image: the boot block, an inode block per file, the data blocks. */
  function Layout(files: seq<Bytes>, dir: seq<Dentry>): Image
    requires Fitting(files, dir)
  {
    BootBlock(dir, |files|, |DataBlocks(files)|) + Packed(InodeParts(files, dir)) + Packed(DataBlocks(files))
  }

  // ---------------------------------------------------------------------------------------------
  // Reading it back
  // ---------------------------------------------------------------------------------------------

  lemma HeaderHolds(dir: seq<Dentry>, n: nat, d: nat, boot: Bytes)
    requires Listed(dir) && n < 0x1_0000_0000 && d < 0x1_0000_0000 && boot == BootBlock(dir, n, d)
    ensures Holds32(boot, 0, |dir|) && Holds32(boot, 4, n) && Holds32(boot, 8, d)
  {
    var header := BootPart(dir, n, d, 0);
    BootPartAt(dir, n, d, 0);
    HeaderNumbers(header, |dir|, n, d);
    SliceHolds(boot, 0, header, 0, |dir|);
    SliceHolds(boot, 0, header, 4, n);
    SliceHolds(boot, 0, header, 8, d);
  }

  lemma HeaderNumbers(header: Bytes, count: nat, n: nat, d: nat)
    requires count < 0x1_0000_0000 && n < 0x1_0000_0000 && d < 0x1_0000_0000
    requires header == Bytes32(count) + Bytes32(n) + Bytes32(d) + Zeros(52)
    ensures Holds32(header, 0, count) && Holds32(header, 4, n) && Holds32(header, 8, d)
  {
    Bytes32Holds(count);
    Bytes32Holds(n);
    Bytes32Holds(d);
    SliceHolds(header, 0, Bytes32(count), 0, count);
    SliceHolds(header, 4, Bytes32(n), 0, n);
    SliceHolds(header, 8, Bytes32(d), 0, d);
  }

  lemma LayoutParts(files: seq<Bytes>, dir: seq<Dentry>)
    requires Fitting(files, dir)
    ensures |Layout(files, dir)| < 0x1_0000_0000
    ensures Parts(Layout(files, dir), BootBlock(dir, |files|, |DataBlocks(files)|), Packed(InodeParts(files, dir)),
                  Packed(DataBlocks(files)), |files|, |DataBlocks(files)|)
  {
    HeaderHolds(dir, |files|, |DataBlocks(files)|, BootBlock(dir, |files|, |DataBlocks(files)|));
  }

  /** Part k is where it belongs, for every k. */
  predicate IsPacked(s: Bytes, parts: seq<Bytes>) {
    |s| == 4096 * |parts| && forall k :: 0 <= k < |parts| ==> s[4096 * k..4096 * k + 4096] == parts[k]
  }

  lemma PackedIs(parts: seq<Bytes>)
    requires AllOf(parts, 4096)
    ensures IsPacked(Packed(parts), parts)
  {
    forall k | 0 <= k < |parts|
      ensures Packed(parts)[4096 * k..4096 * k + 4096] == parts[k]
    {
      PackedPart(parts, k);
    }
  }

  predicate IsWords(s: Bytes, numbers: seq<nat>) {
    |s| == 4096 && |numbers| == 1024 && forall w :: 0 <= w < 1024 ==> Holds32(s, 4 * w, numbers[w])
  }

  lemma WordsAre(numbers: seq<nat>)
    requires |numbers| == 1024 && Numbers32(numbers)
    ensures IsWords(Words(numbers), numbers)
  {
    forall w | 0 <= w < 1024
      ensures Holds32(Words(numbers), 4 * w, numbers[w])
    {
      NumberAt(numbers, w);
    }
  }

  /** Block first + k holds the k-th 4 KB of the file, for every k. */
  predicate HasPieces(blocks: seq<Bytes>, first: nat, file: Bytes) {
    first + BlockCount(file) <= |blocks|
    && forall k :: 0 <= k < BlockCount(file) ==> blocks[first + k] == Piece(file, k)
  }

  /** The inode's number for the k-th 4 KB. */
  lemma EntryNumber(length: nat, first: nat, count: nat, k: nat)
    requires count == (length + 4095) / 4096 && k < count && length <= 1023 * 4096
    ensures count <= 1023 && InodeNumbers(length, first, count)[k + 1] == first + k
  {
  }

  lemma PieceStored(data: Bytes, e: nat, file: Bytes, j: nat)
    requires 4096 * j < |file| && 4096 * e + 4096 <= |data| && data[4096 * e..4096 * e + 4096] == Piece(file, j)
    ensures data[4096 * e..4096 * e + PieceSize(file, j)] == file[4096 * j..4096 * j + PieceSize(file, j)]
  {
    var m := PieceSize(file, j);
    assert data[4096 * e..4096 * e + m] == Piece(file, j)[..m];
  }

  lemma PartsStoreBlock(inodes: Bytes, parts: seq<Bytes>, data: Bytes, blocks: seq<Bytes>, i: nat, file: Bytes,
                        first: nat, k: nat)
    requires IsPacked(inodes, parts) && i < |parts|
    requires IsWords(parts[i], InodeNumbers(|file|, first, BlockCount(file)))
    requires IsPacked(data, blocks) && HasPieces(blocks, first, file)
    requires k < BlockCount(file) && |file| <= 1023 * 4096
    ensures StoresBlock(inodes, data, i, file, k, first + k)
  {
    EntryNumber(|file|, first, BlockCount(file), k);
    SliceHolds(inodes, 4096 * i, parts[i], 4 * (k + 1), first + k);
    PieceStored(data, first + k, file, k);
  }

  function CountFrom(first: nat, count: nat): (blocks: seq<nat>)
    ensures |blocks| == count && forall k :: 0 <= k < count ==> blocks[k] == first + k
  {
    if count == 0 then [] else CountFrom(first, count - 1) + [first + (count - 1)]
  }

  lemma PartsStore(inodes: Bytes, parts: seq<Bytes>, data: Bytes, blocks: seq<Bytes>, i: nat, file: Bytes, first: nat)
    requires IsPacked(inodes, parts) && i < |parts|
    requires IsWords(parts[i], InodeNumbers(|file|, first, BlockCount(file)))
    requires IsPacked(data, blocks) && HasPieces(blocks, first, file) && |file| <= 1023 * 4096
    ensures StoresFile(inodes, data, i, file, CountFrom(first, BlockCount(file)))
  {
    var numbers := InodeNumbers(|file|, first, BlockCount(file));
    assert numbers[0] == |file|;
    SliceHolds(inodes, 4096 * i, parts[i], 0, |file|);
    var numbered := CountFrom(first, BlockCount(file));
    forall k | 0 <= k < |numbered|
      ensures StoresBlock(inodes, data, i, file, k, numbered[k])
    {
      PartsStoreBlock(inodes, parts, data, blocks, i, file, first, k);
    }
  }

  lemma PiecesInBlocks(files: seq<Bytes>, i: nat)
    requires i < |files|
    ensures HasPieces(DataBlocks(files), FirstBlock(files, i), files[i])
  {
    FirstBlockInData(files, i);
    forall k | 0 <= k < BlockCount(files[i])
      ensures DataBlocks(files)[FirstBlock(files, i) + k] == Piece(files[i], k)
    {
      PieceIsBlock(files, i, k);
    }
  }

  lemma InodeIsWords(files: seq<Bytes>, dir: seq<Dentry>, i: nat)
    requires Fitting(files, dir) && i < |files|
    ensures IsWords(InodeParts(files, dir)[i], InodeOf(files, i))
  {
    InodeOf32(files, dir, i);
    WordsAre(InodeOf(files, i));
  }

  /** The round trip of a file: its inode reads back as the file, whatever is in it, of up to 1023 blocks. */
  lemma FileReadsBack(files: seq<Bytes>, dir: seq<Dentry>, i: nat)
    requires Fitting(files, dir) && i < |files|
    ensures GoodFile(Layout(files, dir), i) && FileData(Layout(files, dir), i) == files[i]
  {
    var parts, blocks, first := InodeParts(files, dir), DataBlocks(files), FirstBlock(files, i);
    LayoutParts(files, dir);
    PackedIs(parts);
    PackedIs(blocks);
    InodeIsWords(files, dir, i);
    PiecesInBlocks(files, i);
    PartsStore(Packed(parts), parts, Packed(blocks), blocks, i, files[i], first);
    StoredFileReadsBack(Layout(files, dir), BootBlock(dir, |files|, |blocks|), Packed(parts), Packed(blocks),
                        |files|, |blocks|, i, files[i], CountFrom(first, BlockCount(files[i])));
  }

  lemma EntryPart(files: seq<Bytes>, dir: seq<Dentry>, k: nat)
    requires Fitting(files, dir) && k < |dir|
    ensures var img := Layout(files, dir);
      |img| >= 4096 && img[64 * (k + 1)..64 * (k + 1) + 64] == DentryPart(dir[k])
  {
    BootPartAt(dir, |files|, |DataBlocks(files)|, k + 1);
  }

  /** The name in a stored entry, and where it ends. */
  lemma PartName(part: Bytes, e: Dentry)
    requires Storable(e) && part == DentryPart(e)
    ensures var n := |e.name|; NoNul(part, n) && part[..n] == e.name && (n < 32 ==> part[n] == 0)
    ensures part[32..36] == Bytes32(e.fileType) && part[36..40] == Bytes32(e.inode)
    ensures |e.name| == 32 ==> part[35] == 0
  {
    assert part[..|e.name|] == e.name;
    assert part[32..36] == Bytes32(e.fileType) && part[36..40] == Bytes32(e.inode);
    assert part[35] == part[32..36][3];
  }

  lemma PartNumbers(part: Bytes, e: Dentry)
    requires Storable(e) && part == DentryPart(e)
    ensures Holds32(part, 32, e.fileType) && Holds32(part, 36, e.inode)
  {
    PartName(part, e);
    Bytes32Holds(e.fileType);
    Bytes32Holds(e.inode);
    SliceHolds(part, 32, Bytes32(e.fileType), 0, e.fileType);
    SliceHolds(part, 36, Bytes32(e.inode), 0, e.inode);
  }

  lemma RecordName(record: Bytes, part: Bytes, e: Dentry)
    requires Storable(e) && |record| >= 64 && record[..64] == part == DentryPart(e)
    ensures Terminated(record) && Text(record, 32) == e.name
  {
    var n := |e.name|;
    PartName(part, e);
    assert forall i {:trigger record[i]} :: 0 <= i < 64 ==> record[i] == part[i];
    assert record[..n] == part[..n];
    TextIs(record, 32, n);
    assert record[if n < 32 then n else 35] == 0;
  }

  lemma PartMeans(record: Bytes, e: Dentry)
    requires Storable(e) && |record| >= 64 && record[..64] == DentryPart(e)
    ensures Terminated(record) && Meaning(record) == e
  {
    var part := DentryPart(e);
    RecordName(record, part, e);
    PartNumbers(part, e);
    SliceHolds(record, 0, part, 32, e.fileType);
    SliceHolds(record, 0, part, 36, e.inode);
    WordHolds(record, 8);
    WordHolds(record, 9);
    SameNumber(record, 32, Word(record, 8), e.fileType);
    SameNumber(record, 36, Word(record, 9), e.inode);
  }

  /** The round trip of the directory: the names, types and inode numbers read back, in order. */
  lemma DirectoryReadsBack(files: seq<Bytes>, dir: seq<Dentry>)
    requires Fitting(files, dir)
    ensures GoodDirectory(Layout(files, dir)) && ImageEntries(Layout(files, dir)) == dir
  {
    var img := Layout(files, dir);
    LayoutParts(files, dir);
    HeaderHolds(dir, |files|, |DataBlocks(files)|, BootBlock(dir, |files|, |DataBlocks(files)|));
    SliceHolds(img, 0, BootBlock(dir, |files|, |DataBlocks(files)|), 0, |dir|);
    WordHolds(img, 0);
    forall k | 0 <= k < |dir|
      ensures Terminated(Record(img, k)) && Meaning(Record(img, k)) == dir[k]
    {
      EntryPart(files, dir, k);
      assert Record(img, k)[..64] == img[64 * (k + 1)..64 * (k + 1) + 64];
      PartMeans(Record(img, k), dir[k]);
    }
  }
}
