/** The directory: loading its entries from the boot block, finding one by name or by index, and listing their names. A
    pointer to bytes is modelled as the sequence of bytes from it on. */
module Directory {
  import opened FileSystem
  import Strings

  const MAX_FILE_NAME_LENGTH := 32
  const MAX_NUM_DIR_ENTRIES := 63
  const DIR_BYTES := 64            // from one entry of the image to the next
  const FILE_TYPE := 8             // words into an entry
  const INODE_NUM := 9
  const DENTRY_BYTES := 40         // dentry_t: the name, the type, the inode number, with nothing between them

  const NEWLINE: byte := 10

  type Bytes = seq<byte>

  /** A directory entry as it is meant: a name of up to 32 bytes, a type and an inode number. */
  datatype Dentry = Dentry(name: Bytes, fileType: nat, inode: nat)

  /** The bytes before the first NUL, at most n. */
  function Text(s: Bytes, n: nat): (t: Bytes)
    ensures |t| <= n && |t| <= |s| && t == s[..|t|]
  {
    if n == 0 || s == [] || s[0] == 0 then [] else [s[0]] + Text(s[1..], n - 1)
  }

  /** The first k bytes of s hold no NUL. */
  predicate NoNul(s: Bytes, k: nat) {
    k <= |s| && forall i :: 0 <= i < k ==> s[i] != 0
  }

  lemma {:induction false} TextIs(s: Bytes, n: nat, k: nat)
    requires k <= n && NoNul(s, k) && (k == n || (k < |s| && s[k] == 0))
    ensures Text(s, n) == s[..k]
  {
    if k > 0 {
      TextIs(s[1..], n - 1, k - 1);
    }
  }

  /** It is the text of the first n bytes. */
  lemma {:induction false} TextOfFirst(s: Bytes, n: nat)
    requires n <= |s|
    ensures Text(s, n) == Strings.Text(s[..n])
  {
    if n > 0 && s[0] != 0 {
      assert s[..n][1..] == s[1..][..n - 1];
      TextOfFirst(s[1..], n - 1);
    }
  }

  function Meaning(record: Bytes): Dentry
    requires |record| >= DENTRY_BYTES
  {
    Dentry(Text(record, MAX_FILE_NAME_LENGTH), Word(record, FILE_TYPE), Word(record, INODE_NUM))
  }

  /** The string that starts at the name: a name of 32 bytes runs on into the type and the inode number. */
  function CString(record: Bytes): Bytes {
    Text(record, DENTRY_BYTES)
  }

  /** The string s ends at a NUL, its k-th byte. */
  predicate EndsAt(s: Bytes, k: nat) {
    NoNul(s, k) && k < |s| && s[k] == 0
  }

  /** There is a NUL within the 40 bytes a dentry_t holds; a name of 32 bytes has none of its own. */
  predicate Terminated(record: Bytes) {
    |record| >= DENTRY_BYTES && exists i :: 0 <= i < DENTRY_BYTES && record[i] == 0
  }

  function Record(img: Image, d: nat): Bytes
    requires HasBootBlock(img) && d < MAX_NUM_DIR_ENTRIES
  {
    img[DIR_BYTES * (d + 1)..]
  }

  predicate GoodDirectory(img: Image) {
    && HasBootBlock(img) && Word(img, 0) <= MAX_NUM_DIR_ENTRIES
    && forall d :: 0 <= d < Word(img, 0) ==> Terminated(Record(img, d))
  }

  /** The directory of the image. */
  function ImageEntries(img: Image): (dir: seq<Dentry>)
    requires GoodDirectory(img)
    ensures |dir| == Word(img, 0) && forall d :: 0 <= d < |dir| ==> dir[d] == Meaning(Record(img, d))
  {
    seq(Word(img, 0), d requires 0 <= d < Word(img, 0) => Meaning(Record(img, d)))
  }

  /** The first entry with the name, from entry d on, or the number of entries. */
  function IndexOf(dir: seq<Dentry>, name: Bytes, d: nat): (r: nat)
    requires d <= |dir|
    ensures d <= r <= |dir| && (r < |dir| ==> dir[r].name == name)
    ensures forall k :: d <= k < r ==> dir[k].name != name
    decreases |dir| - d
  {
    if d == |dir| || dir[d].name == name then d else IndexOf(dir, name, d + 1)
  }

  // ---------------------------------------------------------------------------------------------
  // C strings
  // ---------------------------------------------------------------------------------------------

  function Signed8(b: byte): int {
    if b < 128 then b else b - 256
  }

  /** The difference of two bytes seen as int8. */
  function SignedGap(a: int, b: int): int {
    (if a < 128 then a else a - 256) - (if b < 128 then b else b - 256)
  }

  /** A string strncmp may compare n bytes of: it stops at a NUL. */
  predicate Comparable(s: Bytes, n: nat) {
    n <= |s| || exists k :: 0 <= k < |s| && s[k] == 0
  }

  /** The first k bytes are the same and none of them is NUL. */
  predicate AgreeTo(a: Bytes, b: Bytes, k: nat) {
    k <= |a| && k <= |b| && forall j :: 0 <= j < k ==> a[j] == b[j] != 0
  }

  lemma {:induction false} TextsDiffer(a: Bytes, b: Bytes, n: nat, k: nat)
    requires AgreeTo(a, b, k) && k < n && k < |a| && k < |b| && a[k] != b[k]
    ensures Text(a, n) != Text(b, n)
  {
    if k > 0 {
      TextsDiffer(a[1..], b[1..], n - 1, k - 1);
      assert Text(a, n)[1..] == Text(a[1..], n - 1) && Text(b, n)[1..] == Text(b[1..], n - 1);
    } else if a[0] != 0 && b[0] != 0 {
      assert Text(a, n)[0] == a[0] && Text(b, n)[0] == b[0];
    }
  }

  lemma SameText(a: Bytes, b: Bytes, n: nat, k: nat)
    requires AgreeTo(a, b, k) && k <= n && (k == n || (k < |a| && k < |b| && a[k] == b[k] == 0))
    ensures Text(a, n) == Text(b, n)
  {
    TextIs(a, n, k);
    TextIs(b, n, k);
  }

  /** strncmp: 0 exactly for equal texts; otherwise the signed difference at the first place where they differ. */
  method StrNCmp(a: Bytes, b: Bytes, n: nat) returns (r: int)
    requires Comparable(a, n) && Comparable(b, n)
    ensures r == 0 <==> Text(a, n) == Text(b, n)
    ensures r != 0 ==>
      exists k :: 0 <= k < n && k < |a| && k < |b| && AgreeTo(a, b, k) && r == SignedGap(a[k], b[k])
  {
    var i := 0;
    while i < n
      invariant 0 <= i <= n && AgreeTo(a, b, i)
    {
      if a[i] != b[i] || a[i] == 0 {
        if a[i] != b[i] {
          TextsDiffer(a, b, n, i);
        } else {
          SameText(a, b, n, i);
        }
        return Signed8(a[i]) - Signed8(b[i]);
      }
      i := i + 1;
    }
    SameText(a, b, n, n);
    return 0;
  }

  method StrLen(s: Bytes, ghost k: nat) returns (len: nat)
    requires EndsAt(s, k)
    ensures len == k
  {
    len := 0;
    while s[len] != 0
      invariant len <= k
      decreases k - len
    {
      len := len + 1;
    }
  }

  function FirstNul(s: Bytes, i: nat): (k: nat)
    requires NoNul(s, i) && exists j :: i <= j < |s| && s[j] == 0
    ensures EndsAt(s, k) && k >= i && forall j :: i <= j < |s| && s[j] == 0 ==> k <= j
    decreases |s| - i
  {
    if s[i] == 0 then i else FirstNul(s, i + 1)
  }

  // ---------------------------------------------------------------------------------------------
  // Copying an entry
  // ---------------------------------------------------------------------------------------------

  /** strcpy into a dentry_t from its name on: a name of 32 bytes runs on into the type and the inode number. */
  method StrCpy(dest: array<byte>, src: Bytes, ghost k: nat)
    requires EndsAt(src, k) && k < dest.Length
    modifies dest
    ensures forall i :: 0 <= i < dest.Length ==> dest[i] == if i <= k then src[i] else old(dest[i])
  {
    var i := 0;
    while src[i] != 0
      invariant 0 <= i <= k
      invariant forall j :: 0 <= j < dest.Length ==> dest[j] == if j < i then src[j] else old(dest[j])
      decreases k - i
    {
      dest[i] := src[i];
      i := i + 1;
    }
    dest[i] := 0;
  }

  /** A 32-bit field of a dentry_t stored from the same field of an entry. */
  method StoreField(dest: array<byte>, src: Bytes, w: nat)
    requires dest.Length == DENTRY_BYTES && w < 10 && |src| >= DENTRY_BYTES
    modifies dest
    ensures forall i :: 0 <= i < DENTRY_BYTES ==> dest[i] == if 4 * w <= i < 4 * w + 4 then src[i] else old(dest[i])
  {
    dest[4 * w] := src[4 * w];
    dest[4 * w + 1] := src[4 * w + 1];
    dest[4 * w + 2] := src[4 * w + 2];
    dest[4 * w + 3] := src[4 * w + 3];
  }

  /** A dentry_t that means what the record means. */
  predicate Loaded(copy: Bytes, record: Bytes)
    requires |record| >= DENTRY_BYTES
  {
    && |copy| == DENTRY_BYTES && Terminated(copy)
    && Meaning(copy) == Meaning(record) && CString(copy) == CString(record)
  }

  /** strcpy and two stores. The stores repair what a long name ran over: the copy means what the original means. */
  method CopyDentry(dest: array<byte>, src: Bytes)
    requires dest.Length == DENTRY_BYTES && Terminated(src)
    modifies dest
    ensures Loaded(dest[..], src)
  {
    ghost var k := FirstNul(src, 0);
    StrCpy(dest, src, k);
    StoreField(dest, src, FILE_TYPE);
    StoreField(dest, src, INODE_NUM);
    CopyMeans(dest[..], src, k);
  }

  lemma CopiedText(copy: Bytes, src: Bytes, n: nat, k: nat)
    requires EndsAt(src, k) && k < |copy| && forall i :: 0 <= i <= k && i < |copy| ==> copy[i] == src[i]
    ensures Text(copy, n) == Text(src, n)
  {
    var m := if k < n then k else n;
    TextIs(copy, n, m);
    TextIs(src, n, m);
    assert copy[..m] == src[..m];
  }

  lemma CopyMeans(copy: Bytes, src: Bytes, k: nat)
    requires |src| >= DENTRY_BYTES == |copy| && k < DENTRY_BYTES && EndsAt(src, k)
    requires forall i :: 0 <= i < DENTRY_BYTES && (i <= k || i >= MAX_FILE_NAME_LENGTH) ==> copy[i] == src[i]
    ensures Loaded(copy, src)
  {
    CopiedText(copy, src, MAX_FILE_NAME_LENGTH, k);
    CopiedText(copy, src, DENTRY_BYTES, k);
    SameBytes(copy, src, 4 * FILE_TYPE, 4);
    SameBytes(copy, src, 4 * INODE_NUM, 4);
    assert copy[k] == 0;
  }

  // ---------------------------------------------------------------------------------------------
  // The loaded directory
  // ---------------------------------------------------------------------------------------------

  /** new_dentry of read_boot_block, as it is stored into the array. */
  method CopiedDentry(record: Bytes) returns (copy: Bytes)
    requires Terminated(record)
    ensures Loaded(copy, record)
  {
    var newDentry := new byte[DENTRY_BYTES];
    CopyDentry(newDentry, record);
    copy := newDentry[..];
  }

  /** What ls prints of a directory: the names, a line each, up to one that is empty. */
  function Lines(dir: seq<Dentry>, d: nat): Bytes
    requires d <= |dir|
    decreases |dir| - d
  {
    if d == |dir| || dir[d].name == [] then [] else dir[d].name + [NEWLINE] + Lines(dir, d + 1)
  }

  class BootData {
    var numDirEntries: nat
    const dirEntries: array<Bytes>    // dentry_t records

    ghost predicate Valid()
      reads this, dirEntries
    {
      && dirEntries.Length == MAX_NUM_DIR_ENTRIES && numDirEntries <= MAX_NUM_DIR_ENTRIES
      && forall d :: 0 <= d < numDirEntries ==> |dirEntries[d]| == DENTRY_BYTES && Terminated(dirEntries[d])
    }

    ghost function Listing(): (dir: seq<Dentry>)
      requires Valid()
      reads this, dirEntries
      ensures |dir| == numDirEntries && forall d :: 0 <= d < numDirEntries ==> dir[d] == Meaning(dirEntries[d])
    {
      seq(numDirEntries, d requires 0 <= d < numDirEntries && Valid() reads this, dirEntries => Meaning(dirEntries[d]))
    }

    /** read_boot_block: the directory of the image, names of 32 bytes included. */
    constructor (img: Image)
      requires GoodDirectory(img)
      ensures Valid() && Listing() == ImageEntries(img)
      ensures forall d :: 0 <= d < numDirEntries ==> CString(dirEntries[d]) == CString(Record(img, d))
    {
      numDirEntries := Word(img, 0);
      dirEntries := new Bytes[MAX_NUM_DIR_ENTRIES];
      new;
      for dir := 0 to numDirEntries
        invariant dirEntries.Length == MAX_NUM_DIR_ENTRIES && numDirEntries == Word(img, 0)
        invariant forall d :: 0 <= d < dir ==> Loaded(dirEntries[d], Record(img, d))
      {
        var newDentry := CopiedDentry(Record(img, dir));
        dirEntries[dir] := newDentry;
      }
    }

    /** The search loop of read_dentry_by_name. */
    method FindByName(fname: Bytes, ghost len: nat) returns (dir: nat)
      requires Valid() && EndsAt(fname, len) && len <= MAX_FILE_NAME_LENGTH
      ensures dir == IndexOf(Listing(), fname[..len], 0)
    {
      TextIs(fname, MAX_FILE_NAME_LENGTH, len);
      ghost var dirs := Listing();
      dir := 0;
      while dir < numDirEntries
        invariant dir <= numDirEntries && IndexOf(dirs, fname[..len], dir) == IndexOf(dirs, fname[..len], 0)
      {
        assert Terminated(dirEntries[dir]) && dirs[dir] == Meaning(dirEntries[dir]);
        var diff := StrNCmp(fname, dirEntries[dir], MAX_FILE_NAME_LENGTH);
        if diff == 0 {
          return;
        }
        dir := dir + 1;
      }
    }

    /** read_dentry_by_name: the first entry with the name, for names of at most 32 bytes; otherwise nothing. */
    method ReadDentryByName(fname: Bytes, dentry: array<byte>, ghost len: nat) returns (r: int)
      requires Valid() && EndsAt(fname, len) && dentry.Length == DENTRY_BYTES
      modifies dentry
      ensures var d := IndexOf(Listing(), fname[..len], 0);
        && r == (if len <= MAX_FILE_NAME_LENGTH && d < |Listing()| then 0 else -1)
        && (r == 0 ==> Meaning(dentry[..]) == Listing()[d])
      ensures r == -1 ==> dentry[..] == old(dentry[..])
    {
      var length := StrLen(fname, len);
      if length > MAX_FILE_NAME_LENGTH {
        return -1;
      }
      var dir := FindByName(fname, len);
      if dir == numDirEntries {
        return -1;
      }
      CopyDentry(dentry, dirEntries[dir]);
      return 0;
    }

    /** read_dentry_by_index. */
    method ReadDentryByIndex(index: nat, dentry: array<byte>) returns (r: int)
      requires Valid() && dentry.Length == DENTRY_BYTES
      modifies dentry
      ensures r == if index < |Listing()| then 0 else -1
      ensures r == 0 ==> Meaning(dentry[..]) == Listing()[index] && Loaded(dentry[..], dirEntries[index])
      ensures r == -1 ==> dentry[..] == old(dentry[..])
    {
      if index >= numDirEntries {
        return -1;
      }
      CopyDentry(dentry, dirEntries[index]);
      return 0;
    }

    /** directory_read, for a descriptor at filePos: the string at that entry's name, the length of the name, and the
        next position. */
    method DirectoryRead(filePos: nat, buf: array<byte>, nbytes: nat) returns (r: int, nextPos: nat)
      requires Valid() && nbytes <= buf.Length
      modifies buf
      ensures filePos >= |Listing()| ==> r == 0 && nextPos == filePos && buf[..] == old(buf[..])
      ensures filePos < |Listing()| ==>
        var name, s := Listing()[filePos].name, CString(dirEntries[filePos]);
        && r == |name| <= |s| && s[..r] == name && nextPos == filePos + 1
        && NameIn(buf[..], old(buf[..]), s, nbytes)
    {
      if filePos >= numDirEntries {
        return 0, filePos;
      }
      var currFile := new byte[DENTRY_BYTES];
      var _ := ReadDentryByIndex(filePos, currFile);
      nextPos := filePos + 1;
      r := CopyName(currFile[..], buf, nbytes);
    }

    /** One read of ls: the name at the position, nothing when there is none. */
    method NextName(pos: nat, buf: array<byte>, ghost dirs: seq<Dentry>) returns (cnt: nat, nextPos: nat)
      requires Valid() && dirs == Listing() && buf.Length == MAX_FILE_NAME_LENGTH + 1
      modifies buf
      ensures cnt <= MAX_FILE_NAME_LENGTH
      ensures buf[..cnt] == NameAt(dirs, pos)
      ensures pos < |dirs| ==> nextPos == pos + 1
    {
      cnt, nextPos := DirectoryRead(pos, buf, MAX_FILE_NAME_LENGTH);
    }

    /** The loop of the ls program, on a fresh descriptor of the directory. */
    method Ls() returns (printed: Bytes)
      requires Valid()
      ensures printed == Lines(Listing(), 0)
    {
      ghost var dirs := Listing();
      var buf := new byte[MAX_FILE_NAME_LENGTH + 1](_ => 0);
      printed := [];
      ghost var at: nat := 0;    // the entry in the buffer
      var cnt: nat, pos: nat := NextName(0, buf, dirs);
      while cnt != 0
        modifies buf
        invariant at <= |dirs| && cnt <= MAX_FILE_NAME_LENGTH && (at < |dirs| ==> pos == at + 1)
        invariant buf[..cnt] == NameAt(dirs, at) && printed + Lines(dirs, at) == Lines(dirs, 0)
        decreases |dirs| - at
      {
        LinesFrom(dirs, at, buf[..cnt]);
        printed := LineAdded(printed, buf, cnt, Lines(dirs, at + 1));
        at := at + 1;
        cnt, pos := NextName(pos, buf, dirs);
      }
    }
  }

  function NameAt(dirs: seq<Dentry>, d: nat): Bytes {
    if d < |dirs| then dirs[d].name else []
  }

  lemma LinesFrom(dirs: seq<Dentry>, d: nat, name: Bytes)
    requires d <= |dirs| && name == NameAt(dirs, d) && name != []
    ensures d < |dirs| && Lines(dirs, d) == name + [10] + Lines(dirs, d + 1)
  {
  }

  /** The name in the buffer printed, with a newline. */
  method LineAdded(printed: Bytes, buf: array<byte>, cnt: nat, ghost rest: Bytes) returns (r: Bytes)
    requires cnt < buf.Length
    modifies buf
    ensures r + rest == printed + (old(buf[..cnt]) + [NEWLINE] + rest)
  {
    buf[cnt] := NEWLINE;
    r := printed + buf[..cnt + 1];
    assert buf[..cnt + 1] == old(buf[..cnt]) + [NEWLINE];
    assert r + rest == printed + (buf[..cnt + 1] + rest);
  }

  /** What directory_read does with the entry: the name copied out, and its length. */
  method CopyName(record: Bytes, buf: array<byte>, nbytes: nat) returns (r: nat)
    requires Terminated(record) && nbytes <= buf.Length
    modifies buf
    ensures NameIn(buf[..], old(buf[..]), CString(record), nbytes)
    ensures r == |Meaning(record).name| <= |CString(record)| && CString(record)[..r] == Meaning(record).name
  {
    ghost var k := FirstNul(record, 0);
    TextIs(record, DENTRY_BYTES, k);
    TextIs(record, MAX_FILE_NAME_LENGTH, if k < MAX_FILE_NAME_LENGTH then k else MAX_FILE_NAME_LENGTH);
    TextIs(record, nbytes, if k < nbytes then k else nbytes);
    StrNCpy(buf, record, nbytes);
    r := StrLen(record, k);
    if r > MAX_FILE_NAME_LENGTH {
      r := MAX_FILE_NAME_LENGTH;
    }
  }

  /** The first n bytes of the buffer are the string and NULs after it, and the rest is as it was. */
  predicate NameIn(after: Bytes, before: Bytes, name: Bytes, n: nat) {
    && |after| == |before|
    && forall i :: 0 <= i < |after| ==> after[i] == if i < n then (if i < |name| then name[i] else 0) else before[i]
  }

  /** strncpy: the text of at most n bytes, and NULs after it. */
  method StrNCpy(dest: array<byte>, src: Bytes, n: nat)
    requires n <= dest.Length && Comparable(src, n + 1)
    modifies dest
    ensures forall i :: 0 <= i < dest.Length ==>
      dest[i] == if i < n then (if i < |Text(src, n)| then src[i] else 0) else old(dest[i])
  {
    var i: nat := 0;
    while src[i] != 0 && i < n
      decreases n - i
      invariant i <= n && NoNul(src, i) && i < |src|
      invariant forall j :: 0 <= j < dest.Length ==> dest[j] == if j < i then src[j] else old(dest[j])
    {
      dest[i] := src[i];
      i := i + 1;
    }
    TextIs(src, n, i);
    while i < n
      invariant |Text(src, n)| <= i <= n
      invariant forall j :: 0 <= j < dest.Length ==>
        dest[j] == if j < i then (if j < |Text(src, n)| then src[j] else 0) else old(dest[j])
    {
      dest[i] := 0;
      i := i + 1;
    }
  }
}
