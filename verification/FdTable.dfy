/** One process's file descriptor table: eight slots, the map of used slots, and the hint that the table is full. */
module FdTable {
  const FD_ARRAY_SIZE := 8

  /** Which operations table a descriptor carries. */
  datatype Fops = NoOps | RtcOps | DirecOps | FileOps | StdinOps | StdoutOps

  datatype FdFile = FdFile(fops: Fops, inode: nat, filePos: nat, flags: nat)

  const ZERO_FD := FdFile(NoOps, 0, 0, 0)
  const STDIN := FdFile(StdinOps, 0, 0, 1)
  const STDOUT := FdFile(StdoutOps, 0, 0, 1)

  /** fda_spaces[pid], fd_array and fda_full[pid] */
  datatype Table = Table(spaces: seq<bool>, files: seq<FdFile>, full: bool)

  /** A table without descriptors. */
  function ZeroTable(): (t: Table)
    ensures Sized(t)
  {
    Table(seq(FD_ARRAY_SIZE, _ => false), seq(FD_ARRAY_SIZE, _ => ZERO_FD), false)
  }

  predicate Sized(t: Table) {
    |t.spaces| == FD_ARRAY_SIZE && |t.files| == FD_ARRAY_SIZE
  }

  predicate AllUsed(t: Table)
    requires Sized(t)
  {
    forall i :: 2 <= i < FD_ARRAY_SIZE ==> t.spaces[i]
  }

  /** The kept invariant: the hint is never set too early, and an unused slot holds nothing. */
  predicate Tidy(t: Table) {
    && Sized(t)
    && (t.full ==> AllUsed(t))
    && (forall i :: 0 <= i < FD_ARRAY_SIZE && !t.spaces[i] ==> t.files[i] == ZERO_FD)
  }

  /** A running process also has stdin and stdout in slots 0 and 1. */
  predicate Running(t: Table) {
    Tidy(t) && t.spaces[0] && t.spaces[1] && t.files[0] == STDIN && t.files[1] == STDOUT
  }

  /** terminal_open on a cleared table. */
  function FreshTable(): (t: Table)
    ensures Running(t) && forall i :: 2 <= i < FD_ARRAY_SIZE ==> !t.spaces[i]
  {
    Table(ZeroTable().spaces[0 := true][1 := true], ZeroTable().files[0 := STDIN][1 := STDOUT], false)
  }

  /** It has standard input in slot 0 and standard output in slot 1, both in use, and nothing else. */
  lemma FreshSlots()
    ensures FreshTable().spaces == [true, true, false, false, false, false, false, false] && !FreshTable().full
    ensures FreshTable().files[0] == FdFile(StdinOps, 0, 0, 1) && FreshTable().files[1] == FdFile(StdoutOps, 0, 0, 1)
    ensures forall i :: 2 <= i < 8 ==> FreshTable().files[i] == FdFile(NoOps, 0, 0, 0)
  {
  }

  // ---------------------------------------------------------------------------------------------
  // open and close
  // ---------------------------------------------------------------------------------------------

  /** What the directory says about a name: nothing, or a file type (0 RTC, 1 directory, 2 file) and an inode. */
  datatype Lookup = Missing | Entry(fileType: nat, inode: nat)

  predicate KnownType(l: Lookup) {
    l.Entry? ==> l.fileType <= 2
  }

  function NewFd(l: Lookup): FdFile
    requires l.Entry? && KnownType(l)
  {
    if l.fileType == 0 then FdFile(RtcOps, 0, 0, 1)
    else if l.fileType == 1 then FdFile(DirecOps, 0, 0, 1)
    else FdFile(FileOps, l.inode, 0, 1)
  }

  /** The search for a free slot from slot i on; -1 when there is none. */
  function FirstFree(spaces: seq<bool>, i: nat): (f: int)
    requires |spaces| == FD_ARRAY_SIZE && i <= FD_ARRAY_SIZE
    ensures f == -1 ==> forall j :: i <= j < FD_ARRAY_SIZE ==> spaces[j]
    ensures f != -1 ==> i <= f < FD_ARRAY_SIZE && !spaces[f] && forall j :: i <= j < f ==> spaces[j]
    decreases FD_ARRAY_SIZE - i
  {
    if i == FD_ARRAY_SIZE then -1 else if !spaces[i] then i else FirstFree(spaces, i + 1)
  }

  /** The outcome of an open; rtcReset says that the terminal's RTC was opened along the way. */
  datatype Opened = Opened(table: Table, fd: int, rtcReset: bool)

  function Open(t: Table, l: Lookup): (r: Opened)
    requires Sized(t) && KnownType(l)
    ensures Sized(r.table)
  {
    if l.Missing? || t.full then Opened(t, -1, false)
    else
      var rtc := l.fileType == 0;
      var i := FirstFree(t.spaces, 2);
      if i == -1 then Opened(t, -1, rtc)
      else Opened(Table(t.spaces[i := true], t.files[i := NewFd(l)], t.full || i == FD_ARRAY_SIZE - 1), i, rtc)
  }

  datatype Closed = Closed(table: Table, result: int)

  function Close(t: Table, fd: int): (r: Closed)
    requires Sized(t)
    ensures Sized(r.table)
  {
    if fd < 2 || fd >= FD_ARRAY_SIZE || !t.spaces[fd] then Closed(t, -1)
    else Closed(Table(t.spaces[fd := false], t.files[fd := ZERO_FD], false), 0)
  }

  /** What open leaves in the slot it takes, by the type of the name: the RTC for 0, the directory for 1, and for 2 the
      file of that inode, all of them in use at position 0. */
  predicate OpenedAs(file: FdFile, l: Lookup)
    requires l.Entry?
  {
    && (l.fileType == 0 ==> file == FdFile(RtcOps, 0, 0, 1))
    && (l.fileType == 1 ==> file == FdFile(DirecOps, 0, 0, 1))
    && (l.fileType == 2 ==> file == FdFile(FileOps, l.inode, 0, 1))
  }

  /** An open of an existing name takes the least free slot from 2 on, and fails exactly when there is none,
      whatever the hint says; every other slot, and stdin and stdout, are left alone. */
  lemma OpenTakesLeastFree(t: Table, l: Lookup)
    requires Tidy(t) && l.Entry? && KnownType(l)
    ensures var r := Open(t, l);
      && Tidy(r.table) && (Running(t) ==> Running(r.table))
      && (r.fd == -1 <==> forall i :: 2 <= i < 8 ==> t.spaces[i])
      && (r.fd == -1 ==> r.table == t)
      && (r.fd != -1 ==>
          && 2 <= r.fd < 8 && !t.spaces[r.fd] && (forall j :: 2 <= j < r.fd ==> t.spaces[j])
          && OpenedAs(r.table.files[r.fd], l)
          && r.table.spaces == t.spaces[r.fd := true] && r.table.files == t.files[r.fd := r.table.files[r.fd]])
  {
  }

  /** open opens the terminal's RTC exactly for the RTC's name while the hint is clear, whether it then finds a slot or
      not. */
  lemma OpenResetsRtcExactly(t: Table, l: Lookup)
    requires Sized(t) && KnownType(l)
    ensures Open(t, l).rtcReset <==> l.Entry? && l.fileType == 0 && !t.full
  {
  }

  lemma CloseKeepsTidy(t: Table, fd: int)
    requires Tidy(t)
    ensures var r := Close(t, fd);
      && Tidy(r.table) && (Running(t) ==> Running(r.table))
      && (r.result == 0 <==> 2 <= fd < 8 && t.spaces[fd])
      && (r.result == 0 ==> !AllUsed(r.table) && r.table.files == t.files[fd := FdFile(NoOps, 0, 0, 0)])
      && (r.result != 0 ==> r.result == -1 && r.table == t)
  {
    var r := Close(t, fd);
    assert r.result == 0 ==> !r.table.spaces[fd];
  }

  /** Closing what open returned restores the table to the last bit, hint included. */
  lemma CloseUndoesOpen(t: Table, l: Lookup)
    requires Tidy(t) && KnownType(l) && Open(t, l).fd != -1
    ensures Close(Open(t, l).table, Open(t, l).fd) == Closed(t, 0)
  {
    var r := Open(t, l);
    assert r.table.spaces[r.fd := false] == t.spaces;
    assert r.table.files[r.fd := ZERO_FD] == t.files;
  }

  /** The hint is one-way: close a slot below 7 of a full table and open again, and the table is full with the
      hint clear. */
  lemma HintGoesStale(t: Table, fd: int, l: Lookup)
    requires Tidy(t) && AllUsed(t) && 2 <= fd < FD_ARRAY_SIZE && l.Entry? && KnownType(l)
    ensures var t' := Open(Close(t, fd).table, l).table;
      AllUsed(t') && (t'.full <==> fd == 7)
  {
  }

  /** A failing open has an effect exactly when the table is full with the hint clear and the name is the RTC's. */
  lemma FailedOpenResetsRtcExactly(t: Table, l: Lookup)
    requires Tidy(t) && KnownType(l)
    ensures Open(t, l).fd == -1 && Open(t, l).rtcReset <==> l.Entry? && l.fileType == 0 && AllUsed(t) && !t.full
  {
  }
}
