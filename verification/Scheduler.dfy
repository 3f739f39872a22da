/** The process code as the kernel runs it: PCBs, descriptor maps and scheduler arrays updated in place, each
    routine proved equal to its step of the Processes model. */
module Scheduler {
  import F = FdTable
  import opened Processes

  /** pcb_t, without saved registers, arguments and the vidmap flag. */
  datatype PcbFields = PcbFields(inUse: bool, shell: bool, parent: int, terminal: int, execFd: int,
                                 fdArray: seq<F.FdFile>)

  /** What syscall_execute leaves and answers; switched says that it did not return to its caller. */
  predicate Answers(r: Executed, k: Kernel, switched: bool, ret: int) {
    k == r.kernel && (switched <==> r.Switched?) && (r.Returned? ==> ret == r.ret)
  }

  class ProcessTable {
    const pcbs: array<PcbFields>
    const fdaSpaces: array2<bool>
    const fdaFull: array<bool>
    const baseProcesses: array<int>
    const activeProcesses: array<int>
    var currPid: int
    var terminalActive: int
    var userFrame: int    // page_directory[USR_PRGM_PD].pt_base_addr
    var esp0: int         // tss.esp0

    ghost predicate Arrays() {
      && pcbs.Length == PID_NUM && fdaSpaces.Length0 == PID_NUM && fdaSpaces.Length1 == F.FD_ARRAY_SIZE
      && fdaFull.Length == PID_NUM && baseProcesses.Length == TERMINALS && activeProcesses.Length == TERMINALS
      && baseProcesses != activeProcesses
    }

    ghost predicate Shaped()
      reads pcbs
    {
      Arrays() && forall p :: 0 <= p < PID_NUM ==> |pcbs[p].fdArray| == F.FD_ARRAY_SIZE
    }

    ghost predicate Valid()
      reads this, pcbs
    {
      Shaped() && IsPid(currPid) && IsTerminal(terminalActive)
    }

    ghost function Spaces(p: int): (row: seq<bool>)
      requires Arrays() && IsPid(p)
      reads fdaSpaces
      ensures |row| == F.FD_ARRAY_SIZE && forall i :: 0 <= i < F.FD_ARRAY_SIZE ==> row[i] == fdaSpaces[p, i]
    {
      seq(F.FD_ARRAY_SIZE,
          i requires Arrays() && IsPid(p) && 0 <= i < F.FD_ARRAY_SIZE reads fdaSpaces => fdaSpaces[p, i])
    }

    ghost function PcbOf(p: int): (pcb: Pcb)
      requires Shaped() && IsPid(p)
      reads pcbs, fdaSpaces, fdaFull
      ensures F.Sized(pcb.fds)
    {
      var f := pcbs[p];
      Pcb(f.inUse, f.shell, f.parent, f.terminal, f.execFd, F.Table(Spaces(p), f.fdArray, fdaFull[p]))
    }

    ghost function State(): (k: Kernel)
      requires Valid()
      reads this, pcbs, fdaSpaces, fdaFull, baseProcesses, activeProcesses
      ensures Sized(k)
      ensures forall p :: 0 <= p < PID_NUM ==> k.pcbs[p] == PcbOf(p)
    {
      Kernel(seq(PID_NUM, p requires Shaped() && 0 <= p < PID_NUM reads pcbs, fdaSpaces, fdaFull => PcbOf(p)),
             baseProcesses[..], activeProcesses[..], currPid, terminalActive, userFrame, esp0)
    }

    /** init_pids and the static initialisers. */
    constructor ()
      ensures Valid() && Booted(State())
    {
      pcbs := new PcbFields[PID_NUM](_ => PcbFields(false, false, 0, 0, 0, F.ZeroTable().files));
      fdaSpaces := new bool[PID_NUM, F.FD_ARRAY_SIZE]((_, _) => false);
      fdaFull := new bool[PID_NUM](_ => false);
      baseProcesses := new int[TERMINALS](_ => -1);
      activeProcesses := new int[TERMINALS](_ => -1);
      currPid, terminalActive, userFrame, esp0 := 0, TERMINALS - 1, 0, 0x80_0000;
      new;
      forall p | 0 <= p < PID_NUM
        ensures PcbOf(p).fds == F.ZeroTable()
      {
        assert Spaces(p) == F.ZeroTable().spaces;
      }
    }

    method GetAvailPid() returns (pid: int)
      requires Valid()
      ensures pid == AvailPid(State())
      ensures pid != -1 ==> IsPid(pid) && !pcbs[pid].inUse
    {
      for i := 0 to PID_NUM
        invariant AvailFrom(State().pcbs, i) == AvailPid(State())
      {
        if !pcbs[i].inUse {
          return i;
        }
      }
      return -1;
    }

    method ClearPcb(pid: int)
      requires Valid() && IsPid(pid)
      modifies pcbs, fdaSpaces, fdaFull
      ensures Valid() && PcbOf(pid) == Pcb(false, false, 0, 0, 0, F.ZeroTable())
      ensures forall p :: IsPid(p) && p != pid ==> PcbOf(p) == old(PcbOf(p))
    {
      pcbs[pid] := PcbFields(false, false, 0, 0, 0, F.ZeroTable().files);
      for i := 0 to F.FD_ARRAY_SIZE
        modifies fdaSpaces
        invariant forall p, j :: 0 <= p < PID_NUM && 0 <= j < F.FD_ARRAY_SIZE ==>
          fdaSpaces[p, j] == if p == pid && j < i then false else old(fdaSpaces[p, j])
      {
        fdaSpaces[pid, i] := false;
      }
      fdaFull[pid] := false;
      assert Spaces(pid) == F.ZeroTable().spaces;
      forall p | IsPid(p) && p != pid
        ensures PcbOf(p) == old(PcbOf(p))
      {
        assert Spaces(p) == old(Spaces(p));
      }
    }

    /** terminal_open: stdin and stdout for the current process, unless either slot is taken. */
    method TerminalOpen() returns (r: int)
      requires Valid()
      modifies pcbs, fdaSpaces
      ensures Valid()
      ensures old(Spaces(currPid)[0] || Spaces(currPid)[1]) ==> r == -1 && State() == old(State())
      ensures var t := old(PcbOf(currPid).fds);
        !t.spaces[0] && !t.spaces[1] ==>
          && r == 0
          && PcbOf(currPid) == old(PcbOf(currPid)).(fds :=
               F.Table(t.spaces[0 := true][1 := true], t.files[0 := F.STDIN][1 := F.STDOUT], t.full))
      ensures forall p :: IsPid(p) && p != currPid ==> PcbOf(p) == old(PcbOf(p))
    {
      if fdaSpaces[currPid, 0] {
        return -1;
      } else if fdaSpaces[currPid, 1] {
        return -1;
      }
      pcbs[currPid] := pcbs[currPid].(fdArray := pcbs[currPid].fdArray[0 := F.STDIN]);
      pcbs[currPid] := pcbs[currPid].(fdArray := pcbs[currPid].fdArray[1 := F.STDOUT]);
      fdaSpaces[currPid, 0] := true;
      fdaSpaces[currPid, 1] := true;
      assert Spaces(currPid) == old(Spaces(currPid))[0 := true][1 := true];
      forall p | IsPid(p) && p != currPid
        ensures PcbOf(p) == old(PcbOf(p))
      {
        assert Spaces(p) == old(Spaces(p));
      }
      return 0;
    }

    method InitPcb(pid: int)
      requires Valid() && IsPid(pid)
      modifies pcbs, fdaSpaces, fdaFull, `currPid
      ensures Valid() && State() == Processes.InitPcb(old(State()), pid)
    {
      ClearPcb(pid);
      pcbs[pid] := pcbs[pid].(inUse := true);
      assert PcbOf(pid) == Pcb(true, false, 0, 0, 0, F.ZeroTable());
      assert forall p :: IsPid(p) && p != pid ==> PcbOf(p) == old(PcbOf(p));
      currPid := pid;
      var _ := TerminalOpen();
      assert State().pcbs == Processes.InitPcb(old(State()), pid).pcbs;
    }

    /** Slot fd of the current process takes a new descriptor. */
    method SetSlot(fd: int, used: bool, file: F.FdFile)
      requires Valid() && 0 <= fd < F.FD_ARRAY_SIZE
      modifies pcbs, fdaSpaces
      ensures Valid()
      ensures var t := old(PcbOf(currPid).fds);
        State() == WithFds(old(State()), currPid, F.Table(t.spaces[fd := used], t.files[fd := file], t.full))
    {
      fdaSpaces[currPid, fd] := used;
      pcbs[currPid] := pcbs[currPid].(fdArray := pcbs[currPid].fdArray[fd := file]);
      forall p | 0 <= p < PID_NUM
        ensures Spaces(p) == if p == currPid then old(Spaces(p))[fd := used] else old(Spaces(p))
      {
      }
      ghost var t := old(PcbOf(currPid).fds);
      assert State().pcbs ==
        WithFds(old(State()), currPid, F.Table(t.spaces[fd := used], t.files[fd := file], t.full)).pcbs;
    }

    method SetFull(full: bool)
      requires Valid()
      modifies fdaFull
      ensures Valid()
      ensures State() == WithFds(old(State()), currPid, old(PcbOf(currPid).fds).(full := full))
    {
      fdaFull[currPid] := full;
      assert State().pcbs == WithFds(old(State()), currPid, old(PcbOf(currPid).fds).(full := full)).pcbs;
    }

    /** A free slot taken, and the hint set with the last slot. */
    method TakeSlot(i: int, newFd: F.FdFile)
      requires Valid() && 0 <= i < F.FD_ARRAY_SIZE
      modifies pcbs, fdaSpaces, fdaFull
      ensures Valid() && pcbs[currPid].fdArray[i] == newFd
      ensures var t := old(PcbOf(currPid).fds);
        State() == WithFds(old(State()), currPid,
                           F.Table(t.spaces[i := true], t.files[i := newFd], t.full || i == F.FD_ARRAY_SIZE - 1))
    {
      SetSlot(i, true, newFd);
      if i == F.FD_ARRAY_SIZE - 1 {
        SetFull(true);
      }
      assert State().pcbs[currPid] == PcbOf(currPid);
    }

    /** syscall_open; rtcReset says that rtc_open was called. */
    method SyscallOpen(l: F.Lookup) returns (fd: int, rtcReset: bool)
      requires Valid() && F.KnownType(l)
      modifies pcbs, fdaSpaces, fdaFull
      ensures Valid()
      ensures var r := F.Open(old(PcbOf(currPid).fds), l);
        fd == r.fd && rtcReset == r.rtcReset && State() == WithFds(old(State()), currPid, r.table)
      ensures rtcReset <==> l.Entry? && l.fileType == 0 && !old(fdaFull[currPid])
      ensures fd == -1 || (2 <= fd < 8 && l.Entry? && F.OpenedAs(pcbs[currPid].fdArray[fd], l))
    {
      ghost var t := PcbOf(currPid).fds;
      assert WithFds(State(), currPid, t) == State();
      rtcReset := false;
      if l.Missing? || fdaFull[currPid] {
        return -1, false;
      }
      var newFd := F.NewFd(l);
      if l.fileType == 0 {
        rtcReset := true;
      }
      for i := 2 to F.FD_ARRAY_SIZE
        invariant State() == old(State()) && Valid()
        invariant F.FirstFree(t.spaces, i) == F.FirstFree(t.spaces, 2)
      {
        if !fdaSpaces[currPid, i] {
          TakeSlot(i, newFd);
          return i, rtcReset;
        }
      }
      return -1, rtcReset;
    }

    method SyscallClose(fd: int) returns (result: int)
      requires Valid()
      modifies pcbs, fdaSpaces, fdaFull
      ensures Valid() && State() == CloseFd(old(State()), fd) && result == F.Close(old(PcbOf(currPid).fds), fd).result
    {
      if fd < 2 || fd >= F.FD_ARRAY_SIZE || !fdaSpaces[currPid, fd] {
        assert WithFds(State(), currPid, PcbOf(currPid).fds) == State();
        return -1;
      }
      SetSlot(fd, false, F.ZERO_FD);
      if fdaFull[currPid] {
        SetFull(false);
      }
      return 0;
    }

    method PageUserProgram(pid: int)
      modifies `userFrame
      ensures 4096 * userFrame == 0x80_0000 + 0x40_0000 * pid
      ensures userFrame == UserFrame(pid)
    {
      userFrame := (2 + pid) * BIG_PAGE_FRAMES;
    }

    method UpdatePcb(pid: int, f: PcbFields)
      requires Valid() && IsPid(pid) && f.fdArray == pcbs[pid].fdArray
      modifies pcbs
      ensures Valid()
      ensures State() == old(State()).(pcbs := old(State()).pcbs[pid :=
        Pcb(f.inUse, f.shell, f.parent, f.terminal, f.execFd, old(PcbOf(pid)).fds)])
    {
      pcbs[pid] := f;
      assert State().pcbs ==
        old(State()).pcbs[pid := Pcb(f.inUse, f.shell, f.parent, f.terminal, f.execFd, old(PcbOf(pid)).fds)];
    }

    /** syscall_execute. When it switches to the new process it does not return to its caller. */
    method SyscallExecute(cmd: Command) returns (switched: bool, ret: int)
      requires Valid() && (cmd.Command? ==> F.KnownType(cmd.lookup))
      modifies this, pcbs, fdaSpaces, fdaFull, baseProcesses, activeProcesses
      ensures Valid()
      ensures Answers(Execute(old(State()), cmd), State(), switched, ret)
    {
      if cmd.NullPointer? {
        return false, -1;
      }
      if cmd.lookup.Missing? || cmd.lookup.fileType != 2 {
        return false, -1;
      }
      var fd, _ := SyscallOpen(cmd.lookup);
      switched, ret := ExecuteFd(fd, cmd);
    }

    /** syscall_execute from the result of open on. */
    method ExecuteFd(fd: int, cmd: Command) returns (switched: bool, ret: int)
      requires Valid() && cmd.Command?
      modifies this, pcbs, fdaSpaces, fdaFull, baseProcesses, activeProcesses
      ensures Valid()
      ensures Answers(ExecuteOpened(old(State()), fd, cmd), State(), switched, ret)
    {
      if fd == -1 || !cmd.magicOk || !cmd.entryOk {
        var _ := SyscallClose(fd);
        return false, -1;
      }
      switched, ret := ExecuteImage(fd, cmd);
    }

    /** syscall_execute from the choice of the PID on. */
    method ExecuteImage(fd: int, cmd: Command) returns (switched: bool, ret: int)
      requires Valid() && cmd.Command?
      modifies this, pcbs, fdaSpaces, fdaFull, baseProcesses, activeProcesses
      ensures Valid()
      ensures var k := old(State());
        Answers(if AvailPid(k) == -1 then Returned(CloseFd(k, fd), 1) else ExecuteAs(k, fd, AvailPid(k), cmd),
                State(), switched, ret)
    {
      ghost var k := State();
      var child := GetAvailPid();
      assert Valid() && State() == k && child == AvailPid(k);
      if child == -1 {
        var _ := SyscallClose(fd);
        return false, 1;
      }
      switched, ret := LoadAndStart(fd, child, cmd);
    }

    /** syscall_execute once a PID has been found. */
    method LoadAndStart(fd: int, child: int, cmd: Command) returns (switched: bool, ret: int)
      requires Valid() && cmd.Command? && IsPid(child)
      modifies this, pcbs, fdaSpaces, fdaFull, baseProcesses, activeProcesses
      ensures Valid()
      ensures Answers(ExecuteAs(old(State()), fd, child, cmd), State(), switched, ret)
    {
      MapUserProgram(child);
      if !cmd.loads {
        var _ := SyscallClose(fd);
        MapUserProgram(currPid);
        return false, 1;
      }
      if cmd.isShell && baseProcesses[terminalActive] == -1 {
        LaunchBase(fd, child);
      } else {
        LaunchChild(fd, child, cmd.isShell);
      }
      return true, 0;
    }

    method SetBase(pid: int)
      requires Valid()
      modifies baseProcesses
      ensures Valid() && State() == old(State()).(base := old(State()).base[terminalActive := pid])
    {
      baseProcesses[terminalActive] := pid;
      assert State().pcbs == old(State()).pcbs;
    }

    /** The active terminal runs the process, on its kernel stack. */
    method Activate(pid: int)
      requires Valid()
      modifies activeProcesses, `esp0
      ensures Valid()
      ensures State() == old(State()).(active := old(State()).active[terminalActive := pid], esp0 := PstackLoc(pid))
      ensures esp0 == 0x80_0000 - 8192 * pid - 1
    {
      activeProcesses[terminalActive] := pid;
      esp0 := PstackLoc(pid);
      assert State().pcbs == old(State()).pcbs;
    }

    method SetCurrent(pid: int)
      requires Valid() && IsPid(pid)
      modifies `currPid
      ensures Valid() && State() == old(State()).(currPid := pid)
    {
      currPid := pid;
      assert State().pcbs == old(State()).pcbs;
    }

    /** The base-shell branch of syscall_execute. */
    method LaunchBase(fd: int, child: int)
      requires Valid() && IsPid(child)
      modifies this, pcbs, fdaSpaces, fdaFull, baseProcesses, activeProcesses
      ensures Valid() && State() == StartBase(old(State()), fd, child)
    {
      var _ := SyscallClose(fd);
      InitPcb(child);
      UpdatePcb(child, pcbs[child].(parent := -1, execFd := -1, shell := true, terminal := terminalActive));
      SetBase(child);
      Activate(child);
    }

    /** The branch of syscall_execute for a process with a parent. */
    method LaunchChild(fd: int, child: int, isShell: bool)
      requires Valid() && IsPid(child)
      modifies this, pcbs, fdaSpaces, fdaFull, activeProcesses
      ensures Valid() && State() == StartChild(old(State()), fd, child, isShell)
    {
      var parent := currPid;
      InitPcb(child);
      UpdatePcb(child, pcbs[child].(parent := parent, terminal := terminalActive, shell := isShell));
      UpdatePcb(parent, pcbs[parent].(execFd := fd));
      Activate(child);
    }

    method SyscallHalt(shell: Command)
      requires Valid() && (shell.Command? ==> F.KnownType(shell.lookup))
      requires currPid != baseProcesses[terminalActive] ==> IsPid(pcbs[currPid].parent)
      modifies this, pcbs, fdaSpaces, fdaFull, baseProcesses, activeProcesses
      ensures Valid() && State() == Halt(old(State()), shell)
    {
      if currPid == baseProcesses[terminalActive] {
        UpdatePcb(currPid, pcbs[currPid].(inUse := false));
        activeProcesses[terminalActive] := -1;
        baseProcesses[terminalActive] := -1;
        assert State() == WithoutBase(old(State()));
        var _, _ := SyscallExecute(shell);
      } else {
        ReturnToParent();
      }
    }

    /** The branch of syscall_halt for a process with a parent. */
    method ReturnToParent()
      requires Valid() && IsPid(pcbs[currPid].parent)
      modifies this, pcbs, fdaSpaces, fdaFull, activeProcesses
      ensures Valid() && State() == PopToParent(old(State()))
    {
      var fromPid := currPid;
      var toPid := pcbs[fromPid].parent;
      SetCurrent(toPid);
      UpdatePcb(fromPid, pcbs[fromPid].(inUse := false));
      Activate(toPid);
      var _ := SyscallClose(pcbs[toPid].execFd);
      MapUserProgram(toPid);
    }

    method MapUserProgram(pid: int)
      requires Valid()
      modifies `userFrame
      ensures Valid() && State() == old(State()).(userFrame := UserFrame(pid))
    {
      PageUserProgram(pid);
      assert State().pcbs == old(State()).pcbs;
    }

    /** A running process becomes current again, in its own memory. */
    method Resume(toPid: int)
      requires Valid() && IsPid(toPid)
      modifies this
      ensures Valid()
      ensures State() ==
        old(State()).(currPid := toPid, userFrame := UserFrame(toPid), esp0 := PstackLoc(toPid))
      ensures currPid == toPid && terminalActive == old(terminalActive)
      ensures 4096 * userFrame == 0x80_0000 + 0x40_0000 * toPid && esp0 == 0x80_0000 - 8192 * toPid - 1
    {
      currPid := toPid;
      PageUserProgram(toPid);
      esp0 := PstackLoc(toPid);
      assert State().pcbs == old(State()).pcbs;
    }

    /** The process part of schedule(). */
    method Schedule(shell: Command)
      requires Valid() && (shell.Command? ==> F.KnownType(shell.lookup))
      requires var next := (terminalActive + 1) % TERMINALS; baseProcesses[next] != -1 ==> IsPid(activeProcesses[next])
      modifies this, pcbs, fdaSpaces, fdaFull, baseProcesses, activeProcesses
      ensures Valid() && State() == Tick(old(State()), shell)
      ensures var next := if old(terminalActive) == 2 then 0 else old(terminalActive) + 1;
        old(baseProcesses[next]) != -1 ==>
          && currPid == old(activeProcesses[next])
          && 4096 * userFrame == 0x80_0000 + 0x40_0000 * currPid && esp0 == 0x80_0000 - 8192 * currPid - 1
    {
      var currTerm := (terminalActive + 1) % TERMINALS;
      terminalActive := currTerm;
      if baseProcesses[currTerm] == -1 {
        assert State() == old(State()).(terminalActive := currTerm);
        var _, _ := SyscallExecute(shell);
      } else {
        Resume(activeProcesses[currTerm]);
      }
    }
  }
}
