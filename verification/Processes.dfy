/** Process lifecycle as a value: execute, halt and schedule over six PCBs and three terminals, and the proof
    that they run three stacks of processes. */
module Processes {
  import F = FdTable

  const PID_NUM := 6
  const PID_SIZE := 8192
  const KERNEL_END := 0x7F_FFFF
  const BIG_PAGE_FRAMES := 1024
  const TERMINALS := 3

  /** A PCB with its descriptor table; saved registers, arguments and the vidmap flag are left out. */
  datatype Pcb = Pcb(inUse: bool, shell: bool, parent: int, terminal: int, execFd: int, fds: F.Table)

  /** currPid, the user page frame and tss.esp0 are the processor's side of the current process. */
  datatype Kernel = Kernel(
    pcbs: seq<Pcb>,
    base: seq<int>,
    active: seq<int>,
    currPid: int,
    terminalActive: int,
    userFrame: int,
    esp0: int)

  predicate IsPid(p: int) {
    0 <= p < PID_NUM
  }

  predicate IsTerminal(t: int) {
    0 <= t < TERMINALS
  }

  predicate Sized(k: Kernel) {
    && |k.pcbs| == PID_NUM && |k.base| == TERMINALS && |k.active| == TERMINALS
    && IsPid(k.currPid) && IsTerminal(k.terminalActive)
    && (forall p :: 0 <= p < PID_NUM ==> F.Sized(k.pcbs[p].fds))
  }

  /** The first byte of a PID's 8 KB block at the top of the kernel page. */
  function PidLoc(p: int): int {
    KERNEL_END - (p + 1) * PID_SIZE + 1
  }

  /** The top of a PID's kernel stack. */
  function PstackLoc(p: int): int {
    KERNEL_END - p * PID_SIZE
  }

  /** The 20-bit base that page_user_program stores. */
  function UserFrame(p: int): int {
    (2 + p) * BIG_PAGE_FRAMES
  }

  /** The memory of the processes in bytes. The kernel has the 4 MB from 0x40_0000 on, and at the top of them each
      process 8 KB, the last byte of which is where its stack starts; programs have 4 MB each from 0x80_0000 on. */
  lemma MemoryMap(p: int)
    requires IsPid(p)
    ensures PidLoc(p) == 0x80_0000 - 8192 * (p + 1) && PstackLoc(p) == PidLoc(p) + 8191
    ensures 0x40_0000 <= PidLoc(p) && PidLoc(p) + 8192 <= 0x80_0000
    ensures 4096 * UserFrame(p) == 0x80_0000 + 0x40_0000 * p
    ensures 0x80_0000 <= 4096 * UserFrame(p) && 4096 * UserFrame(p) + 0x40_0000 <= 0x200_0000
  {
  }

  /** [a, a + n) and [b, b + n) have no byte in common. */
  predicate Apart(a: int, b: int, n: int) {
    a + n <= b || b + n <= a
  }

  /** Different processes share neither their 8 KB in the kernel nor their program's 4 MB. */
  lemma PidBlocksDisjoint(p: int, q: int)
    requires IsPid(p) && IsPid(q) && p != q
    ensures Apart(PidLoc(p), PidLoc(q), 8192)
    ensures Apart(4096 * UserFrame(p), 4096 * UserFrame(q), 0x40_0000)
  {
  }

  // ---------------------------------------------------------------------------------------------
  // The kernel's steps
  // ---------------------------------------------------------------------------------------------

  /** What the file system holds under the name of a command. */
  datatype Command =
    | NullPointer
    | Command(lookup: F.Lookup, isShell: bool, magicOk: bool, entryOk: bool, loads: bool)

  function AvailFrom(pcbs: seq<Pcb>, p: nat): (r: int)
    requires |pcbs| == PID_NUM && p <= PID_NUM
    ensures r == -1 ==> forall q :: p <= q < PID_NUM ==> pcbs[q].inUse
    ensures r != -1 ==> p <= r < PID_NUM && !pcbs[r].inUse && forall q :: p <= q < r ==> pcbs[q].inUse
    decreases PID_NUM - p
  {
    if p == PID_NUM then -1 else if !pcbs[p].inUse then p else AvailFrom(pcbs, p + 1)
  }

  /** get_avail_pid */
  function AvailPid(k: Kernel): int
    requires Sized(k)
  {
    AvailFrom(k.pcbs, 0)
  }

  function WithFds(k: Kernel, p: int, t: F.Table): (r: Kernel)
    requires Sized(k) && IsPid(p) && F.Sized(t)
    ensures Sized(r)
  {
    k.(pcbs := k.pcbs[p := k.pcbs[p].(fds := t)])
  }

  /** syscall_close on the current process. */
  function CloseFd(k: Kernel, fd: int): (r: Kernel)
    requires Sized(k)
    ensures Sized(r)
  {
    WithFds(k, k.currPid, F.Close(k.pcbs[k.currPid].fds, fd).table)
  }

  /** init_pcb: a cleared PCB with stdin and stdout, which becomes the current process. */
  function InitPcb(k: Kernel, p: int): (r: Kernel)
    requires Sized(k) && IsPid(p)
    ensures Sized(r)
  {
    k.(pcbs := k.pcbs[p := Pcb(true, false, 0, 0, 0, F.FreshTable())], currPid := p)
  }

  /** ret is what syscall_execute returns to its caller when it does not switch to the new process. */
  datatype Executed = Returned(kernel: Kernel, ret: int) | Switched(kernel: Kernel)

  function Execute(k: Kernel, cmd: Command): (r: Executed)
    requires Sized(k) && (cmd.Command? ==> F.KnownType(cmd.lookup))
    ensures Sized(r.kernel)
  {
    if cmd.NullPointer? || cmd.lookup.Missing? || cmd.lookup.fileType != 2 then Returned(k, -1)
    else
      var found := F.Open(k.pcbs[k.currPid].fds, cmd.lookup);
      ExecuteOpened(WithFds(k, k.currPid, found.table), found.fd, cmd)
  }

  /** The rest of syscall_execute, once the command has been opened as fd (or has not, -1). */
  function ExecuteOpened(k: Kernel, fd: int, cmd: Command): (r: Executed)
    requires Sized(k) && cmd.Command?
    ensures Sized(r.kernel)
  {
    if fd == -1 || !cmd.magicOk || !cmd.entryOk then Returned(CloseFd(k, fd), -1)
    else
      var child := AvailPid(k);
      if child == -1 then Returned(CloseFd(k, fd), 1) else ExecuteAs(k, fd, child, cmd)
  }

  /** The rest of syscall_execute, once a PID has been found. */
  function ExecuteAs(k: Kernel, fd: int, child: int, cmd: Command): (r: Executed)
    requires Sized(k) && cmd.Command? && IsPid(child)
    ensures Sized(r.kernel)
  {
    var k1 := k.(userFrame := UserFrame(child));
    if !cmd.loads then Returned(CloseFd(k1, fd).(userFrame := UserFrame(k.currPid)), 1)
    else if cmd.isShell && k.base[k.terminalActive] == -1 then Switched(StartBase(k1, fd, child))
    else Switched(StartChild(k1, fd, child, cmd.isShell))
  }

  function StartBase(k: Kernel, fd: int, child: int): (r: Kernel)
    requires Sized(k) && IsPid(child)
    ensures Sized(r)
  {
    var t := k.terminalActive;
    var k1 := InitPcb(CloseFd(k, fd), child);
    var pcb := k1.pcbs[child].(parent := -1, execFd := -1, shell := true, terminal := t);
    k1.(pcbs := k1.pcbs[child := pcb], base := k1.base[t := child], active := k1.active[t := child],
        esp0 := PstackLoc(child))
  }

  function StartChild(k: Kernel, fd: int, child: int, isShell: bool): (r: Kernel)
    requires Sized(k) && IsPid(child)
    ensures Sized(r)
  {
    var t, parent := k.terminalActive, k.currPid;
    var k1 := InitPcb(k, child);
    var k2 := k1.(pcbs := k1.pcbs[child := k1.pcbs[child].(parent := parent, terminal := t, shell := isShell)]);
    k2.(pcbs := k2.pcbs[parent := k2.pcbs[parent].(execFd := fd)], active := k2.active[t := child],
        esp0 := PstackLoc(child))
  }

  /** syscall_halt; shell is the command that relaunches a base shell. */
  function Halt(k: Kernel, shell: Command): (r: Kernel)
    requires Sized(k) && (shell.Command? ==> F.KnownType(shell.lookup))
    requires k.currPid != k.base[k.terminalActive] ==> IsPid(k.pcbs[k.currPid].parent)
    ensures Sized(r)
  {
    var t, from := k.terminalActive, k.currPid;
    if from == k.base[t] then
      var k1 := k.(pcbs := k.pcbs[from := k.pcbs[from].(inUse := false)],
                   active := k.active[t := -1], base := k.base[t := -1]);
      Execute(k1, shell).kernel
    else PopToParent(k)
  }

  /** A process with a parent ends: the parent is current again and closes the descriptor of the program. */
  function PopToParent(k: Kernel): (r: Kernel)
    requires Sized(k) && IsPid(k.pcbs[k.currPid].parent)
    ensures Sized(r)
  {
    var t, from, to := k.terminalActive, k.currPid, k.pcbs[k.currPid].parent;
    var k1 := k.(currPid := to, pcbs := k.pcbs[from := k.pcbs[from].(inUse := false)],
                 esp0 := PstackLoc(to), active := k.active[t := to]);
    CloseFd(k1, k1.pcbs[to].execFd).(userFrame := UserFrame(to))
  }

  /** The process part of schedule(). */
  function Tick(k: Kernel, shell: Command): (r: Kernel)
    requires Sized(k) && (shell.Command? ==> F.KnownType(shell.lookup))
    requires var next := (k.terminalActive + 1) % TERMINALS; k.base[next] != -1 ==> IsPid(k.active[next])
    ensures Sized(r)
  {
    var next := (k.terminalActive + 1) % TERMINALS;
    var k1 := k.(terminalActive := next);
    if k1.base[next] == -1 then Execute(k1, shell).kernel
    else
      var to := k1.active[next];
      k1.(currPid := to, userFrame := UserFrame(to), esp0 := PstackLoc(to))
  }

  // ---------------------------------------------------------------------------------------------
  // The specification: three stacks
  // ---------------------------------------------------------------------------------------------

  /** A process on a stack, with its descriptor table as it last left it itself. */
  datatype Frame = Frame(pid: int, table: F.Table)

  /** depth gives the place of each PID in the stack that holds it. */
  datatype Spec = Spec(stacks: seq<seq<Frame>>, depth: seq<int>, terminalActive: int)

  predicate SpecSized(s: Spec) {
    |s.stacks| == TERMINALS && |s.depth| == PID_NUM && IsTerminal(s.terminalActive)
  }

  function Top(s: Spec): Frame
    requires SpecSized(s) && s.stacks[s.terminalActive] != []
  {
    var stack := s.stacks[s.terminalActive];
    stack[|stack| - 1]
  }

  function Push(s: Spec, pid: int): (r: Spec)
    requires SpecSized(s) && IsPid(pid)
    ensures SpecSized(r)
  {
    var t := s.terminalActive;
    s.(stacks := s.stacks[t := s.stacks[t] + [Frame(pid, F.FreshTable())]], depth := s.depth[pid := |s.stacks[t]|])
  }

  function Pop(s: Spec): (r: Spec)
    requires SpecSized(s) && s.stacks[s.terminalActive] != []
    ensures SpecSized(r)
  {
    var t := s.terminalActive;
    s.(stacks := s.stacks[t := s.stacks[t][..|s.stacks[t]| - 1]])
  }

  function WithTop(s: Spec, table: F.Table): (r: Spec)
    requires SpecSized(s) && s.stacks[s.terminalActive] != []
    ensures SpecSized(r)
  {
    var t := s.terminalActive;
    var last := |s.stacks[t]| - 1;
    s.(stacks := s.stacks[t := s.stacks[t][last := s.stacks[t][last].(table := table)]])
  }

  // ---------------------------------------------------------------------------------------------
  // The relation
  // ---------------------------------------------------------------------------------------------

  predicate InStack(s: Spec, t: int, j: int) {
    SpecSized(s) && IsTerminal(t) && 0 <= j < |s.stacks[t]|
  }

  /** The process at place j of terminal t's stack is in use, belongs to t, and has the process below it as parent. */
  predicate Placed(k: Kernel, s: Spec, t: int, j: int)
    requires Sized(k) && InStack(s, t, j)
  {
    var pid := s.stacks[t][j].pid;
    && IsPid(pid) && k.pcbs[pid].inUse && k.pcbs[pid].terminal == t && s.depth[pid] == j
    && k.pcbs[pid].parent == if j == 0 then -1 else s.stacks[t][j - 1].pid
  }

  /** Every process has a tidy descriptor table with stdin and stdout. The top process's is the one it left; a suspended
      process's is the one it left with the descriptor of the program it is waiting for still open. */
  predicate TableKept(k: Kernel, s: Spec, t: int, j: int)
    requires Sized(k) && InStack(s, t, j) && IsPid(s.stacks[t][j].pid)
  {
    var frame := s.stacks[t][j];
    var pcb := k.pcbs[frame.pid];
    && F.Running(frame.table) && F.Running(pcb.fds)
    && (if j == |s.stacks[t]| - 1 then pcb.fds == frame.table
        else F.Close(pcb.fds, pcb.execFd) == F.Closed(frame.table, 0))
  }

  ghost predicate Links(k: Kernel, s: Spec)
    requires Sized(k)
  {
    SpecSized(s) && forall t, j {:trigger InStack(s, t, j)} :: InStack(s, t, j) ==> Placed(k, s, t, j)
  }

  ghost predicate Tables(k: Kernel, s: Spec)
    requires Sized(k) && Links(k, s)
  {
    forall t, j {:trigger InStack(s, t, j)} :: InStack(s, t, j) ==> TableKept(k, s, t, j)
  }

  /** base_processes and active_processes are the two ends of each stack. */
  ghost predicate Ends(k: Kernel, s: Spec)
    requires Sized(k) && SpecSized(s)
  {
    forall t :: IsTerminal(t) ==>
      if s.stacks[t] == [] then k.base[t] == -1 && k.active[t] == -1
      else k.base[t] == s.stacks[t][0].pid && k.active[t] == s.stacks[t][|s.stacks[t]| - 1].pid
  }

  /** Every process in use has its place on a stack. */
  ghost predicate Covered(k: Kernel, s: Spec)
    requires Sized(k) && SpecSized(s)
  {
    forall p {:trigger k.pcbs[p]} :: IsPid(p) && k.pcbs[p].inUse ==>
      InStack(s, k.pcbs[p].terminal, s.depth[p]) && s.stacks[k.pcbs[p].terminal][s.depth[p]].pid == p
  }

  ghost predicate StacksAgree(k: Kernel, s: Spec) {
    Sized(k) && Links(k, s) && Tables(k, s) && Ends(k, s) && Covered(k, s)
  }

  /** The current process is the top of the active terminal's stack, with its page frame and kernel stack. */
  ghost predicate CurrentAgrees(k: Kernel, s: Spec) {
    && Sized(k) && SpecSized(s)
    && k.terminalActive == s.terminalActive
    && s.stacks[s.terminalActive] != []
    && k.currPid == Top(s).pid == k.active[k.terminalActive]
    && k.userFrame == UserFrame(k.currPid) && k.esp0 == PstackLoc(k.currPid)
  }

  ghost predicate Agrees(k: Kernel, s: Spec) {
    StacksAgree(k, s) && CurrentAgrees(k, s)
  }

  // ---------------------------------------------------------------------------------------------
  // What agreement says about parent_pid
  // ---------------------------------------------------------------------------------------------

  /** Follow parent_pid n times. */
  function Ancestor(k: Kernel, p: int, n: nat): int
    requires Sized(k)
    decreases n
  {
    if n == 0 || !IsPid(p) then p else Ancestor(k, k.pcbs[p].parent, n - 1)
  }

  lemma {:induction false} AncestorInStack(k: Kernel, s: Spec, t: int, j: int, n: nat)
    requires Sized(k) && Links(k, s) && InStack(s, t, j) && n <= j + 1
    ensures Ancestor(k, s.stacks[t][j].pid, n) == if n <= j then s.stacks[t][j - n].pid else -1
  {
    assert Placed(k, s, t, j);
    if n > 0 && j > 0 {
      AncestorInStack(k, s, t, j - 1, n - 1);
    }
  }

  predicate OwnedBy(k: Kernel, p: int, t: int)
    requires Sized(k)
  {
    IsPid(p) && k.pcbs[p].inUse && k.pcbs[p].terminal == t
  }

  /** Following parent_pid from a started terminal's active process visits in-use processes of that terminal,
      all different, reaches the base process, and ends there. */
  lemma ParentChain(k: Kernel, s: Spec, t: int)
    requires Sized(k) && Links(k, s) && Ends(k, s) && IsTerminal(t) && k.base[t] != -1
    ensures var height := |s.stacks[t]|;
      && height > 0
      && Ancestor(k, k.active[t], height - 1) == k.base[t]
      && Ancestor(k, k.active[t], height) == -1
      && (forall n: nat :: n < height ==> OwnedBy(k, Ancestor(k, k.active[t], n), t))
      && (forall m: nat, n: nat :: m < n < height ==> Ancestor(k, k.active[t], m) != Ancestor(k, k.active[t], n))
  {
    var height := |s.stacks[t]|;
    assert height > 0;
    forall n: nat | n <= height
      ensures Ancestor(k, k.active[t], n) == if n < height then s.stacks[t][height - 1 - n].pid else -1
    {
      AncestorInStack(k, s, t, height - 1, n);
      assert n < height ==> InStack(s, t, height - 1 - n);
    }
    forall n: nat | n < height
      ensures OwnedBy(k, Ancestor(k, k.active[t], n), t)
    {
      assert InStack(s, t, height - 1 - n);
    }
    forall m: nat, n: nat | m < n < height
      ensures Ancestor(k, k.active[t], m) != Ancestor(k, k.active[t], n)
    {
      assert InStack(s, t, height - 1 - m) && InStack(s, t, height - 1 - n);
    }
  }

  /** Every process in use is on the chain of its own terminal, and on no other. */
  lemma ChainsPartition(k: Kernel, s: Spec, p: int)
    requires Sized(k) && Links(k, s) && Covered(k, s) && IsPid(p)
    ensures k.pcbs[p].inUse <==> exists t, j :: InStack(s, t, j) && s.stacks[t][j].pid == p
    ensures forall t, j, t', j' ::
      InStack(s, t, j) && InStack(s, t', j') && s.stacks[t][j].pid == p == s.stacks[t'][j'].pid ==>
        t == t' && j == j'
  {
    if k.pcbs[p].inUse {
      var t, j := k.pcbs[p].terminal, s.depth[p];
      assert InStack(s, t, j) && s.stacks[t][j].pid == p;
    }
  }

  // ---------------------------------------------------------------------------------------------
  // Each step agrees
  // ---------------------------------------------------------------------------------------------

  /** The kernel when the current process has opened l and its child has been started. */
  function WithChild(k: Kernel, l: F.Lookup, child: int, isShell: bool): (r: Kernel)
    requires Sized(k) && F.KnownType(l) && IsPid(child)
    ensures Sized(r)
  {
    var found := F.Open(k.pcbs[k.currPid].fds, l);
    StartChild(WithFds(k, k.currPid, found.table).(userFrame := UserFrame(child)), found.fd, child, isShell)
  }

  lemma BelowChildPlaced(k: Kernel, s: Spec, l: F.Lookup, child: int, isShell: bool, t: int, j: int)
    requires Agrees(k, s) && F.KnownType(l) && IsPid(child) && !k.pcbs[child].inUse
    requires InStack(s, t, j)
    ensures Placed(WithChild(k, l, child, isShell), Push(s, child), t, j)
  {
    assert InStack(s, k.terminalActive, |s.stacks[k.terminalActive]| - 1) && s.stacks[t][j].pid != child;
    if j > 0 {
      assert InStack(s, t, j - 1);
    }
  }

  lemma ParentTableKept(k: Kernel, l: F.Lookup)
    requires Sized(k) && F.KnownType(l) && F.Running(k.pcbs[k.currPid].fds)
    requires F.Open(k.pcbs[k.currPid].fds, l).fd != -1
    ensures var t, r := k.pcbs[k.currPid].fds, F.Open(k.pcbs[k.currPid].fds, l);
      F.Running(r.table) && F.Close(r.table, r.fd) == F.Closed(t, 0)
  {
    F.OpenTakesLeastFree(k.pcbs[k.currPid].fds, l);
    F.CloseUndoesOpen(k.pcbs[k.currPid].fds, l);
  }

  lemma BelowChildTable(k: Kernel, s: Spec, l: F.Lookup, child: int, isShell: bool, t: int, j: int)
    requires Agrees(k, s) && F.KnownType(l) && IsPid(child) && !k.pcbs[child].inUse
    requires F.Open(k.pcbs[k.currPid].fds, l).fd != -1
    requires InStack(s, t, j)
    ensures TableKept(WithChild(k, l, child, isShell), Push(s, child), t, j)
  {
    var top, height := k.terminalActive, |s.stacks[k.terminalActive]|;
    assert InStack(s, top, height - 1) && s.stacks[t][j].pid != child;
    ParentTableKept(k, l);
    if t != top || j != height - 1 {
      assert s.stacks[t][j].pid != k.currPid;
    }
  }

  lemma ChildPlaced(k: Kernel, s: Spec, l: F.Lookup, child: int, isShell: bool, t: int, j: int)
    requires Agrees(k, s) && F.KnownType(l) && IsPid(child) && !k.pcbs[child].inUse
    requires F.Open(k.pcbs[k.currPid].fds, l).fd != -1
    requires InStack(Push(s, child), t, j)
    ensures Placed(WithChild(k, l, child, isShell), Push(s, child), t, j)
    ensures TableKept(WithChild(k, l, child, isShell), Push(s, child), t, j)
  {
    var top, height := k.terminalActive, |s.stacks[k.terminalActive]|;
    assert InStack(s, top, height - 1);
    if t == top && j == height {
    } else {
      BelowChildPlaced(k, s, l, child, isShell, t, j);
      BelowChildTable(k, s, l, child, isShell, t, j);
    }
  }

  lemma ChildCovered(k: Kernel, s: Spec, l: F.Lookup, child: int, isShell: bool)
    requires Agrees(k, s) && F.KnownType(l) && IsPid(child) && !k.pcbs[child].inUse
    ensures Covered(WithChild(k, l, child, isShell), Push(s, child))
  {
    var k', s' := WithChild(k, l, child, isShell), Push(s, child);
    forall p | IsPid(p) && k'.pcbs[p].inUse
      ensures InStack(s', k'.pcbs[p].terminal, s'.depth[p]) && s'.stacks[k'.pcbs[p].terminal][s'.depth[p]].pid == p
    {
      if p != child {
        assert InStack(s, k.terminalActive, |s.stacks[k.terminalActive]| - 1);
        assert k.pcbs[p].inUse && k'.pcbs[p].terminal == k.pcbs[p].terminal;
      }
    }
  }

  /** A started child goes on top of the active terminal's stack, over its suspended parent. */
  lemma ChildAgrees(k: Kernel, s: Spec, l: F.Lookup, child: int, isShell: bool)
    requires Agrees(k, s) && F.KnownType(l) && IsPid(child) && !k.pcbs[child].inUse
    requires F.Open(k.pcbs[k.currPid].fds, l).fd != -1
    ensures Agrees(WithChild(k, l, child, isShell), Push(s, child))
  {
    var k', s' := WithChild(k, l, child, isShell), Push(s, child);
    assert InStack(s, k.terminalActive, 0) && IsPid(k.currPid);
    forall t, j | InStack(s', t, j)
      ensures Placed(k', s', t, j) && TableKept(k', s', t, j)
    {
      ChildPlaced(k, s, l, child, isShell, t, j);
    }
    ChildCovered(k, s, l, child, isShell);
  }

  /** The descriptor table, the image and the PID pool allow the command to start. */
  predicate Launchable(k: Kernel, cmd: Command)
    requires Sized(k) && (cmd.Command? ==> F.KnownType(cmd.lookup))
  {
    GoodImage(k, cmd) && cmd.loads && AvailPid(k) != -1
  }

  /** The command names a program that can be opened and whose header is sound. */
  predicate GoodImage(k: Kernel, cmd: Command)
    requires Sized(k) && (cmd.Command? ==> F.KnownType(cmd.lookup))
  {
    && cmd.Command? && cmd.lookup.Entry? && cmd.lookup.fileType == 2
    && F.Open(k.pcbs[k.currPid].fds, cmd.lookup).fd != -1
    && cmd.magicOk && cmd.entryOk
  }

  /** A command that cannot start leaves the kernel exactly as it was: descriptors, hint, page frame and stack. */
  lemma FailedExecuteChangesNothing(k: Kernel, cmd: Command)
    requires Sized(k) && (cmd.Command? ==> F.KnownType(cmd.lookup))
    requires F.Tidy(k.pcbs[k.currPid].fds)
    ensures Execute(k, cmd).Switched? <==> Launchable(k, cmd)
    ensures Execute(k, cmd).Returned? && k.userFrame == UserFrame(k.currPid) ==> Execute(k, cmd).kernel == k
    ensures Execute(k, cmd).Returned? ==> Execute(k, cmd).ret == (if GoodImage(k, cmd) then 1 else -1)
  {
    if cmd.Command? && cmd.lookup.Entry? && cmd.lookup.fileType == 2 {
      var t := k.pcbs[k.currPid].fds;
      var r := F.Open(t, cmd.lookup);
      F.OpenTakesLeastFree(t, cmd.lookup);
      var k1 := WithFds(k, k.currPid, r.table);
      SamePool(k.pcbs, k1.pcbs, 0);
      assert WithFds(k, k.currPid, t) == k;
      if r.fd == -1 {
        assert CloseFd(k1, -1) == k;
      } else {
        F.CloseUndoesOpen(t, cmd.lookup);
        assert WithFds(k1, k.currPid, t) == k;
      }
    }
  }

  /** What execute answers: -1 for a name that is no program, with all six slots used, or for an unsound image; 1 when
      the six PIDs are in use or the image cannot be loaded; and otherwise it switches to a new process. */
  lemma ExecuteDecides(k: Kernel, cmd: Command)
    requires Sized(k) && (cmd.Command? ==> F.KnownType(cmd.lookup))
    requires F.Tidy(k.pcbs[k.currPid].fds)
    ensures var opens := cmd.Command? && cmd.lookup.Entry? && cmd.lookup.fileType == 2
        && exists i :: 2 <= i < 8 && !k.pcbs[k.currPid].fds.spaces[i];
      var r := Execute(k, cmd);
      if !opens || !cmd.magicOk || !cmd.entryOk then r.Returned? && r.ret == -1
      else if !cmd.loads || (forall p :: 0 <= p < 6 ==> k.pcbs[p].inUse) then r.Returned? && r.ret == 1
      else r.Switched?
  {
    FailedExecuteChangesNothing(k, cmd);
    if cmd.Command? && cmd.lookup.Entry? {
      F.OpenTakesLeastFree(k.pcbs[k.currPid].fds, cmd.lookup);
    }
  }

  /** The kernel runs process p on terminal t, in its own memory. */
  predicate Runs(k: Kernel, p: int, t: int)
    requires Sized(k) && IsPid(p) && IsTerminal(t)
  {
    && k.currPid == p && k.terminalActive == t && k.active[t] == p
    && k.pcbs[p].inUse && k.pcbs[p].terminal == t
    && 4096 * k.userFrame == 0x80_0000 + 0x40_0000 * p && k.esp0 == 0x80_0000 - 8192 * p - 1
  }

  /** Nothing of a process other than p but its descriptors has changed. */
  predicate OthersKept(k: Kernel, k': Kernel, p: int)
    requires Sized(k) && Sized(k') && IsPid(p)
  {
    forall q :: 0 <= q < 6 && q != p ==> k'.pcbs[q] == k.pcbs[q].(fds := k'.pcbs[q].fds, execFd := k'.pcbs[q].execFd)
  }

  /** p is the base process of the active terminal. */
  predicate IsBase(k: Kernel, k': Kernel, p: int)
    requires Sized(k) && Sized(k') && IsPid(p)
  {
    && k'.pcbs[p].parent == -1 && k'.pcbs[p].shell && k'.pcbs[p].execFd == -1
    && k'.base == k.base[k.terminalActive := p] && k'.active == k.active[k.terminalActive := p]
  }

  /** p is a child of the process that was current, which keeps the program open as fd. */
  predicate IsChild(k: Kernel, k': Kernel, p: int, isShell: bool, fd: int)
    requires Sized(k) && Sized(k') && IsPid(p)
  {
    && k'.pcbs[p].parent == k.currPid && k'.pcbs[p].shell == isShell && k'.pcbs[p].execFd == 0
    && k'.base == k.base && k'.active == k.active[k.terminalActive := p]
    && k'.pcbs[k.currPid].execFd == fd
  }

  lemma BaseStarted(k: Kernel, fd: int, p: int)
    requires Sized(k) && IsPid(p) && k.userFrame == UserFrame(p)
    ensures var k' := StartBase(k, fd, p); Runs(k', p, k.terminalActive) && OthersKept(k, k', p) && IsBase(k, k', p)
  {
  }

  lemma ChildStarted(k: Kernel, fd: int, p: int, isShell: bool)
    requires Sized(k) && IsPid(p) && k.userFrame == UserFrame(p) && p != k.currPid
    ensures var k' := StartChild(k, fd, p, isShell);
      Runs(k', p, k.terminalActive) && OthersKept(k, k', p) && IsChild(k, k', p, isShell, fd)
  {
  }

  /** The process that a successful execute starts has the least PID not in use. The first shell of a terminal is its
      base process, without a parent; any other process is a child of the one that called execute. */
  lemma StartedProcess(k: Kernel, cmd: Command)
    requires Sized(k) && (cmd.Command? ==> F.KnownType(cmd.lookup)) && Launchable(k, cmd)
    ensures var k', p, t := Execute(k, cmd).kernel, AvailPid(k), k.terminalActive;
      && !k.pcbs[p].inUse && (forall q :: 0 <= q < p ==> k.pcbs[q].inUse)
      && if cmd.isShell && k.base[t] == -1 then Runs(k', p, t) && OthersKept(k, k', p) && IsBase(k, k', p)
         else k.pcbs[k.currPid].inUse ==>
           && Runs(k', p, t) && OthersKept(k, k', p)
           && IsChild(k, k', p, cmd.isShell, F.Open(k.pcbs[k.currPid].fds, cmd.lookup).fd)
  {
    var r := F.Open(k.pcbs[k.currPid].fds, cmd.lookup);
    var p := AvailPid(k);
    var k1 := WithFds(k, k.currPid, r.table).(userFrame := UserFrame(p));
    SamePool(k.pcbs, k1.pcbs, 0);
    if cmd.isShell && k.base[k.terminalActive] == -1 {
      BaseStarted(k1, r.fd, p);
      assert OthersKept(k, Execute(k, cmd).kernel, p);
    } else if k.pcbs[k.currPid].inUse {
      ChildStarted(k1, r.fd, p, cmd.isShell);
      assert OthersKept(k, Execute(k, cmd).kernel, p);
    }
  }

  lemma {:induction false} SamePool(a: seq<Pcb>, b: seq<Pcb>, p: nat)
    requires |a| == |b| == PID_NUM && p <= PID_NUM
    requires forall q :: 0 <= q < PID_NUM ==> a[q].inUse == b[q].inUse
    ensures AvailFrom(a, p) == AvailFrom(b, p)
    decreases PID_NUM - p
  {
    if p < PID_NUM {
      SamePool(a, b, p + 1);
    }
  }

  /** A base shell started on a terminal without processes becomes its whole stack, whoever was current. */
  lemma BaseAgrees(k: Kernel, s: Spec, l: F.Lookup, child: int)
    requires StacksAgree(k, s) && k.terminalActive == s.terminalActive && s.stacks[s.terminalActive] == []
    requires F.KnownType(l) && F.Tidy(k.pcbs[k.currPid].fds) && F.Open(k.pcbs[k.currPid].fds, l).fd != -1
    requires IsPid(child) && !k.pcbs[child].inUse
    ensures var r := F.Open(k.pcbs[k.currPid].fds, l);
      Agrees(StartBase(WithFds(k, k.currPid, r.table).(userFrame := UserFrame(child)), r.fd, child), Push(s, child))
  {
    var table := k.pcbs[k.currPid].fds;
    var r := F.Open(table, l);
    var k1 := WithFds(k, k.currPid, r.table).(userFrame := UserFrame(child));
    var k' := StartBase(k1, r.fd, child);
    var s' := Push(s, child);
    F.CloseUndoesOpen(table, l);
    assert CloseFd(k1, r.fd).pcbs == k.pcbs;
    forall t, j | InStack(s', t, j)
      ensures Placed(k', s', t, j) && TableKept(k', s', t, j)
    {
      if t != k.terminalActive {
        assert InStack(s, t, j);
        if j > 0 {
          assert InStack(s, t, j - 1);
        }
      }
    }
    forall p | IsPid(p) && k'.pcbs[p].inUse
      ensures InStack(s', k'.pcbs[p].terminal, s'.depth[p]) && s'.stacks[k'.pcbs[p].terminal][s'.depth[p]].pid == p
    {
      assert p != child ==> k.pcbs[p].inUse;
    }
  }

  lemma LaunchResult(k: Kernel, cmd: Command)
    requires Sized(k) && (cmd.Command? ==> F.KnownType(cmd.lookup)) && Launchable(k, cmd)
    requires !cmd.isShell || k.base[k.terminalActive] != -1
    ensures Execute(k, cmd) == Switched(WithChild(k, cmd.lookup, AvailPid(k), cmd.isShell))
  {
    SamePool(k.pcbs, WithFds(k, k.currPid, F.Open(k.pcbs[k.currPid].fds, cmd.lookup).table).pcbs, 0);
  }

  /** execute() by the current process: a push, or nothing. */
  lemma ExecuteAgrees(k: Kernel, s: Spec, cmd: Command)
    requires Agrees(k, s) && (cmd.Command? ==> F.KnownType(cmd.lookup))
    ensures F.Tidy(k.pcbs[k.currPid].fds)
    ensures Execute(k, cmd).Switched? <==> Launchable(k, cmd)
    ensures if Launchable(k, cmd) then Agrees(Execute(k, cmd).kernel, Push(s, AvailPid(k)))
            else Execute(k, cmd).kernel == k
  {
    assert InStack(s, s.terminalActive, |s.stacks[s.terminalActive]| - 1);
    FailedExecuteChangesNothing(k, cmd);
    if Launchable(k, cmd) {
      assert InStack(s, s.terminalActive, 0);
      ChildAgrees(k, s, cmd.lookup, AvailPid(k), cmd.isShell);
      LaunchResult(k, cmd);
    }
  }

  /** Starting a base shell from a state in which the active terminal has no process. */
  lemma LaunchAgrees(k: Kernel, s: Spec, shell: Command)
    requires StacksAgree(k, s) && k.terminalActive == s.terminalActive && s.stacks[s.terminalActive] == []
    requires F.Tidy(k.pcbs[k.currPid].fds)
    requires shell.Command? ==> F.KnownType(shell.lookup) && shell.isShell
    ensures Launchable(k, shell) ==> Agrees(Execute(k, shell).kernel, Push(s, AvailPid(k)))
    ensures !Launchable(k, shell) && k.userFrame == UserFrame(k.currPid) ==> Execute(k, shell).kernel == k
  {
    FailedExecuteChangesNothing(k, shell);
    if Launchable(k, shell) {
      var r := F.Open(k.pcbs[k.currPid].fds, shell.lookup);
      SamePool(k.pcbs, WithFds(k, k.currPid, r.table).pcbs, 0);
      BaseAgrees(k, s, shell.lookup, AvailPid(k));
    }
  }

  lemma PopKeeps(k: Kernel, s: Spec, k': Kernel, t: int, j: int)
    requires Agrees(k, s) && Sized(k') && InStack(Pop(s), t, j)
    requires k'.pcbs == k.pcbs[k.currPid := k.pcbs[k.currPid].(inUse := false)]
    ensures Placed(k', Pop(s), t, j)
    ensures t != k.terminalActive || j + 2 < |s.stacks[k.terminalActive]| ==> TableKept(k', Pop(s), t, j)
  {
    assert InStack(s, t, j) && Pop(s).stacks[t][j] == s.stacks[t][j];
    assert InStack(s, k.terminalActive, |s.stacks[k.terminalActive]| - 1);
    if j > 0 {
      assert InStack(s, t, j - 1) && Pop(s).stacks[t][j - 1] == s.stacks[t][j - 1];
    }
  }

  /** Taking the top process off the active terminal's stack; the rest is as it was. */
  lemma PopAgrees(k: Kernel, s: Spec, k': Kernel)
    requires Agrees(k, s) && Sized(k')
    requires var t, height := k.terminalActive, |s.stacks[k.terminalActive]|;
      var below := if height == 1 then -1 else s.stacks[t][height - 2].pid;
      && k'.pcbs == k.pcbs[k.currPid := k.pcbs[k.currPid].(inUse := false)]
      && k'.active == k.active[t := below] && k'.base == (if height == 1 then k.base[t := -1] else k.base)
    ensures Links(k', Pop(s)) && Ends(k', Pop(s)) && Covered(k', Pop(s))
    ensures forall t, j :: InStack(Pop(s), t, j) && (t != k.terminalActive || j + 2 < |s.stacks[t]|) ==>
      TableKept(k', Pop(s), t, j)
  {
    var s' := Pop(s);
    var top, height := k.terminalActive, |s.stacks[k.terminalActive]|;
    assert InStack(s, top, height - 1);
    forall t, j | InStack(s', t, j)
      ensures Placed(k', s', t, j)
      ensures t != top || j + 2 < height ==> TableKept(k', s', t, j)
    {
      PopKeeps(k, s, k', t, j);
    }
    forall p | IsPid(p) && k'.pcbs[p].inUse
      ensures InStack(s', k'.pcbs[p].terminal, s'.depth[p]) && s'.stacks[k'.pcbs[p].terminal][s'.depth[p]].pid == p
    {
      assert k.pcbs[p].inUse && p != k.currPid;
    }
  }

  predicate IsShell(shell: Command) {
    shell.Command? && F.KnownType(shell.lookup) && shell.isShell
  }

  /** The kernel as a halting base shell leaves it just before the relaunch. */
  function WithoutBase(k: Kernel): (r: Kernel)
    requires Sized(k)
    ensures Sized(r)
  {
    var t, from := k.terminalActive, k.currPid;
    k.(pcbs := k.pcbs[from := k.pcbs[from].(inUse := false)], active := k.active[t := -1], base := k.base[t := -1])
  }

  lemma TopIsBase(k: Kernel, s: Spec)
    requires Agrees(k, s)
    ensures k.currPid == k.base[k.terminalActive] <==> |s.stacks[k.terminalActive]| == 1
    ensures k.currPid != k.base[k.terminalActive] ==>
      && IsPid(k.pcbs[k.currPid].parent)
      && k.pcbs[k.currPid].parent == s.stacks[k.terminalActive][|s.stacks[k.terminalActive]| - 2].pid
    ensures F.Running(k.pcbs[k.currPid].fds) && k.pcbs[k.currPid].fds == Top(s).table
  {
    var t, height := k.terminalActive, |s.stacks[k.terminalActive]|;
    assert InStack(s, t, height - 1) && InStack(s, t, 0);
    assert height > 1 ==> InStack(s, t, height - 2);
  }

  /** halt of a process with a parent: a pop, and the parent's descriptor table is the one it left. */
  lemma HaltAgrees(k: Kernel, s: Spec, shell: Command)
    requires Agrees(k, s) && IsShell(shell) && k.currPid != k.base[k.terminalActive]
    ensures IsPid(k.pcbs[k.currPid].parent) && Agrees(Halt(k, shell), Pop(s))
  {
    TopIsBase(k, s);
    var t, from, height := k.terminalActive, k.currPid, |s.stacks[k.terminalActive]|;
    var to := k.pcbs[from].parent;
    assert InStack(s, t, height - 1) && InStack(s, t, height - 2);
    var k1 := k.(currPid := to, pcbs := k.pcbs[from := k.pcbs[from].(inUse := false)],
                 esp0 := PstackLoc(to), active := k.active[t := to]);
    PopAgrees(k, s, k1);
    assert k1.pcbs[to].fds == k.pcbs[to].fds && k1.pcbs[to].execFd == k.pcbs[to].execFd;
    UncoverTop(k1, Pop(s), s.stacks[t][height - 2].table);
    assert Halt(k, shell) == CloseFd(k1, k1.pcbs[to].execFd).(userFrame := UserFrame(to));
  }

  /** Everything agrees once the uncovered top process's table is the one it left. */
  lemma UncoverTop(k: Kernel, s: Spec, table: F.Table)
    requires Sized(k) && Links(k, s) && Ends(k, s) && Covered(k, s)
    requires k.terminalActive == s.terminalActive && s.stacks[s.terminalActive] != []
    requires k.currPid == Top(s).pid && k.esp0 == PstackLoc(k.currPid)
    requires table == Top(s).table && F.Running(table)
    requires forall t, j :: InStack(s, t, j) && (t != k.terminalActive || j + 1 < |s.stacks[t]|) ==>
      TableKept(k, s, t, j)
    ensures Agrees(WithFds(k, k.currPid, table).(userFrame := UserFrame(k.currPid)), s)
  {
    var k' := WithFds(k, k.currPid, table).(userFrame := UserFrame(k.currPid));
    assert InStack(s, k.terminalActive, |s.stacks[k.terminalActive]| - 1);
    forall t, j | InStack(s, t, j)
      ensures Placed(k', s, t, j) && TableKept(k', s, t, j)
    {
      assert Placed(k, s, t, j);
    }
    forall p | IsPid(p) && k'.pcbs[p].inUse
      ensures InStack(s, k'.pcbs[p].terminal, s.depth[p]) && s.stacks[k'.pcbs[p].terminal][s.depth[p]].pid == p
    {
      assert k.pcbs[p].inUse;
    }
  }

  /** halt of a base shell: a new base shell, if one can be started. */
  lemma HaltBaseAgrees(k: Kernel, s: Spec, shell: Command)
    requires Agrees(k, s) && IsShell(shell) && k.currPid == k.base[k.terminalActive]
    ensures if Launchable(WithoutBase(k), shell) then Agrees(Halt(k, shell), Push(Pop(s), AvailPid(WithoutBase(k))))
            else Halt(k, shell) == WithoutBase(k)
  {
    TopIsBase(k, s);
    PopAgrees(k, s, WithoutBase(k));
    LaunchAgrees(WithoutBase(k), Pop(s), shell);
  }

  function NextTerminal(k: Kernel): (t: int)
    ensures IsTerminal(t)
  {
    (k.terminalActive + 1) % TERMINALS
  }

  lemma TickAgrees(k: Kernel, s: Spec, shell: Command)
    requires Agrees(k, s) && IsShell(shell)
    ensures var next := NextTerminal(k);
      k.base[next] != -1 ==> IsPid(k.active[next]) && Agrees(Tick(k, shell), s.(terminalActive := next))
    ensures var next := NextTerminal(k);
      var k1 := k.(terminalActive := next);
      k.base[next] == -1 ==>
        && k.active[next] == -1
        && (if Launchable(k1, shell) then Agrees(Tick(k, shell), Push(s.(terminalActive := next), AvailPid(k1)))
            else Tick(k, shell) == k1)
  {
    var next := NextTerminal(k);
    TopIsBase(k, s);
    var s1 := s.(terminalActive := next);
    var k1 := k.(terminalActive := next);
    forall t, j | InStack(s1, t, j)
      ensures InStack(s, t, j)
    {
    }
    if k.base[next] == -1 {
      assert s.stacks[next] != [] ==> InStack(s, next, 0);
      StacksFrame(k, s, k1, s1);
      LaunchAgrees(k1, s1, shell);
    } else {
      assert InStack(s, next, |s.stacks[next]| - 1);
      StacksFrame(k, s, Tick(k, shell), s1);
    }
  }

  /** The stacks do not depend on which terminal or process is current. */
  lemma StacksFrame(k: Kernel, s: Spec, k': Kernel, s': Spec)
    requires StacksAgree(k, s) && Sized(k') && SpecSized(s')
    requires k'.pcbs == k.pcbs && k'.base == k.base && k'.active == k.active
    requires s'.stacks == s.stacks && s'.depth == s.depth
    ensures StacksAgree(k', s')
  {
    forall t, j | InStack(s', t, j)
      ensures Placed(k', s', t, j) && TableKept(k', s', t, j)
    {
      assert InStack(s, t, j);
    }
  }

  // ---------------------------------------------------------------------------------------------
  // Runs
  // ---------------------------------------------------------------------------------------------

  datatype Event =
    | Exec(cmd: Command)
    | Exit
    | TimerTick
    | OpenFile(lookup: F.Lookup)
    | CloseFile(fd: int)
    | Advance(fd: int, pos: nat)    // a read that moves file_pos

  predicate ValidEvent(e: Event) {
    match e
    case Exec(cmd) => cmd.Command? ==> F.KnownType(cmd.lookup)
    case OpenFile(l) => F.KnownType(l)
    case _ => true
  }

  function Advanced(t: F.Table, fd: int, pos: nat): (r: F.Table)
    requires F.Sized(t)
    ensures F.Sized(r)
  {
    if 2 <= fd < F.FD_ARRAY_SIZE && t.spaces[fd] then t.(files := t.files[fd := t.files[fd].(filePos := pos)]) else t
  }

  /** What the current process does to its own descriptor table. */
  function OwnTable(t: F.Table, e: Event): (r: F.Table)
    requires F.Sized(t) && ValidEvent(e)
    ensures F.Sized(r)
  {
    match e
    case OpenFile(l) => F.Open(t, l).table
    case CloseFile(fd) => F.Close(t, fd).table
    case Advance(fd, pos) => Advanced(t, fd, pos)
    case _ => t
  }

  predicate HasParent(k: Kernel)
    requires Sized(k)
  {
    k.currPid != k.base[k.terminalActive] ==> IsPid(k.pcbs[k.currPid].parent)
  }

  /** One event of the kernel; the two guards hold whenever the stacks agree. */
  function Step(k: Kernel, e: Event, shell: Command): (r: Kernel)
    requires Sized(k) && ValidEvent(e) && IsShell(shell)
    ensures Sized(r)
  {
    match e
    case Exec(cmd) => Execute(k, cmd).kernel
    case Exit => if HasParent(k) then Halt(k, shell) else k
    case TimerTick => if k.base[NextTerminal(k)] != -1 && !IsPid(k.active[NextTerminal(k)]) then k else Tick(k, shell)
    case _ => WithFds(k, k.currPid, OwnTable(k.pcbs[k.currPid].fds, e))
  }

  /** A base shell can be started whenever the event needs one. */
  predicate CanHappen(k: Kernel, e: Event, shell: Command)
    requires Sized(k) && IsShell(shell)
  {
    match e
    case Exit => k.currPid == k.base[k.terminalActive] ==> Launchable(WithoutBase(k), shell)
    case TimerTick => k.base[NextTerminal(k)] == -1 ==> Launchable(k.(terminalActive := NextTerminal(k)), shell)
    case _ => true
  }

  function SpecStep(k: Kernel, s: Spec, e: Event, shell: Command): (r: Spec)
    requires Sized(k) && SpecSized(s) && ValidEvent(e) && IsShell(shell) && CanHappen(k, e, shell)
    requires s.stacks[s.terminalActive] != [] && F.Sized(Top(s).table)
    ensures SpecSized(r)
  {
    match e
    case Exec(cmd) => if Launchable(k, cmd) then Push(s, AvailPid(k)) else s
    case Exit => if k.currPid == k.base[k.terminalActive] then Push(Pop(s), AvailPid(WithoutBase(k))) else Pop(s)
    case TimerTick =>
      var next := NextTerminal(k);
      var s1 := s.(terminalActive := next);
      if k.base[next] == -1 then Push(s1, AvailPid(k.(terminalActive := next))) else s1
    case _ => WithTop(s, OwnTable(Top(s).table, e))
  }

  lemma OwnTablePlaced(k: Kernel, s: Spec, table: F.Table, t: int, j: int)
    requires Agrees(k, s) && F.Running(table) && InStack(s, t, j)
    ensures Placed(WithFds(k, k.currPid, table), WithTop(s, table), t, j)
    ensures TableKept(WithFds(k, k.currPid, table), WithTop(s, table), t, j)
  {
    assert InStack(s, k.terminalActive, |s.stacks[k.terminalActive]| - 1);
    assert j > 0 ==> InStack(s, t, j - 1);
  }

  lemma OwnTableAgrees(k: Kernel, s: Spec, table: F.Table)
    requires Agrees(k, s) && F.Running(table)
    ensures Agrees(WithFds(k, k.currPid, table), WithTop(s, table))
  {
    var k', s' := WithFds(k, k.currPid, table), WithTop(s, table);
    assert InStack(s, k.terminalActive, |s.stacks[k.terminalActive]| - 1);
    forall t, j | InStack(s', t, j)
      ensures Placed(k', s', t, j) && TableKept(k', s', t, j)
    {
      assert InStack(s, t, j);
      OwnTablePlaced(k, s, table, t, j);
    }
    forall p | IsPid(p) && k'.pcbs[p].inUse
      ensures InStack(s', k'.pcbs[p].terminal, s'.depth[p])
      ensures s'.stacks[k'.pcbs[p].terminal][s'.depth[p]].pid == p
    {
      assert k.pcbs[p].inUse;
    }
  }

  lemma OwnTableRunning(t: F.Table, e: Event)
    requires F.Running(t) && ValidEvent(e)
    ensures F.Running(OwnTable(t, e))
  {
    match e {
      case OpenFile(l) => if l.Entry? { F.OpenTakesLeastFree(t, l); }
      case CloseFile(fd) => F.CloseKeepsTidy(t, fd);
      case _ =>
    }
  }

  /** Every event keeps the stacks in agreement, exactly when a base shell can be started whenever one is needed. */
  lemma StepAgreesExactly(k: Kernel, s: Spec, e: Event, shell: Command)
    requires Agrees(k, s) && ValidEvent(e) && IsShell(shell)
    ensures F.Sized(Top(s).table)
    ensures CanHappen(k, e, shell) ==> Agrees(Step(k, e, shell), SpecStep(k, s, e, shell))
    ensures !CanHappen(k, e, shell) ==> forall s' :: !Agrees(Step(k, e, shell), s')
  {
    TopIsBase(k, s);
    match e {
      case Exec(cmd) => ExecuteAgrees(k, s, cmd);
      case Exit =>
        if k.currPid == k.base[k.terminalActive] { HaltBaseAgrees(k, s, shell); } else { HaltAgrees(k, s, shell); }
      case TimerTick => TickAgrees(k, s, shell);
      case _ =>
        OwnTableRunning(Top(s).table, e);
        OwnTableAgrees(k, s, OwnTable(Top(s).table, e));
    }
  }

  /** Every event of the run can happen when it does. */
  predicate CanRun(k: Kernel, events: seq<Event>, shell: Command)
    requires Sized(k) && IsShell(shell)
    decreases |events|
  {
    events == [] ||
      (ValidEvent(events[0]) && CanHappen(k, events[0], shell) && CanRun(Step(k, events[0], shell), events[1..], shell))
  }

  function Run(k: Kernel, events: seq<Event>, shell: Command): (r: Kernel)
    requires Sized(k) && IsShell(shell) && CanRun(k, events, shell)
    ensures Sized(r)
    decreases |events|
  {
    if events == [] then k else Run(Step(k, events[0], shell), events[1..], shell)
  }

  /** The stacks after the same run. */
  ghost function SpecRun(k: Kernel, s: Spec, events: seq<Event>, shell: Command): (r: Spec)
    requires Agrees(k, s) && IsShell(shell) && CanRun(k, events, shell)
    ensures SpecSized(r)
    decreases |events|
  {
    if events == [] then s
    else
      StepAgreesExactly(k, s, events[0], shell);
      SpecRun(Step(k, events[0], shell), SpecStep(k, s, events[0], shell), events[1..], shell)
  }

  /** Over every run, the kernel keeps three stacks of processes: with Agrees come the parent chains, their
      partition of the PIDs in use, and the current process's page frame and kernel stack. */
  lemma {:induction false} RunAgrees(k: Kernel, s: Spec, events: seq<Event>, shell: Command)
    requires Agrees(k, s) && IsShell(shell) && CanRun(k, events, shell)
    ensures Agrees(Run(k, events, shell), SpecRun(k, s, events, shell))
    decreases |events|
  {
    if events != [] {
      StepAgreesExactly(k, s, events[0], shell);
      RunAgrees(Step(k, events[0], shell), SpecStep(k, s, events[0], shell), events[1..], shell);
    }
  }

  /** The memory over every run: the current process is one in use on the active terminal, and the program page and the
      kernel stack are its own 4 MB and its own 8 KB, which no other process has a byte of. */
  lemma RunInOwnMemory(k: Kernel, s: Spec, events: seq<Event>, shell: Command, q: int)
    requires Agrees(k, s) && IsShell(shell) && CanRun(k, events, shell) && IsPid(q)
    ensures var k' := Run(k, events, shell);
      && Runs(k', k'.currPid, k'.terminalActive)
      && (q != k'.currPid ==>
           && Apart(4096 * k'.userFrame, 0x80_0000 + 0x40_0000 * q, 0x40_0000)
           && Apart(k'.esp0 - 8191, 0x80_0000 - 8192 * (q + 1), 8192))
  {
    RunAgrees(k, s, events, shell);
    var s' := SpecRun(k, s, events, shell);
    assert InStack(s', s'.terminalActive, |s'.stacks[s'.terminalActive]| - 1);
  }

  /** The descriptor tables over every run: each process in use has stdin and stdout, its unused slots are zeroed, and
      its full hint is set only with every slot used. */
  lemma RunKeepsTables(k: Kernel, s: Spec, events: seq<Event>, shell: Command, p: int)
    requires Agrees(k, s) && IsShell(shell) && CanRun(k, events, shell) && IsPid(p)
    ensures var pcb := Run(k, events, shell).pcbs[p]; pcb.inUse ==> F.Running(pcb.fds)
  {
    RunAgrees(k, s, events, shell);
    var k', s' := Run(k, events, shell), SpecRun(k, s, events, shell);
    if k'.pcbs[p].inUse {
      assert InStack(s', k'.pcbs[p].terminal, s'.depth[p]);
      assert TableKept(k', s', k'.pcbs[p].terminal, s'.depth[p]);
    }
  }

  // ---------------------------------------------------------------------------------------------
  // Events that cannot happen
  // ---------------------------------------------------------------------------------------------

  /** A base shell that used up its descriptors cannot be relaunched: the relaunch opens the shell with them. */
  lemma FullBaseCannotExit(k: Kernel, s: Spec, shell: Command)
    requires Agrees(k, s) && IsShell(shell)
    requires k.currPid == k.base[k.terminalActive] && F.AllUsed(k.pcbs[k.currPid].fds)
    ensures !CanHappen(k, Exit, shell)
    ensures forall s' :: !Agrees(Step(k, Exit, shell), s')
  {
    TopIsBase(k, s);
    if shell.lookup.Entry? {
      F.OpenTakesLeastFree(k.pcbs[k.currPid].fds, shell.lookup);
    }
    StepAgreesExactly(k, s, Exit, shell);
  }

  /** With all six PIDs in use the shell of a terminal that has none cannot be started by its tick. */
  lemma FullPoolCannotTick(k: Kernel, s: Spec, shell: Command)
    requires Agrees(k, s) && IsShell(shell) && k.base[NextTerminal(k)] == -1
    requires forall p :: 0 <= p < PID_NUM ==> k.pcbs[p].inUse
    ensures !CanHappen(k, TimerTick, shell)
    ensures forall s' :: !Agrees(Step(k, TimerTick, shell), s')
  {
    StepAgreesExactly(k, s, TimerTick, shell);
  }

  /** As init_pids and the static initialisers leave things. */
  predicate Booted(k: Kernel) {
    && Sized(k) && k.currPid == 0 && k.terminalActive == TERMINALS - 1 && k.userFrame == 0
    && (forall p :: 0 <= p < PID_NUM ==> !k.pcbs[p].inUse && k.pcbs[p].fds == F.ZeroTable())
    && (forall t :: 0 <= t < TERMINALS ==> k.base[t] == -1 && k.active[t] == -1)
  }

  /** The first tick after boot starts the shell of terminal 0 as process 0, and the stacks agree from there on. */
  lemma FirstTick(k: Kernel, shell: Command)
    requires Booted(k) && IsShell(shell)
    requires shell.lookup.Entry? && shell.lookup.fileType == 2 && shell.magicOk && shell.entryOk && shell.loads
    ensures Agrees(Tick(k, shell), Push(Spec([[], [], []], seq(PID_NUM, _ => 0), 0), 0))
  {
    var s := Spec([[], [], []], seq(PID_NUM, _ => 0), 0);
    var k1 := k.(terminalActive := 0);
    F.OpenTakesLeastFree(F.ZeroTable(), shell.lookup);
    assert AvailPid(k1) == 0;
    assert Launchable(k1, shell);
    LaunchAgrees(k1, s, shell);
  }

  predicate GoodShell(shell: Command) {
    && IsShell(shell) && shell.lookup.Entry? && shell.lookup.fileType == 2
    && shell.magicOk && shell.entryOk && shell.loads
  }

  /** Slots 2 to n + 1 are used, and no others from 2 on. */
  predicate UsedUpTo(t: F.Table, n: nat) {
    F.Sized(t) && forall i :: 2 <= i < F.FD_ARRAY_SIZE ==> (t.spaces[i] <==> i < 2 + n)
  }

  function Opens(l: F.Lookup, n: nat): (events: seq<Event>)
    ensures |events| == n && forall i :: 0 <= i < n ==> events[i] == OpenFile(l)
  {
    seq(n, _ => OpenFile(l))
  }

  lemma {:induction false} OpensFill(k: Kernel, s: Spec, l: F.Lookup, used: nat, n: nat, shell: Command)
    requires Agrees(k, s) && IsShell(shell) && l.Entry? && F.KnownType(l)
    requires UsedUpTo(k.pcbs[k.currPid].fds, used) && used + n <= 6
    ensures CanRun(k, Opens(l, n), shell)
    ensures var k' := Run(k, Opens(l, n), shell);
      && k'.currPid == k.currPid && k'.base == k.base && k'.terminalActive == k.terminalActive
      && UsedUpTo(k'.pcbs[k'.currPid].fds, used + n)
    decreases n
  {
    if n > 0 {
      TopIsBase(k, s);
      F.OpenTakesLeastFree(k.pcbs[k.currPid].fds, l);
      StepAgreesExactly(k, s, OpenFile(l), shell);
      assert Opens(l, n)[1..] == Opens(l, n - 1);
      OpensFill(Step(k, OpenFile(l), shell), SpecStep(k, s, OpenFile(l), shell), l, used + 1, n - 1, shell);
    }
  }

  /** It happens: from boot, the first tick, six opens by the shell it starts, and that shell's exit leave a state that
      is no stacks of processes. */
  lemma SixOpensThenExit(k: Kernel, shell: Command, l: F.Lookup)
    requires Booted(k) && GoodShell(shell) && l.Entry? && F.KnownType(l)
    ensures var k1 := Tick(k, shell);
      && CanRun(k1, Opens(l, 6), shell)
      && var k2 := Run(k1, Opens(l, 6), shell);
         !CanHappen(k2, Exit, shell) && forall s' :: !Agrees(Step(k2, Exit, shell), s')
  {
    FirstTick(k, shell);
    var k1, s1 := Tick(k, shell), Push(Spec([[], [], []], seq(PID_NUM, _ => 0), 0), 0);
    TopIsBase(k1, s1);
    assert UsedUpTo(F.FreshTable(), 0);
    OpensFill(k1, s1, l, 0, 6, shell);
    RunAgrees(k1, s1, Opens(l, 6), shell);
    FullBaseCannotExit(Run(k1, Opens(l, 6), shell), SpecRun(k1, s1, Opens(l, 6), shell), shell);
  }

  // ---------------------------------------------------------------------------------------------
  // The execute/halt bracket
  // ---------------------------------------------------------------------------------------------

  ghost function Height(s: Spec, t: int): nat
    requires SpecSized(s) && IsTerminal(t)
  {
    |s.stacks[t]|
  }

  /** Terminal t's stack is at least this high all through the run. */
  ghost predicate StaysAbove(k: Kernel, s: Spec, events: seq<Event>, shell: Command, t: int, height: nat)
    requires Agrees(k, s) && IsShell(shell) && CanRun(k, events, shell) && IsTerminal(t)
    decreases |events|
  {
    && Height(s, t) >= height
    && (events == [] ||
        (StepAgreesExactly(k, s, events[0], shell);
         StaysAbove(Step(k, events[0], shell), SpecStep(k, s, events[0], shell), events[1..], shell, t, height)))
  }

  lemma StepKeepsBelow(k: Kernel, s: Spec, e: Event, shell: Command, t: int, height: nat)
    requires Agrees(k, s) && IsShell(shell) && ValidEvent(e) && CanHappen(k, e, shell) && IsTerminal(t)
    requires F.Sized(Top(s).table)
    requires Height(s, t) > height && Height(SpecStep(k, s, e, shell), t) > height > 0
    ensures SpecStep(k, s, e, shell).stacks[t][..height] == s.stacks[t][..height]
  {
    TopIsBase(k, s);
    var next := NextTerminal(k);
    assert k.base[next] == -1 ==> s.stacks[next] == [] by {
      assert s.stacks[next] != [] ==> InStack(s, next, 0);
    }
  }

  /** Frames below the height that the run never goes under are untouched: their processes are suspended. */
  lemma {:induction false} RunKeepsBelow(k: Kernel, s: Spec, events: seq<Event>, shell: Command, t: int, height: nat)
    requires Agrees(k, s) && IsShell(shell) && CanRun(k, events, shell) && IsTerminal(t)
    requires height > 0 && StaysAbove(k, s, events, shell, t, height + 1)
    ensures Height(SpecRun(k, s, events, shell), t) > height
    ensures SpecRun(k, s, events, shell).stacks[t][..height] == s.stacks[t][..height]
    decreases |events|
  {
    if events != [] {
      StepAgreesExactly(k, s, events[0], shell);
      var k1, s1 := Step(k, events[0], shell), SpecStep(k, s, events[0], shell);
      StepKeepsBelow(k, s, events[0], shell, t, height);
      RunKeepsBelow(k1, s1, events[1..], shell, t, height);
    }
  }

  /** The process that was current is current again: its descriptors, used-slot map, full hint, page frame and kernel
      stack are as they were. */
  predicate Restored(k: Kernel, k': Kernel)
    requires Sized(k) && Sized(k')
  {
    && k'.currPid == k.currPid && k'.terminalActive == k.terminalActive
    && k'.pcbs[k.currPid].fds == k.pcbs[k.currPid].fds
    && k'.userFrame == k.userFrame && k'.esp0 == k.esp0
  }

  /** The bracket: whatever a child and its own children do, and however ticks to other terminals interleave,
      when the child itself halts its parent is current again with its descriptors, used-slot map, full hint, page
      frame and kernel stack as they were before its execute. */
  lemma Bracket(k: Kernel, s: Spec, cmd: Command, events: seq<Event>, shell: Command)
    requires Agrees(k, s) && IsShell(shell) && (cmd.Command? ==> F.KnownType(cmd.lookup)) && Launchable(k, cmd)
    requires var t, height := k.terminalActive, Height(s, k.terminalActive);
      var k1, s1 := Execute(k, cmd).kernel, Push(s, AvailPid(k));
      && Agrees(k1, s1) && CanRun(k1, events, shell)
      && StaysAbove(k1, s1, events, shell, t, height + 1)
      && Run(k1, events, shell).terminalActive == t
      && Height(SpecRun(k1, s1, events, shell), t) == height + 1
    ensures var k2 := Run(Execute(k, cmd).kernel, events, shell);
      && k2.currPid != k2.base[k2.terminalActive] && HasParent(k2)
      && Restored(k, Halt(k2, shell))
  {
    BracketRun(k, s, Execute(k, cmd).kernel, Push(s, AvailPid(k)), events, shell, k.terminalActive,
               Height(s, k.terminalActive));
  }

  /** The first frames of terminal t's stack are the same ones. */
  predicate SameBelow(s: Spec, s': Spec, t: int, height: nat)
    requires SpecSized(s) && SpecSized(s') && IsTerminal(t)
  {
    height <= |s.stacks[t]| && height <= |s'.stacks[t]| && s'.stacks[t][..height] == s.stacks[t][..height]
  }

  lemma SameBelowTransitive(s: Spec, s1: Spec, s2: Spec, t: int, height: nat)
    requires SpecSized(s) && SpecSized(s1) && SpecSized(s2) && IsTerminal(t)
    requires SameBelow(s, s1, t, height) && SameBelow(s1, s2, t, height)
    ensures SameBelow(s, s2, t, height)
  {
  }

  lemma BracketRun(k: Kernel, s: Spec, k1: Kernel, s1: Spec, events: seq<Event>, shell: Command, t: int, height: nat)
    requires Agrees(k, s) && IsShell(shell) && Agrees(k1, s1) && CanRun(k1, events, shell)
    requires t == k.terminalActive && height == Height(s, t) > 0 && SameBelow(s, s1, t, height)
    requires StaysAbove(k1, s1, events, shell, t, height + 1)
    requires Run(k1, events, shell).terminalActive == t && Height(SpecRun(k1, s1, events, shell), t) == height + 1
    ensures var k2 := Run(k1, events, shell);
      && k2.currPid != k2.base[k2.terminalActive] && HasParent(k2)
      && Restored(k, Halt(k2, shell))
  {
    var k2, s2 := Run(k1, events, shell), SpecRun(k1, s1, events, shell);
    RunAgrees(k1, s1, events, shell);
    RunKeepsBelow(k1, s1, events, shell, t, height);
    assert SameBelow(s1, s2, t, height);
    SameBelowTransitive(s, s1, s2, t, height);
    BracketEnd(k, s, k2, s2, shell);
  }

  lemma BracketEnd(k: Kernel, s: Spec, k2: Kernel, s2: Spec, shell: Command)
    requires Agrees(k, s) && Agrees(k2, s2) && IsShell(shell) && k2.terminalActive == k.terminalActive
    requires var height := Height(s, k.terminalActive);
      Height(s2, k.terminalActive) == height + 1 && SameBelow(s, s2, k.terminalActive, height)
    ensures k2.currPid != k2.base[k2.terminalActive] && HasParent(k2)
    ensures Restored(k, Halt(k2, shell))
  {
    var t, height := k.terminalActive, Height(s, k.terminalActive);
    assert s2.stacks[t][height - 1] == s2.stacks[t][..height][height - 1] == Top(s);
    TopIsBase(k, s);
    TopIsBase(k2, s2);
    HaltAgrees(k2, s2, shell);
    TopIsBase(Halt(k2, shell), Pop(s2));
  }

  // ---------------------------------------------------------------------------------------------
  // The pool
  // ---------------------------------------------------------------------------------------------

  function Pids(stack: seq<Frame>): (pids: seq<int>)
    ensures |pids| == |stack| && forall j :: 0 <= j < |stack| ==> pids[j] == stack[j].pid
  {
    seq(|stack|, j requires 0 <= j < |stack| => stack[j].pid)
  }

  lemma {:induction false} DistinctCount(xs: seq<int>)
    requires forall i, j :: 0 <= i < j < |xs| ==> xs[i] != xs[j]
    ensures |set x | x in xs| == |xs|
  {
    if xs != [] {
      var last := |xs| - 1;
      DistinctCount(xs[..last]);
      assert (set x | x in xs) == (set x | x in xs[..last]) + {xs[last]};
    }
  }

  function AllPids(s: Spec): (pids: seq<int>)
    requires SpecSized(s)
    ensures |pids| == |s.stacks[0]| + |s.stacks[1]| + |s.stacks[2]|
  {
    Pids(s.stacks[0]) + Pids(s.stacks[1]) + Pids(s.stacks[2])
  }

  /** Where place j of terminal t's stack is in the list of all PIDs. */
  function ListIndex(s: Spec, t: int, j: int): int
    requires SpecSized(s)
  {
    if t == 0 then j else if t == 1 then |s.stacks[0]| + j else |s.stacks[0]| + |s.stacks[1]| + j
  }

  lemma ListedAt(k: Kernel, s: Spec, i: nat)
    requires Sized(k) && Links(k, s) && i < |AllPids(s)|
    ensures var p := AllPids(s)[i];
      IsPid(p) && k.pcbs[p].inUse && i == ListIndex(s, k.pcbs[p].terminal, s.depth[p])
  {
    var h0, h1 := |s.stacks[0]|, |s.stacks[1]|;
    var t := if i < h0 then 0 else if i < h0 + h1 then 1 else 2;
    var j := if i < h0 then i else if i < h0 + h1 then i - h0 else i - h0 - h1;
    assert InStack(s, t, j) && AllPids(s)[i] == s.stacks[t][j].pid;
  }

  lemma ListedIfInUse(k: Kernel, s: Spec, p: int)
    requires Sized(k) && SpecSized(s) && Covered(k, s) && IsPid(p) && k.pcbs[p].inUse
    ensures p in AllPids(s)
  {
    var t, j := k.pcbs[p].terminal, s.depth[p];
    assert InStack(s, t, j) && s.stacks[t][j].pid == p;
    assert AllPids(s)[ListIndex(s, t, j)] == p;
  }

  /** The three stacks together hold as many processes as there are PIDs in use, and so at most six. */
  lemma PoolBound(k: Kernel, s: Spec)
    requires StacksAgree(k, s)
    ensures Height(s, 0) + Height(s, 1) + Height(s, 2) == |set p: int | 0 <= p < PID_NUM && k.pcbs[p].inUse| <= PID_NUM
  {
    var all := AllPids(s);
    var inUse := set p: int | 0 <= p < PID_NUM && k.pcbs[p].inUse;
    forall i | 0 <= i < |all|
      ensures all[i] in inUse && i == ListIndex(s, k.pcbs[all[i]].terminal, s.depth[all[i]])
    {
      ListedAt(k, s, i);
    }
    forall p | p in inUse
      ensures p in all
    {
      ListedIfInUse(k, s, p);
    }
    DistinctCount(all);
    assert inUse == set x | x in all;
    SubsetOfPids(inUse);
  }

  lemma SubsetOfPids(xs: set<int>)
    requires forall x :: x in xs ==> IsPid(x)
    ensures |xs| <= PID_NUM
  {
    var pids := {0, 1, 2, 3, 4, 5};
    forall x | x in xs ensures x in pids {
      assert IsPid(x);
    }
    assert pids == xs + (pids - xs);
  }
}
