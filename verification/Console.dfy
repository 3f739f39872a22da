/** The screen and terminal code as the kernel runs it: globals, saved contexts and video memory updated in
    place, each routine proved equal to its step of the Terminals machine. */
module Console {
  import opened Screen
  import opened Terminals

  class Console {
    // lib.c
    var screenX: int
    var screenY: int
    var terminalX: int
    var cursorChange: bool
    var videoMem: int
    // kboard.h
    var currScommandsIdx: int
    var topScommandsIdx: int
    // scheduler.c
    var terminalActive: int
    var terminalShown: int
    // the saved part of terminal_ctx, low memory, the vidmap page table entry and the display's cursor register
    const ctx: array<Regs>
    const mem: array<byte>
    var vidmapBase: int
    var hwCursor: int

    ghost function State(): Machine
      reads this, ctx, mem
    {
      Machine(Regs(Cursor(screenX, screenY, terminalX), currScommandsIdx, topScommandsIdx),
              videoMem, cursorChange, ctx[..], mem[..], terminalActive, terminalShown, vidmapBase, hwCursor)
    }

    ghost predicate Valid()
      reads this, ctx, mem
    {
      Sized(State())
    }

    /** Boot, as the static initialisers and clear() leave things: terminal 0 shown, terminal 2 nominally active. */
    constructor (memory: array<byte>)
      requires memory.Length >= (TERM_VMEM_PT + TERMINALS) * PAGE_BYTES
      ensures Valid() && fresh(ctx) && mem == memory
      ensures State().active == TERMINALS - 1 && State().shown == 0
    {
      screenX, screenY, terminalX := 0, 0, 0;
      cursorChange, videoMem := false, VIDEO;
      currScommandsIdx, topScommandsIdx := 0, 0;
      terminalActive, terminalShown := TERMINALS - 1, 0;
      ctx := new Regs[TERMINALS](_ => Regs(Cursor(0, 0, 0), 0, 0));
      mem := memory;
      vidmapBase, hwCursor := 0, 0;
    }

    method StoreByte(a: int, v: byte)
      modifies mem
      ensures mem[..] == Store(old(mem[..]), a, v)
    {
      if 0 <= a < mem.Length {
        mem[a] := v;
      }
    }

    method UpdateCursor(x: int, y: int)
      modifies `hwCursor
      ensures hwCursor == if cursorChange then (y * NUM_COLS + x) % 0x1_0000 else old(hwCursor)
      ensures x == screenX && y == screenY ==> State() == Terminals.UpdateCursor(old(State()))
    {
      if cursorChange {
        var pos := (y * NUM_COLS + x) % 0x1_0000;
        hwCursor := pos;
      }
    }

    method Clear()
      requires Valid()
      modifies this, mem
      ensures Valid() && State() == Apply(old(State()), Op.Clear)
      ensures screenX == 0 && screenY == 0 && terminalX == old(terminalX)
      ensures forall a :: 0 <= a < mem.Length ==>
        mem[a] == if videoMem <= a < videoMem + 4000 then (if (a - videoMem) % 2 == 0 then 32 else 0x0C)
                  else old(mem[a])
    {
      for i := 0 to NUM_ROWS * NUM_COLS
        modifies mem
        invariant forall a :: 0 <= a < mem.Length ==>
          mem[a] == if videoMem <= a < videoMem + 2 * i then (if (a - videoMem) % 2 == 0 then SPACE else ATTRIB)
                    else old(mem[a])
      {
        mem[videoMem + 2 * i] := SPACE;
        mem[videoMem + 2 * i + 1] := ATTRIB;
      }
      assert mem[..] == Cleared(old(mem[..]), videoMem);
      screenX := 0;
      screenY := 0;
      UpdateCursor(screenX, screenY);
    }

    method CurrentRow(buf: array<byte>, rowNum: nat)
      requires Valid() && buf.Length == ROW_BYTES && rowNum < NUM_ROWS && buf != mem
      modifies buf
      ensures buf[..] == mem[videoMem + ROW_BYTES * rowNum..videoMem + ROW_BYTES * (rowNum + 1)]
    {
      var addr := videoMem + 2 * (NUM_COLS * rowNum);
      for i := 0 to NUM_COLS
        invariant forall j :: 0 <= j < 2 * i ==> buf[j] == mem[addr + j]
      {
        buf[2 * i] := mem[addr + 2 * i];
        buf[2 * i + 1] := mem[addr + 2 * i + 1];
      }
    }

    method ScrollUp()
      requires Valid()
      modifies mem
      ensures mem[..] == Scroll(old(mem[..]), videoMem)
    {
      ghost var was := mem[..];
      var rowBuf := new byte[ROW_BYTES](_ => 0);
      for currRow := 1 to NUM_ROWS
        modifies mem, rowBuf
        invariant RowsMoved(was, mem[..], videoMem, currRow - 1)
      {
        MoveRow(rowBuf, currRow, was);
      }
      ghost var moved := mem[..];
      BlankLastRow();
      ScrollDone(was, moved, mem[..], videoMem);
    }

    method MoveRow(rowBuf: array<byte>, currRow: nat, ghost was: seq<byte>)
      requires Valid() && rowBuf.Length == ROW_BYTES && 1 <= currRow < NUM_ROWS && rowBuf != mem
      requires Fits(was, videoMem) && RowsMoved(was, mem[..], videoMem, currRow - 1)
      modifies mem, rowBuf
      ensures RowsMoved(was, mem[..], videoMem, currRow)
    {
      ghost var before := mem[..];
      var prevRow := currRow - 1;
      CurrentRow(rowBuf, currRow);
      CopyRow(rowBuf, prevRow);
      OneMoreRow(was, before, mem[..], rowBuf[..], videoMem, prevRow);
    }

    method CopyRow(buf: array<byte>, rowNum: nat)
      requires Valid() && buf.Length == ROW_BYTES && rowNum < NUM_ROWS && buf != mem
      modifies mem
      ensures RowStored(old(mem[..]), mem[..], buf[..], videoMem + ROW_BYTES * rowNum)
    {
      var addr := videoMem + 2 * (rowNum * NUM_COLS);
      forall j | 0 <= j < ROW_BYTES {
        mem[addr + j] := buf[j];
      }
    }

    method BlankLastRow()
      requires Valid()
      modifies mem
      ensures LastRowBlank(old(mem[..]), mem[..], videoMem)
    {
      var addr := videoMem + 2 * ((NUM_ROWS - 1) * NUM_COLS);
      for i := 0 to NUM_COLS
        modifies mem
        invariant forall a :: 0 <= a < mem.Length ==>
          mem[a] == if addr <= a < addr + 2 * i then (if (a - videoMem) % 2 == 0 then 0 else ATTRIB) else old(mem[a])
      {
        mem[addr + 2 * i] := 0;
        mem[addr + 2 * i + 1] := ATTRIB;
      }
    }

    /** The line step that putc takes at a line break and at the right margin. */
    method NextLine()
      requires Valid()
      modifies `screenX, `screenY, mem
      ensures screenX == 0 && screenY == if old(screenY) + 1 == NUM_ROWS then old(screenY) else old(screenY) + 1
      ensures mem[..] == if old(screenY) + 1 == NUM_ROWS then Scroll(old(mem[..]), videoMem) else old(mem[..])
    {
      screenY := screenY + 1;
      screenX := 0;
      if screenY == NUM_ROWS {
        ScrollUp();
        screenY := screenY - 1;
      }
    }

    method Putc(c: byte)
      requires Valid()
      modifies this, mem
      ensures Valid() && State() == Apply(old(State()), Put(c))
      ensures old(0 <= screenX < 80 && 0 <= screenY < 25) ==>
        PutcDone(old(mem[..]), videoMem, old(Cursor(screenX, screenY, terminalX)), c,
                 mem[..], Cursor(screenX, screenY, terminalX))
      ensures hwCursor == if cursorChange then (80 * screenY + screenX) % 0x1_0000 else old(hwCursor)
    {
      PutInBytes(State(), c);
      if c == NEWLINE || c == RETURN {
        BreakLine(c);
      } else {
        PutChar(c);
      }
      assert State() == Apply(old(State()), Put(c));
    }

    /** putc of '\n' or '\r'. */
    method BreakLine(c: byte)
      requires Valid() && Breaks(c)
      modifies this, mem
      ensures Valid() && State() == Apply(old(State()), Put(c))
    {
      NextLine();
      terminalX := 0;
      UpdateCursor(screenX, screenY);
    }

    /** putc of any other character. */
    method PutChar(c: byte)
      requires Valid() && !Breaks(c)
      modifies this, mem
      ensures Valid() && State() == Apply(old(State()), Put(c))
    {
      ghost var k := State().live.cursor;
      PutCell(k, c);
      WrapCursor(k, c);
      StoreByte(videoMem + 2 * (NUM_COLS * screenY + screenX) + 1, ATTRIB);
      FinishMove(k, c);
    }

    /** The store of putc, and the step of the cursor with it. */
    method PutCell(ghost k: Cursor, c: byte)
      requires Valid() && !Breaks(c) && k == Cursor(screenX, screenY, terminalX)
      modifies `screenX, `terminalX, mem
      ensures Cursor(screenX, screenY, terminalX) == Step(k, c) && mem[..] == Ink(old(mem[..]), videoMem, k, c)
    {
      if c == BACKSPACE {
        if terminalX != 0 {
          screenX := screenX - 1;
          terminalX := terminalX - 1;
          StoreByte(videoMem + 2 * (NUM_COLS * screenY + screenX), 0);
        }
      } else {
        StoreByte(videoMem + 2 * (NUM_COLS * screenY + screenX), c);
        screenX := screenX + 1;
        terminalX := terminalX + 1;
      }
    }

    /** The bounds check of putc. */
    method WrapCursor(ghost k: Cursor, c: byte)
      requires Valid() && !Breaks(c) && Cursor(screenX, screenY, terminalX) == Step(k, c)
      modifies `screenX, `screenY, mem
      ensures Cursor(screenX, screenY, terminalX) == Wrap(Step(k, c))
      ensures mem[..] == if Scrolls(k, c) then Scroll(old(mem[..]), videoMem) else old(mem[..])
    {
      if screenX == NUM_COLS {
        NextLine();
      } else if screenX < 0 {
        screenX := NUM_COLS - 1;
        screenY := screenY - 1;
      }
    }

    /** The remainders and the display cursor at the end of putc. */
    method FinishMove(ghost k: Cursor, c: byte)
      requires Valid() && !Breaks(c) && Cursor(screenX, screenY, terminalX) == Wrap(Step(k, c))
      modifies `screenX, `screenY, `hwCursor
      ensures State() == Terminals.UpdateCursor(old(State()).(live := old(State()).live.(cursor := Move(k, c))))
    {
      var quotient := screenX / NUM_COLS;
      screenX := CRem(screenX, NUM_COLS);
      screenY := CRem(screenY + quotient, NUM_ROWS);
      UpdateCursor(screenX, screenY);
    }

    method SwitchScreen(oldTerm: int, currTerm: int, cursor: bool)
      requires Valid() && IsTerminal(oldTerm) && IsTerminal(currTerm)
      modifies this, ctx
      ensures Valid() && State() == Terminals.SwitchScreen(old(State()), oldTerm, currTerm, cursor)
      ensures videoMem == if currTerm == terminalShown then 0xB8000 else 0xBA000 + 0x1000 * currTerm
    {
      ctx[oldTerm] := ctx[oldTerm].(cursor := ctx[oldTerm].cursor.(x := screenX));
      ctx[oldTerm] := ctx[oldTerm].(cursor := ctx[oldTerm].cursor.(y := screenY));
      screenX := ctx[currTerm].cursor.x;
      screenY := ctx[currTerm].cursor.y;
      ctx[oldTerm] := ctx[oldTerm].(cursor := ctx[oldTerm].cursor.(tx := terminalX));
      terminalX := ctx[currTerm].cursor.tx;
      ctx[oldTerm] := ctx[oldTerm].(curr := currScommandsIdx);
      currScommandsIdx := ctx[currTerm].curr;
      ctx[oldTerm] := ctx[oldTerm].(top := topScommandsIdx);
      topScommandsIdx := ctx[currTerm].top;
      if terminalShown == currTerm {
        cursorChange := true;
        videoMem := VIDEO;
      } else {
        cursorChange := false;
        videoMem := BackingPage(currTerm);
      }
      assert ctx[..] == old(ctx[..])[oldTerm := old(State()).live];
      if cursor {
        UpdateCursor(screenX, screenY);
      }
    }

    /** memcpy of a page. */
    method CopyBytes(to: int, from: int)
      requires 0 <= to && to + PAGE_BYTES <= mem.Length && 0 <= from && from + PAGE_BYTES <= mem.Length
      modifies mem
      ensures PageCopied(old(mem[..]), mem[..], to, from)
    {
      forall j | 0 <= j < PAGE_BYTES {
        mem[to + j] := mem[from + j];
      }
    }

    method CopyTermVmem(terminal: int, toScreen: bool)
      requires Valid() && IsTerminal(terminal)
      modifies mem
      ensures Valid() && State() == Terminals.CopyTermVmem(old(State()), terminal, toScreen)
      ensures var page := 0xBA000 + 0x1000 * terminal;
        if toScreen then PageCopied(old(mem[..]), mem[..], 0xB8000, page)
        else PageCopied(old(mem[..]), mem[..], page, 0xB8000)
    {
      var to, from := VIDEO, BackingPage(terminal);
      if !toScreen {
        to, from := BackingPage(terminal), VIDEO;
      }
      CopyBytes(to, from);
      PageIsCopied(old(mem[..]), mem[..], to, from);
    }

    method ChangeVidmap(terminal: int)
      requires Valid()
      modifies `vidmapBase
      ensures Valid() && State() == Terminals.ChangeVidmap(old(State()), terminal)
      ensures 0x1000 * vidmapBase == if terminalActive == terminalShown then 0xB8000 else 0xBA000 + 0x1000 * terminal
    {
      if terminalActive == terminalShown {
        vidmapBase := VIDEO / PAGE_BYTES;
      } else {
        vidmapBase := BackingPage(terminal) / PAGE_BYTES;
      }
    }

    method TerminalSwitch(currTerm: int)
      requires Valid() && IsTerminal(currTerm)
      modifies this, ctx, mem
      ensures Valid() && State() == Terminals.TerminalSwitch(old(State()), currTerm)
    {
      var oldTerm := terminalShown;
      terminalShown := currTerm;
      if oldTerm != currTerm {
        CopyTermVmem(oldTerm, false);
        CopyTermVmem(currTerm, true);
        SwitchScreen(oldTerm, currTerm, true);
        ChangeVidmap(terminalActive);
      }
    }

    /** The screen part of schedule(). */
    method Schedule()
      requires Valid()
      modifies this, ctx
      ensures Valid() && State() == Tick(old(State()))
    {
      var oldTerm := terminalActive;
      var currTerm := (terminalActive + 1) % TERMINALS;
      terminalActive := currTerm;
      ChangeVidmap(currTerm);
      SwitchScreen(oldTerm, currTerm, false);
    }

    method Perform(op: Op)
      requires Valid()
      modifies this, mem
      ensures Valid() && State() == Apply(old(State()), op)
    {
      match op {
        case Put(c) => Putc(c);
        case Clear => Clear();
        case ResetX => terminalX := 0;
        case SetHistory(curr, top) => currScommandsIdx, topScommandsIdx := curr, top;
      }
    }

    method PerformAll(ops: seq<Op>)
      requires Valid()
      modifies this, mem
      ensures Valid() && State() == ApplyAll(old(State()), ops)
    {
      var i := 0;
      while i < |ops|
        invariant 0 <= i <= |ops| && Valid()
        invariant ApplyAll(State(), ops[i..]) == ApplyAll(old(State()), ops)
      {
        assert ops[i..][1..] == ops[i + 1..];
        Perform(ops[i]);
        i := i + 1;
      }
    }

    /** keyboard_handler: the decoded key acts on the shown terminal inside a bracket that restores the active one. */
    method KeyboardHandler(before: seq<Op>, request: Request, after: seq<Op>)
      requires Valid() && (request.Show? ==> IsTerminal(request.target))
      modifies this, ctx, mem
      ensures Valid() && State() == KeyInterrupt(old(State()), before, request, after)
    {
      SwitchScreen(terminalActive, terminalShown, false);
      PerformAll(before);
      if request.Show? {
        TerminalSwitch(request.target);
      }
      PerformAll(after);
      SwitchScreen(terminalShown, terminalActive, false);
    }

    /** terminal_write without interruption: NULs are skipped but counted, and terminal_x ends at 0. */
    method TerminalWrite(fd: int, buf: seq<byte>) returns (copied: int)
      requires Valid()
      modifies this, mem
      ensures Valid()
      ensures fd != 1 ==> copied == -1 && State() == old(State())
      ensures fd == 1 ==> copied == |buf| && State() == ApplyAll(old(State()), WriteOps(buf)) && terminalX == 0
    {
      if fd != 1 {
        return -1;
      }
      copied := 0;
      while copied < |buf|
        invariant 0 <= copied <= |buf| && Valid()
        invariant ApplyAll(State(), WriteOps(buf[copied..])) == ApplyAll(old(State()), WriteOps(buf))
      {
        WriteOpsStep(State(), buf, copied);
        if buf[copied] != 0 {
          Putc(buf[copied]);
        }
        copied := copied + 1;
      }
      terminalX := 0;
    }
  }

  /** putc on the machine, by the value of the byte; the display's cursor follows on the shown screen. */
  lemma PutInBytes(m: Machine, c: byte)
    requires Sized(m)
    ensures var m' := Apply(m, Put(c));
      && (0 <= m.live.cursor.x < 80 && 0 <= m.live.cursor.y < 25 ==>
           PutcDone(m.mem, m.videoMem, m.live.cursor, c, m'.mem, m'.live.cursor))
      && m'.hwCursor ==
           if m.cursorChange then (80 * m'.live.cursor.y + m'.live.cursor.x) % 0x1_0000 else m.hwCursor
  {
    if OnScreen(m.live.cursor) {
      PutcExactly(m.mem, m.videoMem, m.live.cursor, c);
    }
  }

  /** A page copied, byte by byte. */
  predicate PageCopied(was: seq<byte>, mem: seq<byte>, to: int, from: int) {
    && 0 <= from && from + 0x1000 <= |was| == |mem|
    && forall a {:trigger mem[a]} :: 0 <= a < |mem| ==>
         mem[a] == if to <= a < to + 0x1000 then was[a - to + from] else was[a]
  }

  lemma PageIsCopied(was: seq<byte>, mem: seq<byte>, to: int, from: int)
    requires Fits(was, to) && Fits(was, from) && PageCopied(was, mem, to, from)
    ensures mem == CopyPage(was, to, from)
  {
  }

  /** The row is in memory from an address on, and the rest is as it was. */
  predicate RowStored(was: seq<byte>, mem: seq<byte>, row: seq<byte>, addr: int) {
    && |row| == ROW_BYTES && |mem| == |was|
    && forall a {:trigger mem[a]} :: 0 <= a < |mem| ==>
      mem[a] == if addr <= a < addr + ROW_BYTES then row[a - addr] else was[a]
  }

  /** Each of the first rows of the screen holds what the row below it held. */
  predicate RowsMoved(was: seq<byte>, mem: seq<byte>, base: int, rows: nat)
    requires Fits(was, base) && rows < NUM_ROWS
  {
    && |mem| == |was|
    && forall a {:trigger mem[a]} :: 0 <= a < |mem| ==>
      mem[a] == if base <= a < base + ROW_BYTES * rows then was[a + ROW_BYTES] else was[a]
  }

  predicate LastRowBlank(was: seq<byte>, mem: seq<byte>, base: int) {
    && |mem| == |was|
    && forall a {:trigger mem[a]} :: 0 <= a < |mem| ==>
      mem[a] == if base + SCREEN_BYTES - ROW_BYTES <= a < base + SCREEN_BYTES
                then (if (a - base) % 2 == 0 then 0 else ATTRIB) else was[a]
  }

  lemma ScrollDone(was: seq<byte>, moved: seq<byte>, mem: seq<byte>, base: int)
    requires Fits(was, base) && RowsMoved(was, moved, base, NUM_ROWS - 1) && LastRowBlank(moved, mem, base)
    ensures mem == Scroll(was, base)
  {
  }

  lemma OneMoreRow(was: seq<byte>, before: seq<byte>, mem: seq<byte>, row: seq<byte>, base: int, rows: nat)
    requires Fits(was, base) && rows + 1 < NUM_ROWS && RowsMoved(was, before, base, rows)
    requires row == before[base + ROW_BYTES * (rows + 1)..base + ROW_BYTES * (rows + 2)]
    requires RowStored(before, mem, row, base + ROW_BYTES * rows)
    ensures RowsMoved(was, mem, base, rows + 1)
  {
    var addr := base + ROW_BYTES * rows;
    forall a | 0 <= a < |mem|
      ensures mem[a] == if base <= a < addr + ROW_BYTES then was[a + ROW_BYTES] else was[a]
    {
      if addr <= a < addr + ROW_BYTES {
        assert row[a - addr] == before[a + ROW_BYTES] == was[a + ROW_BYTES];
      }
    }
  }

  lemma WriteOpsStep(m: Machine, buf: seq<byte>, i: nat)
    requires Sized(m) && i < |buf|
    ensures ApplyAll(m, WriteOps(buf[i..])) ==
      ApplyAll(if buf[i] != 0 then Apply(m, Put(buf[i])) else m, WriteOps(buf[i + 1..]))
  {
    assert buf[i..][1..] == buf[i + 1..];
    if buf[i] != 0 {
      assert WriteOps(buf[i..])[1..] == WriteOps(buf[i + 1..]);
    } else {
      assert WriteOps(buf[i..]) == WriteOps(buf[i + 1..]);
    }
  }

  function WriteOps(buf: seq<byte>): (ops: seq<Op>) {
    if buf == [] then [ResetX]
    else (if buf[0] != 0 then [Put(buf[0])] else []) + WriteOps(buf[1..])
  }

  /** What terminal_write does with a buffer without NULs: every byte printed in order, and then terminal_x reset. */
  lemma {:induction false} WritesEveryByte(buf: seq<byte>)
    requires 0 !in buf
    ensures var ops := WriteOps(buf);
      |ops| == |buf| + 1 && ops[|buf|] == ResetX && forall i :: 0 <= i < |buf| ==> ops[i] == Put(buf[i])
  {
    if buf != [] {
      WritesEveryByte(buf[1..]);
      assert forall i :: 0 < i < |buf| ==> WriteOps(buf)[i] == WriteOps(buf[1..])[i - 1];
    }
  }

  /** A NUL anywhere in the buffer prints nothing. */
  lemma {:induction false} NulPrintsNothing(before: seq<byte>, rest: seq<byte>)
    ensures WriteOps(before + [0] + rest) == WriteOps(before + rest)
  {
    if before == [] {
      assert ([] + [0] + rest)[1..] == rest && [] + rest == rest;
    } else {
      NulPrintsNothing(before[1..], rest);
      assert (before + [0] + rest)[1..] == before[1..] + [0] + rest && (before + rest)[1..] == before[1..] + rest;
    }
  }
}
