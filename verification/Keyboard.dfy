/** The keyboard driver's line editor as it runs: a buffer and a ring of saved commands updated in place, each routine
    proved equal to its step of the History model. */
module Keyboard {
  import opened History
  import opened Strings
  import Screen

  /** The user's buffer after a read: the line, NULs up to the count, and the rest as it was. */
  predicate Delivers(after: seq<byte>, before: seq<byte>, line: Line, nbytes: int) {
    |after| == |before| && forall i :: 0 <= i < |after| ==>
      after[i] == if i < |line| then line[i] else if i < nbytes && i < BUF_SIZE then 0 else before[i]
  }

  /** A search of Down from s has come to a slot, d steps on. */
  predicate Searching(history: seq<bool>, top: int, s: int, d: nat, slot: int)
    requires |history| == SAVED_COMMANDS_SIZE && IsSlot(s) && 1 <= d <= 33
  {
    slot == Forward(s, d) && DownSteps(history, top, s, d) == DownSteps(history, top, s, 1)
  }

  lemma SearchOn(history: seq<bool>, top: int, s: int, d: nat, slot: int)
    requires |history| == SAVED_COMMANDS_SIZE && IsSlot(s) && 1 <= d <= 32 && Searching(history, top, s, d, slot)
    requires !Stops(history, top, slot)
    ensures Searching(history, top, s, d + 1, NextSlot(slot))
  {
  }

  lemma SearchEnds(history: seq<bool>, top: int, s: int, d: nat, slot: int)
    requires |history| == SAVED_COMMANDS_SIZE && IsSlot(s) && 1 <= d <= 33 && Searching(history, top, s, d, slot)
    requires d == 33 || Stops(history, top, slot)
    ensures slot == Forward(s, DownSteps(history, top, s, 1))
  {
  }

  class LineEditor {
    const keyboardBuf: array<byte>
    const commands: array<Line>     // saved_commands[].command
    const history: array<bool>      // saved_commands[].history
    var bufIdx: int
    var enterFlag: bool
    var currIdx: int                // curr_scommands_idx
    var topIdx: int                 // top_scommands_idx
    var echo: seq<byte>             // what putc was called with

    ghost predicate Shaped()
      reads commands
    {
      && keyboardBuf.Length == BUF_SIZE
      && commands.Length == SAVED_COMMANDS_SIZE && history.Length == SAVED_COMMANDS_SIZE
      && forall s :: 0 <= s < SAVED_COMMANDS_SIZE ==> |commands[s]| == BUF_SIZE
    }

    ghost function State(): (e: Editor)
      requires Shaped()
      reads this, keyboardBuf, commands, history
      ensures Sized(e)
    {
      Editor(keyboardBuf[..], bufIdx, enterFlag, commands[..], history[..], currIdx, topIdx, echo)
    }

    ghost predicate Valid()
      reads this, keyboardBuf, commands, history
    {
      Shaped() && Good(State())
    }

    constructor ()
      ensures Valid() && State() == Boot()
    {
      keyboardBuf := new byte[BUF_SIZE](_ => 0);
      commands := new Line[SAVED_COMMANDS_SIZE](_ => EmptyLine());
      history := new bool[SAVED_COMMANDS_SIZE](_ => false);
      bufIdx, enterFlag, currIdx, topIdx, echo := 0, false, 0, 0, [];
      new;
      assert keyboardBuf[..] == EmptyLine();
      assert commands[..] == Boot().commands && history[..] == Boot().history;
    }

    method Putc(c: byte)
      modifies `echo
      ensures echo == old(echo) + [c]
    {
      echo := echo + [c];
    }

    method ZeroBytes()
      requires keyboardBuf.Length == BUF_SIZE
      modifies keyboardBuf, `echo
      ensures keyboardBuf[..] == EmptyLine()
      ensures echo == old(echo) + Screen.Repeat(BACKSPACE, NonZeros(old(keyboardBuf[..])))
    {
      ghost var buf := keyboardBuf[..];
      for i := 0 to BUF_SIZE
        invariant forall j :: 0 <= j < BUF_SIZE ==> keyboardBuf[j] == if j < i then 0 else buf[j]
        invariant echo == old(echo) + Screen.Repeat(BACKSPACE, NonZeros(buf[..i]))
      {
        OneMore(buf, i);
        assert keyboardBuf[i] == buf[i];
        if keyboardBuf[i] != 0 {
          keyboardBuf[i] := 0;
          Putc(BACKSPACE);
          assert echo == old(echo) + (Screen.Repeat(BACKSPACE, NonZeros(buf[..i])) + [BACKSPACE]);
        }
      }
      assert buf[..BUF_SIZE] == buf && keyboardBuf[..] == EmptyLine();
    }

    /** clear_keyboard_buf and clear_keyboard_buf_scommand. */
    method ClearKeyboardBuf()
      requires Shaped()
      modifies keyboardBuf, `echo, `bufIdx
      ensures Shaped() && State() == Cleared(old(State()))
    {
      ZeroBytes();
      bufIdx := 0;
    }

    method AddToBufferScommand(c: byte)
      requires Shaped() && 0 <= bufIdx < BUF_SIZE
      modifies keyboardBuf, `echo, `bufIdx
      ensures bufIdx == old(bufIdx) + 1 && echo == old(echo) + [c]
      ensures keyboardBuf[..] == old(keyboardBuf[..])[old(bufIdx) := c]
      ensures Shaped() && State() == Put(old(State()), c, c)
    {
      keyboardBuf[bufIdx] := c;
      bufIdx := bufIdx + 1;
      Putc(c);
    }

    /** The search loop of type_command for Up. */
    method SearchUp() returns (found: bool)
      requires Shaped() && IsSlot(currIdx)
      modifies `currIdx
      ensures State() == old(State()).(curr := UpSlot(old(State()))) && found == history[currIdx]
    {
      ghost var h, start := history[..], currIdx;
      var i := 0;
      if currIdx == 0 {
        currIdx := SAVED_COMMANDS_SIZE;
      }
      currIdx := currIdx - 1;
      while !history[currIdx]
        modifies `currIdx
        invariant 0 <= i <= 32 && IsSlot(currIdx) && currIdx == Back(start, i + 1)
        invariant UpSteps(h, start, i + 1) == UpSteps(h, start, 1)
        decreases 32 - i
      {
        i := i + 1;
        if i > SAVED_COMMANDS_SIZE {
          return false;
        }
        if currIdx == 0 {
          currIdx := SAVED_COMMANDS_SIZE;
        }
        currIdx := currIdx - 1;
      }
      return true;
    }

    /** The search for Down past a slot without a visible command: -1 after slot 31, and the end at the top slot. */
    method PassSlot(slot: int) returns (left: int, ends: bool)
      requires Shaped() && IsSlot(slot) && IsSlot(topIdx) && !history[slot]
      ensures left == LeftAt(history[..], topIdx, slot) && left + 1 == NextSlot(slot)
      ensures ends <==> Stops(history[..], topIdx, slot)
    {
      left := slot;
      if slot == SAVED_COMMANDS_SIZE - 1 {
        left := -1;
      }
      ends := left == topIdx;
    }

    /** The search loop of type_command for Down, on the index it starts from. */
    method SearchDown(start: int) returns (slot: int, found: bool)
      requires Shaped() && IsSlot(start) && IsSlot(topIdx)
      ensures slot == LeftAt(history[..], topIdx, Forward(start, DownSteps(history[..], topIdx, start, 1)))
      ensures found <==> slot >= 0 && history[slot]
    {
      ghost var h := history[..];
      slot := start;
      var i := 0;
      if slot == SAVED_COMMANDS_SIZE - 1 {
        slot := -1;
      }
      slot := slot + 1;
      while !history[slot]
        modifies {}
        invariant 0 <= i <= 32 && IsSlot(slot) && Searching(h, topIdx, start, i + 1, slot)
        decreases 32 - i
      {
        ghost var at := slot;
        var ends;
        slot, ends := PassSlot(slot);
        if ends {
          SearchEnds(h, topIdx, start, i + 1, at);
          return slot, false;
        }
        i := i + 1;
        if i > SAVED_COMMANDS_SIZE {
          SearchEnds(h, topIdx, start, i, at);
          return slot, false;
        }
        SearchOn(h, topIdx, start, i, at);
        slot := slot + 1;
      }
      SearchEnds(h, topIdx, start, i + 1, slot);
      return slot, true;
    }

    /** The typing loop of type_command, into a cleared buffer. */
    method TypeLine(line: Line)
      requires Shaped() && |line| == BUF_SIZE && bufIdx == 0
      modifies keyboardBuf, `echo, `bufIdx
      ensures bufIdx == |Text(line)| && echo == old(echo) + Text(line)
      ensures keyboardBuf[..] == Text(line) + old(keyboardBuf[..])[|Text(line)|..]
    {
      ghost var buf := keyboardBuf[..];
      var i := 0;
      while i < BUF_SIZE
        invariant 0 <= i <= BUF_SIZE && bufIdx == i && forall j :: 0 <= j < i ==> line[j] != 0
        invariant forall j :: 0 <= j < BUF_SIZE ==> keyboardBuf[j] == if j < i then line[j] else buf[j]
        invariant echo == old(echo) + line[..i]
      {
        if line[i] == 0 {
          break;
        }
        AddToBufferScommand(line[i]);
        assert line[..i + 1] == line[..i] + [line[i]];
        i := i + 1;
      }
      TextIs(line, i);
    }

    method Retype(slot: int)
      requires Shaped() && IsSlot(slot) && bufIdx == 0
      modifies keyboardBuf, `echo, `bufIdx
      ensures Shaped() && State() == Retyped(old(State()), commands[slot])
    {
      TypeLine(commands[slot]);
    }

    method Search(up: bool) returns (found: bool)
      requires Shaped() && IsSlot(currIdx) && IsSlot(topIdx)
      modifies `currIdx
      ensures var e := old(State()); State() == e.(curr := if up then UpSlot(e) else DownSlot(e))
      ensures found <==> currIdx >= 0 && history[currIdx]
    {
      if up {
        found := SearchUp();
      } else {
        currIdx, found := SearchDown(currIdx);
      }
    }

    method TypeCommand(up: bool)
      requires Valid()
      modifies this, keyboardBuf, commands
      ensures Valid() && State() == if up then Up(old(State())) else Down(old(State()))
    {
      ghost var e := State();
      StepKeepsGood(e, if up then KeyUp else KeyDown);
      commands[currIdx] := keyboardBuf[..];
      assert State() == Saved(e);
      if !up && currIdx == topIdx {
        return;
      }
      ClearKeyboardBuf();
      var found := Search(up);
      if !found {
        return;
      }
      Retype(currIdx);
    }

    method BackspacePressed()
      requires Valid()
      modifies keyboardBuf, `bufIdx, `echo
      ensures Valid() && State() == Erase(old(State()))
    {
      EraseKeepsGood(State());
      EraseFits(State());
      var idx := bufIdx;
      if idx == 0 {
        return;
      }
      idx := idx - 1;
      if keyboardBuf[idx] == TAB {
        ghost var p, buf := idx, keyboardBuf[..];
        for i := 0 to 3
          modifies keyboardBuf, `echo
          invariant idx == p - i
          invariant forall j :: 0 <= j < BUF_SIZE ==> keyboardBuf[j] == if p - i < j <= p then 0 else buf[j]
          invariant echo == old(echo) + Screen.Repeat(BACKSPACE, i)
        {
          Putc(BACKSPACE);
          keyboardBuf[idx] := 0;
          idx := idx - 1;
        }
        assert Screen.Repeat(BACKSPACE, 3) == [BACKSPACE, BACKSPACE, BACKSPACE];
      } else {
        keyboardBuf[idx] := 0;
      }
      bufIdx := idx;
      assert keyboardBuf[..] == Erase(old(State())).buf;
    }

    method CheckBufferOverflow(enter: bool) returns (full: bool)
      requires Shaped() && 0 <= bufIdx <= BUF_SIZE
      modifies keyboardBuf, `enterFlag, `echo
      ensures Shaped() && full == (bufIdx >= BUF_SIZE - 1)
      ensures State() == if full && enter then EnterFull(old(State())) else old(State())
    {
      if bufIdx < BUF_SIZE - 1 {
        return false;
      }
      if enter {
        keyboardBuf[BUF_SIZE - 1] := NEWLINE;
        Putc(NEWLINE);
        enterFlag := true;
      }
      return true;
    }

    /** The ENTER case of add_to_buffer. */
    method AddEnter()
      requires Valid() && bufIdx < BUF_SIZE - 1
      modifies this, keyboardBuf, commands, history
      ensures Shaped() && State() == Enter(old(State()))
    {
      if enterFlag {
        return;
      }
      if bufIdx > 0 {
        commands[topIdx] := keyboardBuf[..];
        history[currIdx] := false;
        history[topIdx] := true;
        topIdx := topIdx + 1;
        if topIdx >= SAVED_COMMANDS_SIZE {
          topIdx := 0;
        }
        currIdx := topIdx;
        assert State() == Remembered(old(State()));
      }
      keyboardBuf[bufIdx] := NEWLINE;
      bufIdx := bufIdx + 1;
      enterFlag := true;
      Putc(NEWLINE);
    }

    /** The TAB case of add_to_buffer. */
    method AddTab()
      requires Valid() && bufIdx < BUF_SIZE - 1
      modifies keyboardBuf, `bufIdx, `echo
      ensures Shaped() && State() == PutTab(old(State()))
    {
      if bufIdx + 4 >= BUF_SIZE - 1 {
        return;
      }
      ghost var e := State();
      for i := 0 to 3
        modifies keyboardBuf, `bufIdx, `echo
        invariant bufIdx == e.idx + i
        invariant i == 0 ==> State() == e
        invariant i == 1 ==> State() == Put(e, SPACE, SPACE)
        invariant i == 2 ==> State() == Put(Put(e, SPACE, SPACE), SPACE, SPACE)
        invariant i == 3 ==> State() == Put(Put(Put(e, SPACE, SPACE), SPACE, SPACE), SPACE, SPACE)
      {
        AddToBufferScommand(SPACE);
      }
      keyboardBuf[bufIdx] := TAB;
      bufIdx := bufIdx + 1;
      Putc(SPACE);
    }

    method AddToBuffer(ev: Event)
      requires Valid() && bufIdx < BUF_SIZE - 1 && IsEvent(ev)
      modifies this, keyboardBuf, commands, history
      ensures Valid() && State() == Added(old(State()), ev)
    {
      AddedKeepsGood(State(), ev);
      match ev {
        case KeyTab => AddTab();
        case KeyBackspace => Putc(BACKSPACE);
        case KeyEnter => AddEnter();
        case KeyChar(c) => AddToBufferScommand(c);
        case _ =>
      }
    }

    /** keyboard_handler, for a key already decoded. */
    method HandleKey(ev: Event)
      requires Valid() && IsEvent(ev) && !ev.ReadStarts? && !ev.ReadEnds?
      modifies this, keyboardBuf, commands, history
      ensures Valid() && State() == Step(old(State()), ev)
    {
      ghost var e := State();
      StepKeepsGood(e, ev);
      if ev.KeyUp? || ev.KeyDown? {
        TypeCommand(ev.KeyUp?);
        return;
      }
      if ev.KeyBackspace? {
        EraseFits(e);
        BackspacePressed();
      }
      var full := CheckBufferOverflow(ev.KeyEnter?);
      if full {
        return;
      }
      AddToBuffer(ev);
    }

    /** terminal_read up to its wait: refused for any descriptor but 0 and for a null buffer; otherwise what was typed
        ahead is dropped. */
    method StartRead(fd: int, nullBuffer: bool) returns (refused: bool)
      requires Valid()
      modifies keyboardBuf, `echo, `bufIdx
      ensures Valid() && (refused <==> fd != 0 || nullBuffer)
      ensures refused ==> State() == old(State())
      ensures !refused ==> State() == Step(old(State()), ReadStarts)
      ensures !refused ==> bufIdx == 0 && forall i :: 0 <= i < 128 ==> keyboardBuf[i] == 0
    {
      if fd != 0 || nullBuffer {
        return true;
      }
      StepKeepsGood(State(), ReadStarts);
      ClearKeyboardBuf();
      assert keyboardBuf[..] == EmptyLine();
      return false;
    }

    /** terminal_read from the end of its wait on: the line copied out, NULs after it up to the count asked for. */
    method FinishRead(buffer: array<byte>, nbytes: int) returns (success: int)
      requires Valid() && enterFlag && buffer != keyboardBuf
      requires buffer.Length >= (if nbytes > BUF_SIZE then BUF_SIZE else nbytes)
      modifies this, keyboardBuf, buffer
      ensures Valid() && State() == Step(old(State()), ReadEnds)
      ensures success == |Taken(old(State()), nbytes)|
      ensures Delivers(buffer[..], old(buffer[..]), Taken(old(State()), nbytes), nbytes)
    {
      ReadEndsKeepsGood(State());
      success := CopyOut(buffer, nbytes);
      ClearKeyboardBuf();
      enterFlag := false;
    }

    method CopyOut(buffer: array<byte>, nbytes: int) returns (success: int)
      requires Shaped() && buffer != keyboardBuf
      requires buffer.Length >= (if nbytes > BUF_SIZE then BUF_SIZE else nbytes)
      modifies buffer
      ensures success == |Taken(State(), nbytes)|
      ensures Delivers(buffer[..], old(buffer[..]), Taken(State(), nbytes), nbytes)
    {
      var n := if nbytes > BUF_SIZE then BUF_SIZE else nbytes;
      success := CopyLine(buffer, n);
      FillNuls(buffer, success, n);
    }

    method FillNuls(buffer: array<byte>, from: int, n: int)
      requires 0 <= from && n <= buffer.Length
      modifies buffer
      ensures forall i :: 0 <= i < buffer.Length ==> buffer[i] == if from <= i < n then 0 else old(buffer[i])
    {
      var copied := from;
      while copied < n
        invariant from <= copied && (copied <= n || copied == from)
        invariant forall i :: 0 <= i < buffer.Length ==> buffer[i] == if from <= i < copied then 0 else old(buffer[i])
      {
        buffer[copied] := 0;
        copied := copied + 1;
      }
    }

    /** The copy loop of terminal_read. */
    method CopyLine(buffer: array<byte>, n: int) returns (copied: int)
      requires Shaped() && buffer != keyboardBuf && n <= BUF_SIZE && n <= buffer.Length
      modifies buffer
      ensures 0 <= copied <= BUF_SIZE && Taken(State(), n) == keyboardBuf[..copied] && |Taken(State(), n)| == copied
      ensures forall i :: 0 <= i < buffer.Length ==> buffer[i] == if i < copied then keyboardBuf[i] else old(buffer[i])
    {
      ghost var t := Text(keyboardBuf[..]);
      copied := 0;
      while copied < n
        modifies buffer
        invariant 0 <= copied <= |t| && (copied <= n || copied == 0)
        invariant forall i :: 0 <= i < buffer.Length ==>
          buffer[i] == if i < copied then keyboardBuf[i] else old(buffer[i])
      {
        if keyboardBuf[copied] == 0 {
          break;
        }
        assert copied < |t|;
        buffer[copied] := keyboardBuf[copied];
        copied := copied + 1;
      }
    }
  }
}
