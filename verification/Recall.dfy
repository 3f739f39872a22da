/** What Up and Down bring back after any number of entered commands. */
module Recall {
  import opened History
  import opened Arithmetic
  import Screen

  /** What typing leaves in the buffer: a tab comes with three spaces before it, and with room for Enter after it. */
  predicate Typed(line: Line)
    decreases |line|
  {
    line == [] ||
      var last := |line| - 1;
      if line[last] == TAB then
        && 3 <= last < BUF_SIZE - 2 && line[last - 3..] == TabBytes()
        && Typed(line[..last - 3])
      else Typed(line[..last])
  }

  function TabBytes(): Line {
    [SPACE, SPACE, SPACE, TAB]
  }

  /** A line a user can type: up to 127 bytes. */
  predicate IsLine(line: Line) {
    |line| < BUF_SIZE && 0 !in line && Typed(line)
  }

  predicate AreLines(lines: seq<Line>) {
    forall i :: 0 <= i < |lines| ==> IsLine(lines[i])
  }

  /** What Enter remembers: with 127 bytes the buffer is full and its newline goes in without add_to_buffer. */
  predicate IsCommand(line: Line) {
    1 <= |line| < BUF_SIZE - 1 && 0 !in line
  }

  predicate AreCommands(lines: seq<Line>) {
    forall i :: 0 <= i < |lines| ==> IsCommand(lines[i])
  }

  /** The lines that are remembered. */
  function Kept(lines: seq<Line>): (r: seq<Line>)
    requires AreLines(lines)
    ensures AreCommands(r)
  {
    if lines == [] then []
    else
      var last := |lines| - 1;
      Kept(lines[..last]) + if IsCommand(lines[last]) then [lines[last]] else []
  }

  /** The keys of a line, one after the other. */
  function Keys(line: Line): (r: seq<Event>)
    requires Typed(line)
    ensures forall i :: 0 <= i < |r| ==> IsEvent(r[i])
    decreases |line|
  {
    if line == [] then []
    else
      var last := |line| - 1;
      if line[last] == TAB then Keys(line[..last - 3]) + [KeyTab] else Keys(line[..last]) + [KeyChar(line[last])]
  }

  /** A tab is echoed as a space, after the three before it. */
  function Shown(line: Line): (r: Line)
    ensures |r| == |line|
  {
    seq(|line|, i requires 0 <= i < |line| => if line[i] == TAB then SPACE else line[i])
  }

  lemma {:induction false} RunAppends(e: Editor, events: seq<Event>, ev: Event)
    requires Good(e) && (forall i :: 0 <= i < |events| ==> IsEvent(events[i])) && IsEvent(ev)
    ensures Run(e, events + [ev]) == Step(Run(e, events), ev)
    decreases |events|
  {
    if events == [] {
      StepKeepsGood(e, ev);
      assert Run(Step(e, ev), []) == Step(e, ev);
      assert ([] + [ev])[1..] == [];
    } else {
      StepKeepsGood(e, events[0]);
      assert (events + [ev])[1..] == events[1..] + [ev];
      RunAppends(Step(e, events[0]), events[1..], ev);
    }
  }

  /** Typing a line into an empty buffer leaves it there, and echoes it. */
  lemma {:induction false} TypingFills(e: Editor, line: Line)
    requires Good(e) && e.buf == EmptyLine() && e.idx == 0 && |line| < BUF_SIZE && Typed(line)
    ensures Run(e, Keys(line)) == WithLine(e, line)
    decreases |line|
  {
    if line == [] {
      assert Padded([]) == EmptyLine() && e.echo + Shown([]) == e.echo;
    } else {
      var last := |line| - 1;
      if line[last] == TAB {
        var init := line[..last - 3];
        assert init + TabBytes() == line;
        TypingFills(e, init);
        RunAppends(e, Keys(init), KeyTab);
        TabFills(e, init);
      } else {
        assert line[..last] + [line[last]] == line;
        TypingFills(e, line[..last]);
        RunAppends(e, Keys(line[..last]), KeyChar(line[last]));
        CharFills(e, line[..last], line[last]);
      }
    }
  }

  /** The editor with a line typed into its empty buffer. */
  function WithLine(e: Editor, line: Line): Editor
    requires |line| < BUF_SIZE
  {
    e.(buf := Padded(line), idx := |line|, echo := e.echo + Shown(line))
  }

  lemma CharFills(e: Editor, init: Line, c: byte)
    requires |init| < BUF_SIZE - 1 && c != TAB && Good(WithLine(e, init))
    ensures Step(WithLine(e, init), KeyChar(c)) == WithLine(e, init + [c])
  {
    assert Padded(init)[|init| := c] == Padded(init + [c]);
    assert e.echo + Shown(init) + [c] == e.echo + Shown(init + [c]);
  }

  lemma TabFills(e: Editor, init: Line)
    requires |init| < BUF_SIZE - 5 && Good(WithLine(e, init))
    ensures Step(WithLine(e, init), KeyTab) == WithLine(e, init + TabBytes())
  {
    var n, line := |init|, init + TabBytes();
    assert Padded(init)[n := SPACE][n + 1 := SPACE][n + 2 := SPACE][n + 3 := TAB] == Padded(line);
    assert e.echo + Shown(init) + [SPACE] + [SPACE] + [SPACE] + [SPACE] == e.echo + Shown(line);
  }

  /** A line typed, entered, and taken by the program's read. */
  function Entered(e: Editor, line: Line): (r: Editor)
    requires Good(e) && IsLine(line)
    ensures Good(r)
  {
    var e1 := Run(e, Keys(line));
    StepKeepsGood(e1, KeyEnter);
    StepKeepsGood(Step(e1, KeyEnter), ReadEnds);
    Step(Step(e1, KeyEnter), ReadEnds)
  }

  function EnteredAll(lines: seq<Line>): (r: Editor)
    requires AreLines(lines)
    ensures Good(r)
  {
    if lines == [] then Boot() else Entered(EnteredAll(lines[..|lines| - 1]), lines[|lines| - 1])
  }

  /** Nothing typed yet. */
  predicate Waiting(e: Editor) {
    Good(e) && e.buf == EmptyLine() && e.idx == 0 && !e.enterFlag
  }

  /** Enter ends every line, and remembers it exactly when it has 1 to 126 bytes: of the lines a user can type, the
      longest and the empty one are run, or read, and leave the ring as it was. */
  lemma RemembersExactly(e: Editor, line: Line)
    requires Waiting(e) && IsLine(line)
    ensures var e1 := Step(Run(e, Keys(line)), KeyEnter);
      && Good(e1) && e1.enterFlag
      && e1.buf == Padded(line + [10]) && e1.echo == e.echo + Shown(line) + [10]
      && (e1.top != e.top <==> 1 <= |line| <= 126)
      && (e1.top == e.top ==> e1.commands == e.commands && e1.history == e.history && e1.curr == e.curr)
  {
    TypingFills(e, line);
    EnterIs(Run(e, Keys(line)), line);
  }

  lemma EnterIs(e: Editor, line: Line)
    requires Good(e) && |line| < BUF_SIZE && e.buf == Padded(line) && e.idx == |line| && !e.enterFlag
    ensures var e1 := Step(e, KeyEnter);
      && Good(e1) && e1.enterFlag && e1.buf == Padded(line + [NEWLINE]) && e1.echo == e.echo + [NEWLINE]
      && (if 1 <= |line| < BUF_SIZE - 1 then
            && e1.commands == e.commands[e.top := e.buf] && e1.history == e.history[e.curr := false][e.top := true]
            && e1.top == e1.curr == NextSlot(e.top)
          else e1.commands == e.commands && e1.history == e.history && e1.curr == e.curr && e1.top == e.top)
  {
    StepKeepsGood(e, KeyEnter);
    assert Padded(line)[|line| := NEWLINE] == Padded(line + [NEWLINE]);
  }

  function Slot(i: nat): (s: int)
    ensures IsSlot(s)
  {
    i % SAVED_COMMANDS_SIZE
  }

  lemma Slots(i: nat, j: nat)
    requires i < j < i + 32
    ensures Slot(i) != Slot(j) && NextSlot(Slot(i)) == Slot(i + 1) && Back(Slot(i + 1), 1) == Slot(i)
  {
  }

  /** The slots hold the last `depth` of the commands, command i in slot i mod 32. */
  predicate Stored(commands: seq<Line>, lines: seq<Line>, depth: nat)
    requires |commands| == SAVED_COMMANDS_SIZE && AreCommands(lines)
  {
    forall i {:trigger StoredAt(commands, lines, i)} :: 0 <= i < |lines| <= i + depth ==> StoredAt(commands, lines, i)
  }

  predicate StoredAt(commands: seq<Line>, lines: seq<Line>, i: nat)
    requires |commands| == SAVED_COMMANDS_SIZE && AreCommands(lines) && i < |lines|
  {
    commands[Slot(i)] == Padded(lines[i])
  }

  predicate Visible(history: seq<bool>, n: nat)
    requires |history| == SAVED_COMMANDS_SIZE
  {
    forall s :: 0 <= s < SAVED_COMMANDS_SIZE ==> (history[s] <==> s < n)
  }

  lemma StoreNext(commands: seq<Line>, lines: seq<Line>, line: Line)
    requires |commands| == SAVED_COMMANDS_SIZE && AreCommands(lines) && IsCommand(line) && Stored(commands, lines, 32)
    ensures Stored(commands[Slot(|lines|) := Padded(line)], lines + [line], 32)
  {
    var n := |lines|;
    var commands', lines' := commands[Slot(n) := Padded(line)], lines + [line];
    forall i | 0 <= i < n + 1 <= i + 32
      ensures StoredAt(commands', lines', i)
    {
      if i < n {
        Slots(i, n);
        assert StoredAt(commands, lines, i);
      }
    }
  }

  lemma ShowNext(history: seq<bool>, n: nat)
    requires |history| == SAVED_COMMANDS_SIZE && Visible(history, n)
    ensures Visible(history[Slot(n) := false][Slot(n) := true], n + 1)
  {
  }

  /** Nothing of the line is left in the editor, and the ring holds the last 32 of the commands. */
  predicate Holds(e: Editor, lines: seq<Line>)
    requires AreCommands(lines)
  {
    && Waiting(e) && e.top == Slot(|lines|) && e.curr == e.top
    && Visible(e.history, |lines|) && Stored(e.commands, lines, 32)
  }

  /** The ring after a line: the line in the top slot if it is remembered, and else as it was. */
  predicate RingAfter(e: Editor, r: Editor, line: Line)
    requires Good(e)
  {
    if IsCommand(line) then
      && r.commands == e.commands[e.top := Padded(line)] && r.history == e.history[e.curr := false][e.top := true]
      && r.top == r.curr == NextSlot(e.top)
    else r.commands == e.commands && r.history == e.history && r.curr == e.curr && r.top == e.top
  }

  lemma EnteredIs(e: Editor, line: Line)
    requires Waiting(e) && IsLine(line)
    ensures Waiting(Entered(e, line)) && RingAfter(e, Entered(e, line), line)
  {
    TypingFills(e, line);
    EnterIs(Run(e, Keys(line)), line);
    ReadEmpties(Step(Run(e, Keys(line)), KeyEnter));
  }

  lemma HoldsAfter(e: Editor, r: Editor, lines: seq<Line>, line: Line)
    requires AreCommands(lines) && Holds(e, lines) && Waiting(r) && RingAfter(e, r, line)
    ensures Holds(r, if IsCommand(line) then lines + [line] else lines)
  {
    if IsCommand(line) {
      Slots(|lines|, |lines| + 1);
      StoreNext(e.commands, lines, line);
      ShowNext(e.history, |lines|);
    }
  }

  lemma ReadEmpties(e: Editor)
    requires Good(e) && e.enterFlag
    ensures var r := Step(e, ReadEnds);
      && Waiting(r) && r.commands == e.commands && r.history == e.history && r.curr == e.curr && r.top == e.top
  {
    ReadEndsKeepsGood(e);
  }

  /** After any lines a user can type the ring holds the last 32 of those that are remembered. */
  lemma {:induction false} EnteredAllHolds(lines: seq<Line>)
    requires AreLines(lines)
    ensures Holds(EnteredAll(lines), Kept(lines))
  {
    if lines == [] {
      BootHolds();
    } else {
      var init, last := lines[..|lines| - 1], lines[|lines| - 1];
      EnteredAllHolds(init);
      EnteredIs(EnteredAll(init), last);
      HoldsAfter(EnteredAll(init), EnteredAll(lines), Kept(init), last);
      assert Kept(init) + [] == Kept(init);
    }
  }

  lemma BootHolds()
    ensures Holds(Boot(), [])
  {
  }

  // ---------------------------------------------------------------------------------------------
  // Walking through the ring
  // ---------------------------------------------------------------------------------------------

  /** Where Up and Down have got to: so many commands back from the top slot, and what the top slot is to show. */
  datatype Place = Place(back: nat, draft: Line)

  /** How many commands can be reached: from 32 on the oldest is under the draft. */
  function Reach(n: nat): (m: nat)
    ensures m <= n && m <= 31
  {
    if n <= 31 then n else 31
  }

  /** Up goes round the commands; it comes past the draft only when the top slot holds a command too. Down comes back to
      an empty line, to the draft again, or, with exactly 31 commands, to the oldest. */
  function Next(n: nat, p: Place, ev: Event): Place
    requires n > 0 && (ev.KeyUp? || ev.KeyDown?)
  {
    if ev.KeyUp? then
      if p.back < Reach(n) then p.(back := p.back + 1) else if n <= 31 then p.(back := 1) else p.(back := 0)
    else if p.back == 0 then p
    else if p.back >= 2 then p.(back := p.back - 1)
    else if n <= 30 then Place(0, [])
    else if n == 31 then p.(back := 31)
    else p.(back := 0)
  }

  predicate Arrows(word: seq<Event>) {
    forall i :: 0 <= i < |word| ==> word[i].KeyUp? || word[i].KeyDown?
  }

  function Walked(n: nat, p: Place, word: seq<Event>): Place
    requires n > 0 && Arrows(word)
    decreases |word|
  {
    if word == [] then p else Next(n, Walked(n, p, word[..|word| - 1]), word[|word| - 1])
  }

  /** The line in the buffer at a place. */
  function LineAt(lines: seq<Line>, p: Place): Line
    requires p.back <= |lines|
  {
    if p.back == 0 then p.draft else lines[|lines| - p.back]
  }

  predicate IsPlace(lines: seq<Line>, p: Place) {
    p.back <= Reach(|lines|) && |p.draft| < BUF_SIZE && 0 !in p.draft
  }

  /** The editor is at the place: its line in the buffer, the draft kept in the top slot, the commands in theirs. */
  predicate At(e: Editor, lines: seq<Line>, p: Place)
    requires AreCommands(lines) && IsPlace(lines, p)
  {
    && Sized(e) && !e.enterFlag && e.curr == Slot(|lines| - p.back) && e.top == Slot(|lines|)
    && e.buf == Padded(LineAt(lines, p)) && e.idx == |LineAt(lines, p)|
    && (p.back > 0 ==> e.commands[e.top] == Padded(p.draft))
    && Visible(e.history, |lines|) && Stored(e.commands, lines, 31)
  }

  /** A key saves the buffer over the slot it leaves: that changes no command but, from the top slot, the oldest. */
  lemma SaveKeepsStored(commands: seq<Line>, lines: seq<Line>, buf: Line, j: nat)
    requires |commands| == SAVED_COMMANDS_SIZE && AreCommands(lines) && Stored(commands, lines, 31)
    requires j <= |lines| && j <= 31
    requires j > 0 ==> buf == Padded(lines[|lines| - j])
    ensures Stored(commands[Slot(|lines| - j) := buf], lines, 31)
  {
    var n, at := |lines|, |lines| - j;
    var commands' := commands[Slot(at) := buf];
    forall i | 0 <= i < n <= i + 31
      ensures StoredAt(commands', lines, i)
    {
      assert StoredAt(commands, lines, i);
      if i < at {
        Slots(i, at);
      } else if at < i {
        Slots(at, i);
      }
    }
  }

  lemma TopSlotKept(commands: seq<Line>, n: nat, buf: Line, j: nat)
    requires |commands| == SAVED_COMMANDS_SIZE && j <= n && j <= 31
    ensures commands[Slot(n - j) := buf][Slot(n)] == if j == 0 then buf else commands[Slot(n)]
  {
    if j > 0 {
      Slots(n - j, n);
    }
  }

  /** What Up and Down leave when their search ends at a slot with a visible command. */
  lemma RecalledIs(e: Editor, slot: int, text: Line)
    requires Sized(e) && IsSlot(e.curr) && IsSlot(slot) && e.history[slot] && |text| < BUF_SIZE && 0 !in text
    requires Saved(e).commands[slot] == Padded(text)
    ensures Recalled(Saved(e), slot).buf == Padded(text) && Recalled(Saved(e), slot).idx == |text|
    ensures Moved(e, Recalled(Saved(e), slot), slot)
  {
    TextOfPadded(text);
  }

  /** Of e only the slot it leaves and the place in the ring have changed, besides the line. */
  predicate Moved(e: Editor, r: Editor, slot: int)
    requires Sized(e) && IsSlot(e.curr)
  {
    && r.commands == e.commands[e.curr := e.buf] && r.history == e.history
    && r.curr == slot && r.top == e.top && r.enterFlag == e.enterFlag
  }

  lemma MovedKeeps(e: Editor, r: Editor, lines: seq<Line>, p: Place, slot: int)
    requires AreCommands(lines) && IsPlace(lines, p) && At(e, lines, p) && Sized(r) && Moved(e, r, slot)
    ensures Visible(r.history, |lines|) && Stored(r.commands, lines, 31)
    ensures r.commands[e.top] == Padded(p.draft)
  {
    SaveKeepsStored(e.commands, lines, e.buf, p.back);
    TopSlotKept(e.commands, |lines|, e.buf, p.back);
  }

  lemma ArrivesAt(e: Editor, r: Editor, lines: seq<Line>, p: Place, q: Place)
    requires AreCommands(lines) && IsPlace(lines, p) && IsPlace(lines, q) && At(e, lines, p) && Sized(r)
    requires Moved(e, r, Slot(|lines| - q.back))
    requires r.buf == Padded(LineAt(lines, q)) && r.idx == |LineAt(lines, q)| && (q.back > 0 ==> q.draft == p.draft)
    ensures At(r, lines, q)
  {
    MovedKeeps(e, r, lines, p, Slot(|lines| - q.back));
  }

  /** A command within reach is in its slot, and so is the draft, also after the slot left has been saved. */
  lemma SavedAt(e: Editor, lines: seq<Line>, p: Place, q: Place)
    requires AreCommands(lines) && IsPlace(lines, p) && IsPlace(lines, q) && At(e, lines, p)
    requires q.draft == p.draft && (q.back > 0 || p.back > 0 || |lines| >= 32)
    ensures Saved(e).commands[Slot(|lines| - q.back)] == Padded(LineAt(lines, q))
  {
    SaveKeepsStored(e.commands, lines, e.buf, p.back);
    TopSlotKept(e.commands, |lines|, e.buf, p.back);
    if q.back > 0 {
      assert StoredAt(Saved(e).commands, lines, |lines| - q.back);
    }
  }

  lemma CommandText(lines: seq<Line>, p: Place)
    requires AreCommands(lines) && IsPlace(lines, p)
    ensures |LineAt(lines, p)| < BUF_SIZE && 0 !in LineAt(lines, p)
  {
    if p.back > 0 {
      assert IsCommand(lines[|lines| - p.back]);
    }
  }

  /** A search that ends at the slot of a place with a visible command gets there. */
  lemma Reaches(e: Editor, r: Editor, slot: int, lines: seq<Line>, p: Place, q: Place)
    requires AreCommands(lines) && IsPlace(lines, p) && IsPlace(lines, q) && At(e, lines, p) && q.draft == p.draft
    requires IsSlot(slot) && slot == Slot(|lines| - q.back) && e.history[slot] && r == Recalled(Saved(e), slot)
    requires q.back > 0 || p.back > 0 || |lines| >= 32
    ensures At(r, lines, q)
  {
    SavedAt(e, lines, p, q);
    CommandText(lines, q);
    RecalledIs(e, slot, LineAt(lines, q));
    ArrivesAt(e, r, lines, p, q);
  }

  /** The nearest visible slot before slot n - back. */
  lemma UpSlotIs(e: Editor, n: nat, back: nat)
    requires Sized(e) && n > 0 && back <= Reach(n) && Visible(e.history, n) && e.curr == Slot(n - back)
    ensures var to := Next(n, Place(back, []), KeyUp).back;
      to <= Reach(n) && UpSlot(e) == Slot(n - to) && e.history[UpSlot(e)]
  {
    if back < Reach(n) {
      UpToPrevious(e, n, back);
    } else if n <= 31 {
      UpAround(e, n);
    } else {
      UpToTop(e, n);
    }
  }

  lemma UpOneBack(e: Editor, to: int)
    requires Sized(e) && IsSlot(e.curr) && Back(e.curr, 1) == to && e.history[to]
    ensures UpSlot(e) == to
  {
  }

  lemma UpToPrevious(e: Editor, n: nat, back: nat)
    requires Sized(e) && back < n && back < 31 && Visible(e.history, n) && e.curr == Slot(n - back)
    ensures UpSlot(e) == Slot(n - back - 1) && e.history[UpSlot(e)]
  {
    Slots(n - back - 1, n - back);
    UpOneBack(e, Slot(n - back - 1));
  }

  lemma UpAround(e: Editor, n: nat)
    requires Sized(e) && 0 < n <= 31 && Visible(e.history, n) && e.curr == Slot(0)
    ensures UpSlot(e) == Slot(n - 1) && e.history[UpSlot(e)]
  {
    assert Back(0, 33 - n) == n - 1 && e.history[Back(e.curr, 33 - n)];
  }

  lemma UpToTop(e: Editor, n: nat)
    requires Sized(e) && n >= 32 && Visible(e.history, n) && e.curr == Slot(n - 31)
    ensures UpSlot(e) == Slot(n) && e.history[UpSlot(e)]
  {
    Slots(n - 32, n - 31);
    SlotRound(n);
    UpOneBack(e, Slot(n));
  }

  lemma SlotRound(n: nat)
    requires n >= 32
    ensures Slot(n - 32) == Slot(n)
  {
  }

  lemma UpReaches(e: Editor, lines: seq<Line>, p: Place, q: Place)
    requires AreCommands(lines) && IsPlace(lines, p) && At(e, lines, p) && (q.back > 0 || p.back > 0)
    requires IsPlace(lines, q) && q.draft == p.draft && UpSlot(e) == Slot(|lines| - q.back) && e.history[UpSlot(e)]
    ensures At(Up(e), lines, q)
  {
    Reaches(e, Up(e), UpSlot(e), lines, p, q);
  }

  lemma UpGoes(e: Editor, lines: seq<Line>, p: Place)
    requires AreCommands(lines) && lines != [] && IsPlace(lines, p) && At(e, lines, p)
    ensures IsPlace(lines, Next(|lines|, p, KeyUp)) && At(Up(e), lines, Next(|lines|, p, KeyUp))
  {
    UpSlotIs(e, |lines|, p.back);
    UpReaches(e, lines, p, Next(|lines|, p, KeyUp));
  }

  /** One slot below the top, Down stops at the top unless that is an unused slot 31. */
  lemma DownToTop(e: Editor)
    requires Sized(e) && IsSlot(e.curr) && e.top == Forward(e.curr, 1)
    ensures e.history[e.top] || e.top != 31 ==> DownSlot(e) == e.top
    ensures e.top == 31 && !e.history[31] && e.history[0] ==> DownSlot(e) == 0
  {
    if e.top == 31 && !e.history[31] && e.history[0] {
      assert Forward(e.curr, 2) == 0;
      assert DownSteps(e.history, e.top, e.curr, 2) == 2;
    }
  }

  lemma SlotForward(n: nat)
    requires n > 0
    ensures Forward(Slot(n - 1), 1) == Slot(n) && Slot(n - 1) != Slot(n)
    ensures (n == 31 ==> Slot(n) == 31) && (n < 31 ==> Slot(n) == n)
  {
  }

  /** Where Down stops from slot n - back: at the next command, or at the top, visible or not. */
  lemma DownSlotIs(e: Editor, n: nat, back: nat)
    requires Sized(e) && 1 <= back <= Reach(n) && Visible(e.history, n) && e.curr == Slot(n - back) && e.top == Slot(n)
    ensures var to := Next(n, Place(back, []), KeyDown).back;
      to <= Reach(n) && e.curr != e.top && DownSlot(e) == Slot(n - to)
    ensures e.history[DownSlot(e)] <==> back >= 2 || n >= 31
  {
    Slots(n - back, n);
    SlotForward(n - back + 1);
    if back >= 2 {
      assert e.history[Forward(e.curr, 1)];
    } else {
      DownToTop(e);
    }
  }

  lemma DownStays(e: Editor, lines: seq<Line>, p: Place)
    requires AreCommands(lines) && IsPlace(lines, p) && At(e, lines, p) && p.back == 0
    ensures At(Down(e), lines, p)
  {
    SaveKeepsStored(e.commands, lines, e.buf, 0);
  }

  lemma DownEmpties(e: Editor, lines: seq<Line>, p: Place)
    requires AreCommands(lines) && IsPlace(lines, p) && At(e, lines, p) && p.back > 0
    requires e.curr != e.top && DownSlot(e) == e.top && !e.history[e.top]
    ensures At(Down(e), lines, Place(0, []))
  {
    NothingRecalled(e, e.top);
    ArrivesAt(e, Down(e), lines, p, Place(0, []));
  }

  lemma NothingRecalled(e: Editor, slot: int)
    requires Sized(e) && IsSlot(e.curr) && IsSlot(slot) && !e.history[slot]
    ensures var r := Recalled(Saved(e), slot); r.buf == Padded([]) && r.idx == 0 && Moved(e, r, slot)
  {
    assert Padded([]) == EmptyLine();
  }

  lemma DownReaches(e: Editor, lines: seq<Line>, p: Place, q: Place)
    requires AreCommands(lines) && IsPlace(lines, p) && At(e, lines, p) && p.back > 0 && e.curr != e.top
    requires IsPlace(lines, q) && q.draft == p.draft && DownSlot(e) == Slot(|lines| - q.back) && e.history[DownSlot(e)]
    ensures At(Down(e), lines, q)
  {
    Reaches(e, Down(e), DownSlot(e), lines, p, q);
  }

  lemma DownGoes(e: Editor, lines: seq<Line>, p: Place)
    requires AreCommands(lines) && lines != [] && IsPlace(lines, p) && At(e, lines, p)
    ensures IsPlace(lines, Next(|lines|, p, KeyDown)) && At(Down(e), lines, Next(|lines|, p, KeyDown))
  {
    if p.back == 0 {
      DownStays(e, lines, p);
    } else {
      DownSlotIs(e, |lines|, p.back);
      if p.back >= 2 || |lines| >= 31 {
        DownReaches(e, lines, p, Next(|lines|, p, KeyDown));
      } else {
        DownEmpties(e, lines, p);
      }
    }
  }

  lemma {:induction false} WalkGoes(e: Editor, lines: seq<Line>, p: Place, word: seq<Event>)
    requires Good(e) && AreCommands(lines) && lines != [] && IsPlace(lines, p) && At(e, lines, p) && Arrows(word)
    ensures var q := Walked(|lines|, p, word); IsPlace(lines, q) && At(Run(e, word), lines, q)
    decreases |word|
  {
    if word != [] {
      var init, ev := word[..|word| - 1], word[|word| - 1];
      assert init + [ev] == word;
      WalkGoes(e, lines, p, init);
      RunAppends(e, init, ev);
      if ev.KeyUp? {
        UpGoes(Run(e, init), lines, Walked(|lines|, p, init));
      } else {
        DownGoes(Run(e, init), lines, Walked(|lines|, p, init));
      }
    }
  }

  /** Any lines entered, and then a draft typed. */
  function Drafted(lines: seq<Line>, draft: Line): (e: Editor)
    requires AreLines(lines) && IsLine(draft)
    ensures Good(e)
  {
    Run(EnteredAll(lines), Keys(draft))
  }

  lemma DraftedAt(lines: seq<Line>, draft: Line)
    requires AreLines(lines) && IsLine(draft)
    ensures At(Drafted(lines, draft), Kept(lines), Place(0, draft))
  {
    EnteredAllHolds(lines);
    TypingFills(EnteredAll(lines), draft);
    DraftAt(EnteredAll(lines), Kept(lines), draft);
  }

  lemma DraftAt(e: Editor, commands: seq<Line>, draft: Line)
    requires AreCommands(commands) && Holds(e, commands) && |draft| < BUF_SIZE && 0 !in draft
    ensures At(WithLine(e, draft), commands, Place(0, draft))
  {
    forall i | 0 <= i < |commands| <= i + 31
      ensures StoredAt(e.commands, commands, i)
    {
    }
  }

  /** After any lines and a draft, any presses of Up and Down lead where Next says: the buffer holds that line. */
  lemma ArrowsRecall(lines: seq<Line>, draft: Line, word: seq<Event>)
    requires AreLines(lines) && IsLine(draft) && Kept(lines) != [] && Arrows(word)
    ensures var r, p := Run(Drafted(lines, draft), word), Walked(|Kept(lines)|, Place(0, draft), word);
      && p.back <= |Kept(lines)| && |LineAt(Kept(lines), p)| < BUF_SIZE
      && r.buf == Padded(LineAt(Kept(lines), p)) && r.idx == |LineAt(Kept(lines), p)|
      && (r.curr == r.top <==> p.back == 0)
  {
    var commands, p := Kept(lines), Place(0, draft);
    DraftedAt(lines, draft);
    WalkGoes(Drafted(lines, draft), commands, p, word);
    AtIs(Run(Drafted(lines, draft), word), commands, Walked(|commands|, p, word));
  }

  lemma AtIs(e: Editor, lines: seq<Line>, p: Place)
    requires AreCommands(lines) && IsPlace(lines, p) && At(e, lines, p)
    ensures |LineAt(lines, p)| < BUF_SIZE && e.buf == Padded(LineAt(lines, p)) && e.idx == |LineAt(lines, p)|
    ensures e.curr == e.top <==> p.back == 0
  {
    CommandText(lines, p);
    if p.back > 0 {
      Slots(|lines| - p.back, |lines|);
    }
  }

  /** An editor with nothing remembered: on the draft, or, once Up has lost it, on an empty line. */
  predicate Bare(e: Editor, draft: Line, lost: bool)
    requires |draft| < BUF_SIZE
  {
    && Good(e) && Visible(e.history, 0) && e.top == 0
    && e.buf == (if lost then EmptyLine() else Padded(draft)) && (!lost ==> e.curr == 0)
  }

  lemma BareStep(e: Editor, draft: Line, lost: bool, ev: Event)
    requires |draft| < BUF_SIZE && Bare(e, draft, lost) && (ev.KeyUp? || ev.KeyDown?)
    ensures Bare(Step(e, ev), draft, lost || ev.KeyUp?)
  {
    StepKeepsGood(e, ev);
  }

  /** With nothing remembered the first Up loses the draft. */
  lemma {:induction false} NothingToRecall(lines: seq<Line>, draft: Line, word: seq<Event>)
    requires AreLines(lines) && IsLine(draft) && Kept(lines) == [] && Arrows(word)
    ensures Bare(Run(Drafted(lines, draft), word), draft, KeyUp in word)
    decreases |word|
  {
    if word == [] {
      DraftedAt(lines, draft);
    } else {
      var init, ev := word[..|word| - 1], word[|word| - 1];
      assert init + [ev] == word && (KeyUp in word <==> KeyUp in init || ev == KeyUp);
      NothingToRecall(lines, draft, init);
      RunAppends(Drafted(lines, draft), init, ev);
      BareStep(Run(Drafted(lines, draft), init), draft, KeyUp in init, ev);
    }
  }

  // ---------------------------------------------------------------------------------------------
  // What is echoed
  // ---------------------------------------------------------------------------------------------

  lemma {:induction false} NonZerosOf(text: Line, n: nat)
    requires 0 !in text
    ensures NonZeros(text + Screen.Repeat(0, n)) == |text|
    decreases n, |text|
  {
    var line := text + Screen.Repeat(0, n);
    if n > 0 {
      assert line[..|line| - 1] == text + Screen.Repeat(0, n - 1);
      NonZerosOf(text, n - 1);
    } else if text != [] {
      assert line == text && line[..|line| - 1] == text[..|text| - 1] + Screen.Repeat(0, 0);
      NonZerosOf(text[..|text| - 1], 0);
    }
  }

  lemma PaddedNonZeros(text: Line)
    requires |text| <= BUF_SIZE && 0 !in text
    ensures NonZeros(Padded(text)) == |text|
  {
    NonZerosOf(text, BUF_SIZE - |text|);
  }

  /** A line taken back and another one typed. */
  function Exchange(line: Line, other: Line): seq<byte> {
    Screen.Repeat(BACKSPACE, |line|) + other
  }

  lemma RecalledEchoes(e: Editor, slot: int, line: Line)
    requires Sized(e) && IsSlot(e.curr) && -1 <= slot < SAVED_COMMANDS_SIZE
    requires |line| <= BUF_SIZE && 0 !in line && e.buf == Padded(line)
    ensures var r := Recalled(Saved(e), slot);
      0 <= r.idx <= BUF_SIZE && r.echo == e.echo + Exchange(line, r.buf[..r.idx])
  {
    var r, back := Recalled(Saved(e), slot), Screen.Repeat(BACKSPACE, |line|);
    PaddedNonZeros(line);
    assert e.echo + back + r.buf[..r.idx] == e.echo + Exchange(line, r.buf[..r.idx]);
    assert e.echo + back + [] == e.echo + back;
  }

  /** What a key sends to the screen on its way from one line to the next: nothing when Down stays at the top. */
  function Said(ev: Event, atTop: bool, line: Line, other: Line): seq<byte> {
    if ev.KeyDown? && atTop then [] else Exchange(line, other)
  }

  lemma ArrowEchoes(e: Editor, ev: Event, line: Line, other: Line)
    requires Good(e) && (ev.KeyUp? || ev.KeyDown?) && |line| <= BUF_SIZE && 0 !in line && e.buf == Padded(line)
    requires |other| <= BUF_SIZE && Step(e, ev).buf == Padded(other) && Step(e, ev).idx == |other|
    ensures Step(e, ev).echo == e.echo + Said(ev, e.curr == e.top, line, other)
  {
    assert Padded(other)[..|other|] == other;
    if ev.KeyUp? {
      RecalledEchoes(e, UpSlot(e), line);
    } else if e.curr != e.top {
      RecalledEchoes(e, DownSlot(e), line);
    }
  }

  /** What each press of Up or Down echoes, after any others: it takes back exactly the line shown and types the one it
      leads to. */
  lemma ArrowReplacesTheLine(lines: seq<Line>, draft: Line, word: seq<Event>, ev: Event)
    requires AreLines(lines) && IsLine(draft) && Kept(lines) != [] && Arrows(word) && (ev.KeyUp? || ev.KeyDown?)
    ensures var commands, e := Kept(lines), Run(Drafted(lines, draft), word);
      var p := Walked(|commands|, Place(0, draft), word);
      var q := Next(|commands|, p, ev);
      && p.back <= |commands| && q.back <= |commands|
      && Step(e, ev).echo == e.echo + Said(ev, p.back == 0, LineAt(commands, p), LineAt(commands, q))
  {
    var commands, e := Kept(lines), Run(Drafted(lines, draft), word);
    var p := Walked(|commands|, Place(0, draft), word);
    DraftedAt(lines, draft);
    WalkGoes(Drafted(lines, draft), commands, Place(0, draft), word);
    ReplacesAt(e, commands, p, ev);
  }

  lemma ReplacesAt(e: Editor, lines: seq<Line>, p: Place, ev: Event)
    requires Good(e) && AreCommands(lines) && lines != [] && IsPlace(lines, p) && At(e, lines, p)
    requires ev.KeyUp? || ev.KeyDown?
    ensures var q := Next(|lines|, p, ev);
      q.back <= |lines| && Step(e, ev).echo == e.echo + Said(ev, p.back == 0, LineAt(lines, p), LineAt(lines, q))
  {
    var q := Next(|lines|, p, ev);
    if ev.KeyUp? {
      UpGoes(e, lines, p);
    } else {
      DownGoes(e, lines, p);
    }
    AtIs(e, lines, p);
    AtIs(Step(e, ev), lines, q);
    CommandText(lines, p);
    ArrowEchoes(e, ev, LineAt(lines, p), LineAt(lines, q));
  }

  /** Backspace takes back the last key of a typed line exactly when that is not the tab key: of a tab's four bytes the
      first stays behind in the buffer. */
  lemma BackspaceTakesBackExactly(e: Editor, line: Line)
    requires Waiting(e) && IsLine(line) && line != []
    ensures var r, last := Step(Run(e, Keys(line)), KeyBackspace), |line| - 1;
      var left := if line[last] == TAB then last - 3 else last;
      && 0 <= left && r.idx == left && (r.buf == Padded(line[..left]) <==> line[last] != TAB)
      && (line[last] == TAB ==> r.buf == Padded(line[..left] + [SPACE]))
      && r.echo == e.echo + Shown(line) + Screen.Repeat(BACKSPACE, |line| - left)
  {
    TypingFills(e, line);
    if line[|line| - 1] == TAB {
      BackspaceOnTab(Run(e, Keys(line)), line[..|line| - 4]);
      assert line == line[..|line| - 4] + TabBytes();
    } else {
      BackspaceOnChar(Run(e, Keys(line)), line);
    }
  }

  lemma BackspaceOnChar(e: Editor, line: Line)
    requires Good(e) && 0 < |line| < BUF_SIZE && e.buf == Padded(line) && e.idx == |line| && line[|line| - 1] != TAB
    ensures var r := Step(e, KeyBackspace);
      r == e.(buf := Padded(line[..|line| - 1]), idx := |line| - 1, echo := e.echo + Screen.Repeat(BACKSPACE, 1))
  {
    assert Padded(line)[|line| - 1 := 0] == Padded(line[..|line| - 1]);
    assert Screen.Repeat(BACKSPACE, 1) == [BACKSPACE];
  }

  lemma BackspaceOnTab(e: Editor, init: Line)
    requires Good(e) && |init| < BUF_SIZE - 5 && e.buf == Padded(init + TabBytes()) && e.idx == |init| + 4
    ensures var r := Step(e, KeyBackspace);
      && r.idx == |init| && r.buf == Padded(init + [SPACE]) != Padded(init)
      && r.echo == e.echo + Screen.Repeat(BACKSPACE, 4)
  {
    var n, line := |init|, init + TabBytes();
    assert line[n + 3] == TAB && Padded(line)[n + 3] == TAB;
    assert Padded(line)[n + 3 := 0][n + 2 := 0][n + 1 := 0] == Padded(init + [SPACE]);
    assert Padded(init + [SPACE])[n] == SPACE && Padded(init)[n] == 0;
    assert Screen.Repeat(BACKSPACE, 4) == [BACKSPACE, BACKSPACE, BACKSPACE] + [BACKSPACE];
    assert e.echo + [BACKSPACE, BACKSPACE, BACKSPACE] + [BACKSPACE] == e.echo + Screen.Repeat(BACKSPACE, 4);
  }

  // ---------------------------------------------------------------------------------------------
  // Up alone
  // ---------------------------------------------------------------------------------------------

  function Ups(j: nat): (word: seq<Event>)
    ensures |word| == j && Arrows(word) && forall i :: 0 <= i < j ==> word[i] == KeyUp
  {
    seq(j, _ => KeyUp)
  }

  /** j presses around n commands. */
  function Around(n: nat, j: nat): (back: nat)
    requires n > 0
    ensures back <= n && (back == 0 <==> j == 0)
    decreases j
  {
    if j <= n then j else Around(n, j - n)
  }

  /** How far back j presses lead: round and round the commands, from 32 on past the draft. */
  function UpsBack(n: nat, j: nat): nat
    requires n > 0
  {
    if n <= 31 then Around(n, j) else j % 32
  }

  lemma {:induction false} AroundNext(n: nat, j: nat)
    requires n > 0
    ensures Around(n, j + 1) == if Around(n, j) < n then Around(n, j) + 1 else 1
    decreases j
  {
    if j > n {
      AroundNext(n, j - n);
    }
  }

  lemma UpsNext(n: nat, j: nat)
    requires n > 0
    ensures UpsBack(n, j + 1) == Next(n, Place(UpsBack(n, j), []), KeyUp).back
  {
    if n <= 31 {
      AroundNext(n, j);
    }
  }

  lemma UpsBackIs(n: nat, j: nat)
    requires n > 0
    ensures UpsBack(n, j) <= Reach(n) && (1 <= j <= n && j <= 31 ==> UpsBack(n, j) == j)
  {
  }

  lemma {:induction false} UpsWalk(n: nat, draft: Line, j: nat)
    requires n > 0
    ensures Walked(n, Place(0, draft), Ups(j)) == Place(UpsBack(n, j), draft)
  {
    if j > 0 {
      assert Ups(j)[..j - 1] == Ups(j - 1);
      UpsWalk(n, draft, j - 1);
      UpsNext(n, j - 1);
    }
  }

  /** After any lines and a draft, j presses of Up bring back the j-th last command, for j up to 31; further presses
      start again at the last command, or, with 32 commands or more, come to the draft first. */
  lemma UpRecalls(lines: seq<Line>, draft: Line, j: nat)
    requires AreLines(lines) && IsLine(draft) && Kept(lines) != []
    ensures var commands := Kept(lines); var back := UpsBack(|commands|, j);
      && back <= |commands| && (1 <= j <= |commands| && j <= 31 ==> back == j)
      && |LineAt(commands, Place(back, draft))| < BUF_SIZE
      && Run(Drafted(lines, draft), Ups(j)).buf == Padded(LineAt(commands, Place(back, draft)))
  {
    UpsBackIs(|Kept(lines)|, j);
    UpsWalk(|Kept(lines)|, draft, j);
    ArrowsRecall(lines, draft, Ups(j));
  }

  /** Every 32nd press brings back the draft in place of the command 32 back: the first press saved it there. */
  lemma UpLosesTheOldest(lines: seq<Line>, commands: seq<Line>, draft: Line, j: nat)
    requires AreLines(lines) && IsLine(draft) && commands == Kept(lines) && |commands| >= 32 && j % 32 == 0
    ensures Run(Drafted(lines, draft), Ups(j)).buf == Padded(draft)
    ensures var oldest := commands[|commands| - 32];
      |oldest| < BUF_SIZE && (Padded(draft) == Padded(oldest) <==> draft == oldest)
  {
    DraftAgain(lines, draft, j);
    OldestApart(commands, draft);
  }

  lemma DraftAgain(lines: seq<Line>, draft: Line, j: nat)
    requires AreLines(lines) && IsLine(draft) && |Kept(lines)| >= 32 && j % 32 == 0
    ensures Run(Drafted(lines, draft), Ups(j)).buf == Padded(draft)
  {
    UpRecalls(lines, draft, j);
    assert UpsBack(|Kept(lines)|, j) == 0;
  }

  lemma OldestApart(commands: seq<Line>, draft: Line)
    requires AreCommands(commands) && |commands| >= 32 && |draft| < BUF_SIZE && 0 !in draft
    ensures var oldest := commands[|commands| - 32];
      |oldest| < BUF_SIZE && (Padded(draft) == Padded(oldest) <==> draft == oldest)
  {
    assert IsCommand(commands[|commands| - 32]);
    OnePadded(draft, commands[|commands| - 32]);
  }

  lemma OnePadded(a: Line, b: Line)
    requires |a| < BUF_SIZE && 0 !in a && |b| < BUF_SIZE && 0 !in b
    ensures Padded(a) == Padded(b) <==> a == b
  {
    TextOfPadded(a);
    TextOfPadded(b);
  }

  /** Up and then Down: up to 30 commands lose the draft, from 32 on it comes back, and with exactly 31 Down misses
      the draft's slot and goes on to the oldest command. */
  lemma UpThenDown(lines: seq<Line>, draft: Line)
    requires AreLines(lines) && IsLine(draft) && Kept(lines) != []
    ensures var commands, r := Kept(lines), Run(Drafted(lines, draft), [KeyUp, KeyDown]);
      && (r.curr == r.top <==> |commands| != 31)
      && r.buf == if |commands| <= 30 then EmptyLine()
                  else if |commands| == 31 then Padded(commands[0])
                  else Padded(draft)
  {
    var n := |Kept(lines)|;
    WalkedTwo(n, Place(0, draft));
    assert Padded([]) == EmptyLine();
    ArrowsRecall(lines, draft, [KeyUp, KeyDown]);
  }

  lemma WalkedTwo(n: nat, p: Place)
    requires n > 0
    ensures Walked(n, p, [KeyUp, KeyDown]) == Next(n, Next(n, p, KeyUp), KeyDown)
  {
    assert [KeyUp, KeyDown][..1] == [KeyUp] && [KeyUp][..0] == [];
    assert Walked(n, p, [KeyUp]) == Next(n, Walked(n, p, []), KeyUp);
  }

  // ---------------------------------------------------------------------------------------------
  // Entering a recalled command, and reading a line
  // ---------------------------------------------------------------------------------------------

  lemma MovedVisible(history: seq<bool>, r: seq<bool>, n: nat, j: nat)
    requires |history| == SAVED_COMMANDS_SIZE && Visible(history, n) && 1 <= j <= n && j <= 31
    requires r == history[Slot(n - j) := false][Slot(n) := true]
    ensures forall s :: 0 <= s < SAVED_COMMANDS_SIZE ==> (r[s] <==> s == Slot(n) || (s < n && s != Slot(n - j)))
  {
    Slots(n - j, n);
  }

  lemma NextUp(r: Editor, line: Line, n: nat)
    requires Good(r) && IsCommand(line) && r.curr == Slot(n + 1)
    requires r.history[Slot(n)] && r.commands[Slot(n)] == Padded(line)
    ensures Up(r).buf == Padded(line)
  {
    Slots(n, n + 1);
    assert r.history[Back(r.curr, 1)] && UpSlot(r) == Slot(n);
    RecalledIs(r, Slot(n), line);
  }

  /** The command recalled at the place is visible in the top slot and no longer in its old one, and the next Up brings
      it back. */
  predicate Reentered(r: Editor, lines: seq<Line>, p: Place)
    requires AreCommands(lines) && 0 < p.back <= |lines|
  {
    var n, line := |lines|, lines[|lines| - p.back];
    && Good(r) && r.curr == r.top == Slot(n + 1) && IsCommand(line) && Up(r).buf == Padded(line)
    && forall s :: 0 <= s < SAVED_COMMANDS_SIZE ==>
      (r.history[s] <==> s == Slot(n) || (s < n && s != Slot(n - p.back)))
  }

  /** Entering a recalled command moves it: it is visible in the top slot, its old slot is hidden, and the next Up
      brings it back. So for every walk through the ring that ends on a command. */
  lemma ReenteringMoves(lines: seq<Line>, draft: Line, word: seq<Event>)
    requires AreLines(lines) && IsLine(draft) && Kept(lines) != [] && Arrows(word)
    requires Walked(|Kept(lines)|, Place(0, draft), word).back > 0
    ensures var e, p := Run(Drafted(lines, draft), word), Walked(|Kept(lines)|, Place(0, draft), word);
      && p.back <= |Kept(lines)| && Good(Step(e, KeyEnter))
      && Reentered(Step(Step(e, KeyEnter), ReadEnds), Kept(lines), p)
  {
    DraftedAt(lines, draft);
    WalkGoes(Drafted(lines, draft), Kept(lines), Place(0, draft), word);
    ReentersAt(Run(Drafted(lines, draft), word), Kept(lines), Walked(|Kept(lines)|, Place(0, draft), word));
  }

  lemma ReentersAt(e: Editor, lines: seq<Line>, p: Place)
    requires Good(e) && AreCommands(lines) && IsPlace(lines, p) && At(e, lines, p) && p.back > 0
    ensures Good(Step(e, KeyEnter)) && Reentered(Step(Step(e, KeyEnter), ReadEnds), lines, p)
  {
    assert IsCommand(lines[|lines| - p.back]);
    StepKeepsGood(e, KeyEnter);
    StepKeepsGood(Step(e, KeyEnter), ReadEnds);
    EnteredAgain(e, Step(Step(e, KeyEnter), ReadEnds));
    ReenteredIs(e, Step(Step(e, KeyEnter), ReadEnds), lines, p);
  }

  lemma ReenteredIs(e: Editor, r: Editor, lines: seq<Line>, p: Place)
    requires Good(r) && AreCommands(lines) && IsPlace(lines, p) && At(e, lines, p) && p.back > 0
    requires r.commands == e.commands[e.top := e.buf] && r.history == e.history[e.curr := false][e.top := true]
    requires r.curr == r.top == NextSlot(e.top)
    ensures Reentered(r, lines, p)
  {
    var n := |lines|;
    assert IsCommand(lines[n - p.back]);
    Slots(n, n + 1);
    MovedVisible(e.history, r.history, n, p.back);
    NextUp(r, lines[n - p.back], n);
  }

  lemma EnteredAgain(e: Editor, r: Editor)
    requires Good(e) && 0 < e.idx < BUF_SIZE - 1 && !e.enterFlag && Good(Step(e, KeyEnter))
    requires r == Step(Step(e, KeyEnter), ReadEnds)
    ensures r.commands == e.commands[e.top := e.buf] && r.history == e.history[e.curr := false][e.top := true]
    ensures r.curr == r.top == NextSlot(e.top)
  {
  }

  /** The line and its newline, cut to a count. */
  function CutTo(line: Line, nbytes: int): Line {
    var t := line + [NEWLINE];
    if nbytes <= 0 then [] else if nbytes < |t| then t[..nbytes] else t
  }

  /** What a program reads is the line as typed, with its newline, cut to the count it asked for, also when the line is
      not remembered; the editor is then ready for the next line. */
  lemma ReadReturnsTheLine(e: Editor, line: Line, nbytes: int)
    requires Waiting(e) && IsLine(line)
    ensures var e1 := Step(Run(e, Keys(line)), KeyEnter);
      && Good(e1) && e1.enterFlag && Taken(e1, nbytes) == CutTo(line, nbytes) && Waiting(Step(e1, ReadEnds))
  {
    RemembersExactly(e, line);
    TextOfPadded(line + [NEWLINE]);
    ReadEmpties(Step(Run(e, Keys(line)), KeyEnter));
  }

  // ---------------------------------------------------------------------------------------------
  // Typing ahead of a read, and against the end of the buffer
  // ---------------------------------------------------------------------------------------------

  lemma {:induction false} NonZerosCount(line: Line)
    ensures NonZeros(line) == |set i | 0 <= i < |line| && line[i] != 0|
  {
    if line != [] {
      var last := |line| - 1;
      NonZerosCount(line[..last]);
      var before := set i | 0 <= i < last && line[..last][i] != 0;
      var all := set i | 0 <= i < |line| && line[i] != 0;
      assert all == if line[last] == 0 then before else before + {last};
    }
  }

  /** A read that starts drops all that was typed before: the buffer is zeroed, with a '\b' echoed for every byte that
      was not 0, and the ring and the flag of Enter stay. */
  lemma ReadStartDropsInput(e: Editor)
    requires Good(e)
    ensures var r := Step(e, ReadStarts);
      && (forall i :: 0 <= i < 128 ==> r.buf[i] == 0) && r.idx == 0
      && r.echo == e.echo + seq(|set i | 0 <= i < 128 && e.buf[i] != 0|, _ => 8)
      && r == e.(buf := r.buf, idx := r.idx, echo := r.echo)
  {
    NonZerosCount(e.buf);
  }

  /** A line typed ahead of the read is lost: the editor is as before it, and the screen is told to take it back. */
  lemma TypedAheadIsLost(e: Editor, line: Line)
    requires Waiting(e) && IsLine(line)
    ensures Step(Run(e, Keys(line)), ReadStarts) == e.(echo := e.echo + Shown(line) + Screen.Repeat(8, |line|))
  {
    TypingFills(e, line);
    PaddedNonZeros(line);
  }

  /** A line typed and entered ahead of the read is lost too, and ends the read: it returns no byte at once. */
  lemma EnteredAheadReadsNothing(e: Editor, line: Line, nbytes: int)
    requires Waiting(e) && IsLine(line)
    ensures var e1 := Step(Run(e, Keys(line)), KeyEnter);
      && Good(e1) && var r := Step(e1, ReadStarts);
      && Good(r) && r.enterFlag && Taken(r, nbytes) == []
      && Waiting(Step(r, ReadEnds)) && r.commands == e1.commands && r.history == e1.history
  {
    RemembersExactly(e, line);
    StepKeepsGood(Step(Run(e, Keys(line)), KeyEnter), ReadStarts);
    ReadEmpties(Step(Step(Run(e, Keys(line)), KeyEnter), ReadStarts));
  }

  /** A tab is typed exactly when its four bytes leave a byte of the first 127 free; otherwise the key does nothing. */
  lemma TabFitsExactly(e: Editor, init: Line)
    requires |init| < 127 && Good(WithLine(e, init))
    ensures Step(WithLine(e, init), KeyTab) ==
      if |init| + 4 < 127 then WithLine(e, init + [32, 32, 32, 9]) else WithLine(e, init)
  {
    if |init| + 4 < 127 {
      TabFills(e, init);
    }
  }

  /** A character is typed exactly when fewer than 127 bytes are in the buffer. */
  lemma CharFitsExactly(e: Editor, init: Line, c: byte)
    requires |init| <= 127 && Good(WithLine(e, init)) && c != 9
    ensures Step(WithLine(e, init), KeyChar(c)) == if |init| < 127 then WithLine(e, init + [c]) else WithLine(e, init)
  {
    if |init| < 127 {
      CharFills(e, init, c);
    }
  }

  /** A second Enter before the read changes nothing, unless the buffer is full. */
  lemma SecondEnter(e: Editor, line: Line)
    requires Waiting(e) && IsLine(line) && |line| < 126
    ensures var e1 := Step(Run(e, Keys(line)), KeyEnter); Good(e1) && Step(e1, KeyEnter) == e1
  {
    TypingFills(e, line);
    EnterIs(Run(e, Keys(line)), line);
  }
}
