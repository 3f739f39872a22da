/** What programs print and users type decides whether the terminals stay independent: text that keeps each cursor on
    its screen does, and a text that does not. */
module SafeText {
  import opened Screen
  import opened Terminals

  /** Runs of the specification in which every character stays on the screen of its terminal. */
  predicate EnabledRun(s: Spec, events: seq<Event>)
    requires ValidSpec(s) && ValidEvents(events)
    decreases |events|
  {
    events == [] || (Enabled(s, events[0]) && EnabledRun(SpecStep(s, events[0]), events[1..]))
  }

  lemma EnabledIsClean(m: Machine, e: Event)
    requires Ready(m, m.active) && ValidEvent(e) && Enabled(Abstract(m, m.active), e)
    ensures CleanEvent(m, e)
  {
    var s := Abstract(m, m.active);
    HoldsAbstract(m, m.active, s.terms);
    match e {
      case Output(op) => PermittedIsClean(m, m.active, op);
      case Key(before, request, after) => EnabledKeyIsClean(m, before, request, after);
      case _ =>
    }
  }

  lemma EnabledKeyIsClean(m: Machine, before: seq<Op>, request: Request, after: seq<Op>)
    requires Ready(m, m.active) && ValidEvent(Key(before, request, after))
    requires Enabled(Abstract(m, m.active), Key(before, request, after))
    ensures CleanEvent(m, Key(before, request, after))
  {
    var s := Abstract(m, m.active);
    HoldsAbstract(m, m.active, s.terms);
    SwitchRefines(m, m.active, m.shown);
    AllPermittedIsClean(KeyLoaded(m), m.shown, before);
    ActsOnHeld(KeyLoaded(m), m.shown, before, s.terms);
    if request.Show? {
      ShowRefines(ApplyAll(KeyLoaded(m), before), request.target);
    }
    AllPermittedIsClean(KeySwitched(m, before, request), Shown(s, request), after);
  }

  lemma {:induction false} EnabledRunIsClean(m: Machine, events: seq<Event>)
    requires Ready(m, m.active) && ValidEvents(events) && EnabledRun(Abstract(m, m.active), events)
    ensures CleanRun(m, events)
    decreases |events|
  {
    if events != [] {
      EnabledIsClean(m, events[0]);
      EventRefines(m, events[0]);
      EnabledRunIsClean(Execute(m, events[0]), events[1..]);
    }
  }

  /** What a sequence of operations must keep to, from a cursor with n characters since the last line break or reset:
      clear only with terminal_x at 0, and at most 1920 characters from one line break or reset to the next. */
  predicate Tame(k: Cursor, n: nat, ops: seq<Op>)
    decreases |ops|
  {
    ops == [] ||
      match ops[0]
      case Put(c) =>
        var n' := if Breaks(c) then 0 else if c == BACKSPACE then n else n + 1;
        n' <= 1920 && Tame(Move(k, c), n', ops[1..])
      case Clear => k.tx == 0 && Tame(Cursor(0, 0, 0), n, ops[1..])
      case ResetX => Tame(k.(tx := 0), 0, ops[1..])
      case SetHistory(_, _) => Tame(k, n, ops[1..])
  }

  /** Tame operations from a cursor with room to erase. */
  predicate TameFrom(k: Cursor, n: nat, ops: seq<Op>) {
    RoomToErase(k) && k.tx <= n && Tame(k, n, ops)
  }

  /** The characters since the last line break or reset, after more operations. */
  function Since(n: nat, ops: seq<Op>): nat
    decreases |ops|
  {
    if ops == [] then n
    else
      var n' := match ops[0]
        case Put(c) => if Breaks(c) then 0 else if c == BACKSPACE then n else n + 1
        case ResetX => 0
        case _ => n;
      Since(n', ops[1..])
  }

  /** Backspace safety: from any cursor with room to erase, such operations stay on the screen and keep the room. */
  lemma {:induction false} TameStaysOnScreen(t: Terminal, n: nat, ops: seq<Op>)
    requires |t.page| == PAGE_BYTES && TameFrom(t.regs.cursor, n, ops)
    ensures AllPermitted(t, ops)
    ensures RoomToErase(ActAll(t, ops).regs.cursor) && ActAll(t, ops).regs.cursor.tx <= Since(n, ops)
    decreases |ops|
  {
    if ops != [] {
      var t' := Act(t, ops[0]);
      match ops[0] {
        case Put(c) =>
          RoomKeptExactly(t.regs.cursor, c);
          TameStaysOnScreen(t', if Breaks(c) then 0 else if c == BACKSPACE then n else n + 1, ops[1..]);
        case Clear => TameStaysOnScreen(t', n, ops[1..]);
        case ResetX => TameStaysOnScreen(t', 0, ops[1..]);
        case SetHistory(_, _) => TameStaysOnScreen(t', n, ops[1..]);
      }
    }
  }

  lemma {:induction false} TameSplits(t: Terminal, n: nat, a: seq<Op>, b: seq<Op>)
    requires |t.page| == PAGE_BYTES && Tame(t.regs.cursor, n, a + b)
    ensures Tame(t.regs.cursor, n, a) && Tame(ActAll(t, a).regs.cursor, Since(n, a), b)
    ensures ActAll(t, a + b) == ActAll(ActAll(t, a), b) && Since(n, a + b) == Since(Since(n, a), b)
    decreases |a|
  {
    if a == [] {
      assert a + b == b;
    } else {
      assert (a + b)[0] == a[0] && (a + b)[1..] == a[1..] + b;
      var n' := match a[0]
        case Put(c) => if Breaks(c) then 0 else if c == BACKSPACE then n else n + 1
        case ResetX => 0
        case _ => n;
      TameSplits(Act(t, a[0]), n', a[1..], b);
    }
  }

  /** The operations an event brings to terminal t. */
  function Received(s: Spec, e: Event, t: int): seq<Op>
    requires ValidSpec(s) && ValidEvent(e)
  {
    match e
    case Output(op) => if t == s.active then [op] else []
    case Key(before, request, after) =>
      (if t == s.shown then before else []) + (if t == Shown(s, request) then after else [])
    case _ => []
  }

  /** The operations a run brings to terminal t, in order. */
  function Text(s: Spec, events: seq<Event>, t: int): seq<Op>
    requires ValidSpec(s) && ValidEvents(events)
    decreases |events|
  {
    if events == [] then [] else Received(s, events[0], t) + Text(SpecStep(s, events[0]), events[1..], t)
  }

  /** What a run brings to each terminal keeps to the rules, from a cursor with room to erase. */
  ghost predicate TameRun(s: Spec, ns: seq<nat>, events: seq<Event>)
    requires ValidSpec(s) && ValidEvents(events)
  {
    |ns| == TERMINALS && forall t :: IsTerminal(t) ==> TameFrom(s.terms[t].regs.cursor, ns[t], Text(s, events, t))
  }

  /** An event acts on the registers of each terminal as the operations it brings to it. */
  lemma ReceivedActs(s: Spec, e: Event, t: int, n: nat)
    requires ValidSpec(s) && ValidEvent(e) && IsTerminal(t) && Tame(s.terms[t].regs.cursor, n, Received(s, e, t))
    ensures SpecStep(s, e).terms[t].regs == ActAll(s.terms[t], Received(s, e, t)).regs
  {
    match e {
      case Output(op) =>
        assert ActAll(s.terms[t], [op]) == ActAll(Act(s.terms[t], op), []);
      case Key(before, request, after) =>
        if t == s.shown && t == Shown(s, request) {
          TameSplits(s.terms[t], n, before, after);
        } else {
          assert Received(s, e, t) == (if t == s.shown then before else if t == Shown(s, request) then after else []);
        }
      case _ =>
    }
  }

  lemma TameEventEnabled(s: Spec, ns: seq<nat>, e: Event)
    requires ValidSpec(s) && ValidEvent(e) && |ns| == TERMINALS
    requires forall t :: IsTerminal(t) ==> TameFrom(s.terms[t].regs.cursor, ns[t], Received(s, e, t))
    ensures Enabled(s, e)
  {
    match e {
      case Output(op) =>
        assert Received(s, e, s.active) == [op];
        TameStaysOnScreen(s.terms[s.active], ns[s.active], [op]);
      case Key(before, request, after) => TameKeyEnabled(s, ns, before, request, after);
      case _ =>
    }
  }

  lemma TameKeyEnabled(s: Spec, ns: seq<nat>, before: seq<Op>, request: Request, after: seq<Op>)
    requires ValidSpec(s) && ValidEvent(Key(before, request, after)) && |ns| == TERMINALS
    requires forall t :: IsTerminal(t) ==>
      TameFrom(s.terms[t].regs.cursor, ns[t], Received(s, Key(before, request, after), t))
    ensures Enabled(s, Key(before, request, after))
  {
    var e, t, u := Key(before, request, after), s.shown, Shown(s, request);
    var term := s.terms[t];
    if t == u {
      assert Received(s, e, t) == before + after;
      TameSplits(term, ns[t], before, after);
      TameStaysOnScreen(term, ns[t], before);
      TameStaysOnScreen(ActAll(term, before), Since(ns[t], before), after);
    } else {
      assert Received(s, e, t) == before && Received(s, e, u) == after;
      TameStaysOnScreen(term, ns[t], before);
      TameStaysOnScreen(s.terms[u], ns[u], after);
    }
  }

  function NextCounts(s: Spec, ns: seq<nat>, e: Event): (r: seq<nat>)
    requires ValidSpec(s) && ValidEvent(e) && |ns| == TERMINALS
    ensures |r| == TERMINALS && forall t :: 0 <= t < TERMINALS ==> r[t] == Since(ns[t], Received(s, e, t))
  {
    [Since(ns[0], Received(s, e, 0)), Since(ns[1], Received(s, e, 1)), Since(ns[2], Received(s, e, 2))]
  }

  lemma TameNext(s: Spec, ns: seq<nat>, e: Event, rest: seq<Op>, t: int)
    requires ValidSpec(s) && ValidEvent(e) && |ns| == TERMINALS && IsTerminal(t)
    requires TameFrom(s.terms[t].regs.cursor, ns[t], Received(s, e, t) + rest)
    ensures TameFrom(s.terms[t].regs.cursor, ns[t], Received(s, e, t))
    ensures TameFrom(SpecStep(s, e).terms[t].regs.cursor, NextCounts(s, ns, e)[t], rest)
  {
    TameSplits(s.terms[t], ns[t], Received(s, e, t), rest);
    TameStaysOnScreen(s.terms[t], ns[t], Received(s, e, t));
    ReceivedActs(s, e, t, ns[t]);
  }

  /** Runs in which each terminal gets tame text stay on the screens: by EnabledRunIsClean and RunRefines the machine
      is then three independent terminals. */
  lemma {:induction false} TameRunEnabled(s: Spec, ns: seq<nat>, events: seq<Event>)
    requires ValidSpec(s) && ValidEvents(events) && TameRun(s, ns, events)
    ensures EnabledRun(s, events)
    decreases |events|
  {
    if events != [] {
      var e, rest := events[0], events[1..];
      forall t | IsTerminal(t)
        ensures TameFrom(s.terms[t].regs.cursor, ns[t], Received(s, e, t))
        ensures TameFrom(SpecStep(s, e).terms[t].regs.cursor, NextCounts(s, ns, e)[t], Text(SpecStep(s, e), rest, t))
      {
        TameNext(s, ns, e, Text(SpecStep(s, e), rest, t), t);
      }
      TameEventEnabled(s, ns, e);
      TameRunEnabled(SpecStep(s, e), NextCounts(s, ns, e), rest);
    }
  }

  /** The refinement from what is typed and printed alone. */
  lemma TameRunRefines(m: Machine, ns: seq<nat>, events: seq<Event>)
    requires Ready(m, m.active) && ValidEvents(events) && TameRun(Abstract(m, m.active), ns, events)
    ensures var m' := ExecuteAll(m, events);
      Ready(m', m'.active) && Abstract(m', m'.active) == SpecRun(Abstract(m, m.active), events)
  {
    TameRunEnabled(Abstract(m, m.active), ns, events);
    EnabledRunIsClean(m, events);
    RunRefines(m, events);
  }

  // ---------------------------------------------------------------------------------------------
  // Text that reaches another terminal's screen
  // ---------------------------------------------------------------------------------------------

  function Outputs(text: seq<byte>): (events: seq<Event>)
    ensures |events| == |text| && ValidEvents(events)
    ensures forall i :: 0 <= i < |text| ==> events[i] == Output(Put(text[i]))
  {
    seq(|text|, i requires 0 <= i < |text| => Output(Put(text[i])))
  }

  /** No putc of the outputs stores where no page is present. */
  predicate FaultFree(m: Machine, text: seq<byte>)
    requires Sized(m)
    decreases |text|
  {
    text == [] ||
      var last := |text| - 1;
      FaultFree(m, text[..last]) && !Faults(ExecuteAll(m, Outputs(text[..last])), Put(text[last]))
  }

  /** After a text printed by the active terminal its cursor is where the text leads, and it is still active. */
  lemma {:induction false} OutputsMove(m: Machine, text: seq<byte>)
    requires Sized(m)
    ensures var m' := ExecuteAll(m, Outputs(text));
      && m'.live.cursor == MoveAll(m.live.cursor, text)
      && m'.active == m.active && m'.shown == m.shown && m'.videoMem == m.videoMem
    decreases |text|
  {
    if text != [] {
      var last := |text| - 1;
      OutputsMove(m, text[..last]);
      assert Outputs(text) == Outputs(text[..last]) + [Output(Put(text[last]))];
      ExecuteAllAppends(m, Outputs(text[..last]), Output(Put(text[last])));
    }
  }

  lemma {:induction false} OutputsConcernOne(s: Spec, events: seq<Event>, t: int)
    requires ValidSpec(s) && ValidEvents(events) && t != s.active && forall i :: 0 <= i < |events| ==> events[i].Output?
    ensures NeverConcerned(s, events, t)
    decreases |events|
  {
    if events != [] {
      OutputsConcernOne(SpecStep(s, events[0]), events[1..], t);
    }
  }

  /** 2000 characters, and then j backspaces. */
  function Burst(x: byte, j: nat): seq<byte> {
    Repeat(x, 2000) + Repeat(BACKSPACE, j)
  }

  /** Where they leave the cursor of a cleared screen: from the 1921st backspace on, above it. */
  function BurstCursorAt(j: nat): Cursor {
    if j <= 1920 then Cursor((1920 - j) % 80, (1920 - j) / 80, 2000 - j) else Cursor(2000 - j, -1, 2000 - j)
  }

  lemma BackOne(j: nat)
    requires j < 2000
    ensures Move(BurstCursorAt(j), BACKSPACE) == BurstCursorAt(j + 1)
  {
    if j < 1920 {
      NextCell(1919 - j);
      MoveIsAdvance(BurstCursorAt(j), BACKSPACE);
    } else {
      BackAbove(j);
    }
  }

  lemma BackAbove(j: nat)
    requires 1920 <= j < 2000
    ensures Move(BurstCursorAt(j), BACKSPACE) == Cursor(1999 - j, -1, 1999 - j)
  {
  }

  lemma BurstExtends(x: byte, j: nat)
    ensures Burst(x, j + 1) == Burst(x, j) + [BACKSPACE]
  {
  }

  lemma OutputsExtend(text: seq<byte>, c: byte)
    ensures Outputs(text + [c]) == Outputs(text) + [Output(Put(c))]
  {
  }

  lemma {:induction false} BurstMoves(x: byte, j: nat)
    requires Plain(x) && j <= 2000
    ensures MoveAll(Cursor(0, 0, 0), Burst(x, j)) == BurstCursorAt(j)
  {
    if j == 0 {
      assert Burst(x, 0) == Repeat(x, 2000);
      BurstCursor(x, 2000);
    } else {
      assert Burst(x, j)[..|Burst(x, j)| - 1] == Burst(x, j - 1);
      BurstMoves(x, j - 1);
      BackOne(j - 1);
    }
  }

  /** Hidden terminal 2 with a cleared screen, and hidden terminal 1 with something in its last cell. */
  predicate Exposed(m: Machine) {
    && Ready(m, m.active) && m.active == 2 && m.shown == 0 && m.live.cursor == Cursor(0, 0, 0)
    && CharAt(Logical(m, 2, 1).page, CELLS - 1) != 0
  }

  lemma PlainMapped(m: Machine, x: byte)
    requires Sized(m) && m.videoMem == BackingPage(2) && OnScreen(m.live.cursor) && Plain(x)
    ensures !Faults(m, Put(x))
  {
  }

  lemma BackMapped(m: Machine, j: nat)
    requires Sized(m) && m.videoMem == BackingPage(2) && m.live.cursor == BurstCursorAt(j) && j <= 1968
    ensures !Faults(m, Put(BACKSPACE))
  {
    var k := m.live.cursor;
    assert Linear(k) == 1920 - j;
    assert Linear(Step(k, BACKSPACE)) == Linear(Wrap(Step(k, BACKSPACE))) == 1919 - j;
  }

  lemma BurstOnScreen(n: nat)
    ensures OnScreen(BurstAt(n))
  {
  }

  lemma {:induction false} CharsFaultFree(m: Machine, x: byte, n: nat)
    requires Exposed(m) && Plain(x)
    ensures FaultFree(m, Repeat(x, n))
  {
    if n > 0 {
      assert Repeat(x, n)[..n - 1] == Repeat(x, n - 1);
      CharsFaultFree(m, x, n - 1);
      OutputsMove(m, Repeat(x, n - 1));
      BurstCursor(x, n - 1);
      BurstOnScreen(n - 1);
      PlainMapped(ExecuteAll(m, Outputs(Repeat(x, n - 1))), x);
    }
  }

  lemma FaultFreeExtends(m: Machine, text: seq<byte>, c: byte)
    requires Sized(m) && FaultFree(m, text) && !Faults(ExecuteAll(m, Outputs(text)), Put(c))
    ensures FaultFree(m, text + [c])
  {
    assert (text + [c])[..|text|] == text;
  }

  lemma {:induction false} BurstFaultFree(m: Machine, x: byte, j: nat)
    requires Exposed(m) && Plain(x) && j <= 1969
    ensures FaultFree(m, Burst(x, j))
  {
    if j == 0 {
      assert Burst(x, 0) == Repeat(x, 2000);
      CharsFaultFree(m, x, 2000);
    } else {
      BurstFaultFree(m, x, j - 1);
      OutputsMove(m, Burst(x, j - 1));
      BurstMoves(x, j - 1);
      BackMapped(ExecuteAll(m, Outputs(Burst(x, j - 1))), j - 1);
      BurstExtends(x, j - 1);
      FaultFreeExtends(m, Burst(x, j - 1), BACKSPACE);
    }
  }

  /** Isolation fails without clean text: 2000 characters and 1969 backspaces printed by hidden terminal 2 blank the
      last cell of terminal 1's screen, which gets no output and no keystrokes, and no store of them faults. */
  lemma BurstBlanksNeighbour(m: Machine, x: byte)
    requires Exposed(m) && Plain(x)
    ensures var events := Outputs(Burst(x, 1969));
      && NeverConcerned(Abstract(m, 2), events, 1) && FaultFree(m, Burst(x, 1969))
      && CharAt(Logical(ExecuteAll(m, events), 2, 1).page, CELLS - 1) == 0
  {
    var before, text := Burst(x, 1968), Burst(x, 1969);
    BurstExtends(x, 1968);
    OutputsConcernOne(Abstract(m, 2), Outputs(text), 1);
    BurstFaultFree(m, x, 1969);
    OutputsMove(m, before);
    BurstMoves(x, 1968);
    OutputsExtend(before, BACKSPACE);
    ExecuteAllAppends(m, Outputs(before), Output(Put(BACKSPACE)));
    BlankedBelow(ExecuteAll(m, Outputs(before)));
  }

  /** A tick starts a shell on the next terminal, and the shell clears its screen. */
  function ShellStarted(m: Machine): (r: Machine)
    requires Sized(m)
    ensures Sized(r)
  {
    Execute(Execute(m, TimerTick), Output(Clear))
  }

  lemma ShellStarts(m: Machine)
    requires Ready(m, m.active)
    ensures var m', t' := ShellStarted(m), (m.active + 1) % TERMINALS;
      && Ready(m', t') && m'.active == t' && m'.shown == m.shown
      && Logical(m', t', t') == Act(Logical(m, m.active, t'), Clear)
      && forall t :: IsTerminal(t) && t != t' ==> Logical(m', t', t) == Logical(m, m.active, t)
  {
    TickRefines(m);
    ApplyRefines(Tick(m), Tick(m).active, Clear);
  }

  lemma FirstShellStarts(m: Machine)
    requires Sized(m) && m.active == 2 && m.shown == 0
    ensures var m' := ShellStarted(m);
      && Ready(m', 0) && m'.active == m'.shown == 0
      && Logical(m', 0, 2).regs == m.live
  {
    FirstTick(m);
  }

  lemma ClearedIs(t: Terminal)
    requires |t.page| == PAGE_BYTES
    ensures Act(t, Clear).regs.cursor == Cursor(0, 0, t.regs.cursor.tx)
    ensures CharAt(Act(t, Clear).page, CELLS - 1) == SPACE
  {
  }

  /** Boot, with a shell on each terminal. */
  function ThreeShells(m: Machine): (r: Machine)
    requires Sized(m)
    ensures Sized(r)
  {
    ShellStarted(ShellStarted(ShellStarted(m)))
  }

  /** It reaches such a machine, whatever else was in the registers and in memory. */
  lemma BootExposes(m: Machine)
    requires Sized(m) && m.active == 2 && m.shown == 0 && m.live.cursor.tx == 0
    ensures Exposed(ThreeShells(m))
  {
    FirstShellStarts(m);
    NextShellsExpose(ShellStarted(m));
  }

  lemma NextShellsExpose(m: Machine)
    requires Ready(m, 0) && m.active == m.shown == 0 && Logical(m, 0, 2).regs.cursor.tx == 0
    ensures Exposed(ShellStarted(ShellStarted(m)))
  {
    ShellStarts(m);
    ClearedIs(Logical(m, 0, 1));
    LastShellExposes(ShellStarted(m));
  }

  lemma LastShellExposes(m: Machine)
    requires Ready(m, 1) && m.active == 1 && m.shown == 0 && Logical(m, 1, 2).regs.cursor.tx == 0
    requires CharAt(Logical(m, 1, 1).page, CELLS - 1) == SPACE
    ensures Exposed(ShellStarted(m))
  {
    ShellStarts(m);
    ClearedIs(Logical(m, 1, 2));
  }

  /** The failing run from boot. */
  lemma BurstFromBoot(m: Machine, x: byte)
    requires Sized(m) && m.active == 2 && m.shown == 0 && m.live.cursor.tx == 0 && Plain(x)
    ensures var m3, events := ThreeShells(m), Outputs(Burst(x, 1969));
      && Ready(m3, 2) && NeverConcerned(Abstract(m3, 2), events, 1) && FaultFree(m3, Burst(x, 1969))
      && CharAt(Logical(m3, 2, 1).page, CELLS - 1) != 0
      && CharAt(Logical(ExecuteAll(m3, events), 2, 1).page, CELLS - 1) == 0
  {
    BootExposes(m);
    BurstBlanksNeighbour(ThreeShells(m), x);
  }

  /** The 49th backspace above the screen stores a NUL into the last cell of the page below. */
  lemma BlankedBelow(m: Machine)
    requires Sized(m) && m.active == 2 && m.shown == 0 && m.videoMem == BackingPage(2)
    requires m.live.cursor == Cursor(32, -1, 32)
    ensures CharAt(Logical(Execute(m, Output(Put(BACKSPACE))), 2, 1).page, CELLS - 1) == 0
  {
    DrawElsewhere(m.mem, m.videoMem, m.live.cursor, BACKSPACE, BackingPage(1) + 2 * (CELLS - 1));
  }
}
