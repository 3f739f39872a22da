/** The three line editors on the multiplexed machine. Each keeps two of its indices in the shared registers and echoes
    through putc; they behave as three editors that never meet, whatever is printed and whichever terminal runs. */
module Editors {
  import opened Screen
  import opened Terminals
  import H = History

  /** What terminal_t holds of an editor; its history indices are in the registers, live or saved. */
  datatype Desk = Desk(buf: H.Line, idx: int, enterFlag: bool, commands: seq<H.Line>, history: seq<bool>)

  datatype System = System(machine: Machine, desks: seq<Desk>)

  /** An editor, its echo empty: what it echoes goes to the screen. */
  function EditorOn(d: Desk, regs: Regs): H.Editor {
    H.Editor(d.buf, d.idx, d.enterFlag, d.commands, d.history, regs.curr, regs.top, [])
  }

  function DeskOf(e: H.Editor): Desk {
    Desk(e.buf, e.idx, e.enterFlag, e.commands, e.history)
  }

  predicate SizedSystem(s: System) {
    Sized(s.machine) && |s.desks| == TERMINALS
  }

  /** The editor of terminal t, from its desk and its registers, wherever these are. */
  function EditorAt(s: System, t: int): H.Editor
    requires SizedSystem(s) && IsTerminal(t)
  {
    EditorOn(s.desks[t], RegsOf(s.machine, s.machine.active, t))
  }

  /** The machine is coherent and every editor good. */
  ghost predicate Sound(s: System) {
    SizedSystem(s) && Ready(s.machine, s.machine.active) && forall t :: IsTerminal(t) ==> H.Good(EditorAt(s, t))
  }

  // ---------------------------------------------------------------------------------------------
  // The steps
  // ---------------------------------------------------------------------------------------------

  /** A key for the shown terminal's editor, after an Alt+Fn switch if one is held; the clearing of the buffer where a
      read of the active terminal starts or ends; and anything else, which leaves the history indices alone. */
  datatype SystemEvent =
    | Press(request: Request, ev: H.Event)
    | Reading(ev: H.Event)
    | Other(e: Event)

  predicate NoHistory(ops: seq<Op>) {
    forall i :: 0 <= i < |ops| ==> !ops[i].SetHistory?
  }

  predicate LeavesHistory(e: Event) {
    match e
    case Output(op) => !op.SetHistory?
    case Key(before, _, after) => NoHistory(before) && NoHistory(after)
    case _ => true
  }

  predicate ValidSystemEvent(e: SystemEvent) {
    match e
    case Press(request, ev) => (request.Show? ==> IsTerminal(request.target)) && H.IsEvent(ev)
    case Reading(ev) => H.IsEvent(ev)
    case Other(e) => ValidEvent(e) && LeavesHistory(e)
  }

  function Puts(text: seq<byte>): (ops: seq<Op>)
    ensures |ops| == |text| && NoHistory(ops)
  {
    seq(|text|, i requires 0 <= i < |text| => Put(text[i]))
  }

  /** What an editor's step does to the terminal it is on: it prints the echo and leaves the indices. */
  function OpsOf(e: H.Editor): seq<Op> {
    Puts(e.echo) + [SetHistory(e.curr, e.top)]
  }

  function Target(s: System, request: Request): int
    requires SizedSystem(s)
  {
    if request.Show? then request.target else s.machine.shown
  }

  function StepSystem(s: System, e: SystemEvent): (r: System)
    requires SizedSystem(s) && ValidSystemEvent(e)
    requires forall t :: 0 <= t < TERMINALS ==> H.Good(EditorAt(s, t))
    ensures SizedSystem(r)
  {
    match e
    case Press(request, ev) =>
      var t := Target(s, request);
      var after := H.Step(EditorAt(s, t), ev);
      System(Execute(s.machine, Key([], request, OpsOf(after))), s.desks[t := DeskOf(after)])
    case Reading(ev) =>
      var t := s.machine.active;
      var after := H.Step(EditorAt(s, t), ev);
      System(ApplyAll(s.machine, OpsOf(after)), s.desks[t := DeskOf(after)])
    case Other(e) => s.(machine := Execute(s.machine, e))
  }

  // ---------------------------------------------------------------------------------------------
  // Three editors
  // ---------------------------------------------------------------------------------------------

  /** The history indices of every terminal, with terminal `loaded` in the registers. */
  ghost predicate SameIndices(m: Machine, loaded: int, m': Machine, loaded': int)
    requires Sized(m) && Sized(m')
  {
    forall t :: IsTerminal(t) ==> SameIndicesAt(m, loaded, m', loaded', t)
  }

  predicate SameIndicesAt(m: Machine, loaded: int, m': Machine, loaded': int, t: int)
    requires Sized(m) && Sized(m') && IsTerminal(t)
  {
    var regs, regs' := RegsOf(m, loaded, t), RegsOf(m', loaded', t);
    regs'.curr == regs.curr && regs'.top == regs.top
  }

  lemma ApplyKeeps(m: Machine, loaded: int, op: Op)
    requires Ready(m, loaded)
    ensures var m' := Apply(m, op);
      && Ready(m', loaded) && m'.active == m.active && m'.shown == m.shown && m'.ctx == m.ctx
      && (!op.SetHistory? ==> m'.live.curr == m.live.curr && m'.live.top == m.live.top)
      && (op.SetHistory? ==> m'.live.curr == op.curr && m'.live.top == op.top)
  {
    ApplyRefines(m, loaded, op);
  }

  lemma {:induction false} ApplyAllKeeps(m: Machine, loaded: int, ops: seq<Op>)
    requires Ready(m, loaded) && NoHistory(ops)
    ensures var m' := ApplyAll(m, ops);
      && Ready(m', loaded) && m'.active == m.active && m'.shown == m.shown && m'.ctx == m.ctx
      && m'.live.curr == m.live.curr && m'.live.top == m.live.top
    decreases |ops|
  {
    if ops != [] {
      ApplyKeeps(m, loaded, ops[0]);
      ApplyAllKeeps(Apply(m, ops[0]), loaded, ops[1..]);
    }
  }

  lemma {:induction false} ApplyAllAppends(m: Machine, ops: seq<Op>, op: Op)
    requires Sized(m)
    ensures ApplyAll(m, ops + [op]) == Apply(ApplyAll(m, ops), op)
    decreases |ops|
  {
    if ops == [] {
      assert ([] + [op])[1..] == [] && ApplyAll(Apply(m, op), []) == Apply(m, op);
    } else {
      assert (ops + [op])[1..] == ops[1..] + [op];
      ApplyAllAppends(Apply(m, ops[0]), ops[1..], op);
    }
  }

  /** After an editor's step its indices are those of the terminal in the registers, and no other terminal's move. */
  lemma OpsKeep(m: Machine, loaded: int, e: H.Editor)
    requires Ready(m, loaded)
    ensures var m' := ApplyAll(m, OpsOf(e));
      && Ready(m', loaded) && m'.active == m.active && m'.shown == m.shown && m'.ctx == m.ctx
      && m'.live.curr == e.curr && m'.live.top == e.top
  {
    ApplyAllKeeps(m, loaded, Puts(e.echo));
    ApplyAllAppends(m, Puts(e.echo), SetHistory(e.curr, e.top));
    ApplyKeeps(ApplyAll(m, Puts(e.echo)), loaded, SetHistory(e.curr, e.top));
  }

  /** A key interrupt around operations on the terminal that is shown in the end. */
  lemma KeyKeeps(m: Machine, request: Request)
    requires Ready(m, m.active) && (request.Show? ==> IsTerminal(request.target))
    ensures var t, m2 := if request.Show? then request.target else m.shown, KeySwitched(m, [], request);
      && Ready(m2, t) && m2.shown == t && m2.active == m.active && SameIndices(m, m.active, m2, t)
  {
    SwitchRefines(m, m.active, m.shown);
    var m1 := KeyLoaded(m);
    assert ApplyAll(m1, []) == m1;
    assert forall t :: IsTerminal(t) ==> Logical(m1, m.shown, t) == Logical(m, m.active, t);
    if request.Show? {
      ShowRefines(m1, request.target);
      assert forall t :: IsTerminal(t) ==>
        Logical(TerminalSwitch(m1, request.target), request.target, t) == Logical(m1, m.shown, t);
    }
  }

  lemma SwitchKeeps(m: Machine, loaded: int, curr: int)
    requires Ready(m, loaded) && IsTerminal(curr)
    ensures var m' := SwitchScreen(m, loaded, curr, false);
      && Ready(m', curr) && m'.active == m.active && m'.shown == m.shown && SameIndices(m, loaded, m', curr)
  {
    SwitchRefines(m, loaded, curr);
    assert forall t :: IsTerminal(t) ==>
      Logical(SwitchScreen(m, loaded, curr, false), curr, t) == Logical(m, loaded, t);
  }

  /** A key leaves the pressed terminal the indices of its editor, and every other terminal its own. */
  lemma PressKeeps(m: Machine, request: Request, e: H.Editor)
    requires Ready(m, m.active) && (request.Show? ==> IsTerminal(request.target))
    ensures var m', t := KeyInterrupt(m, [], request, OpsOf(e)), if request.Show? then request.target else m.shown;
      && Ready(m', m'.active) && m'.active == m.active && m'.shown == t
      && RegsOf(m', m'.active, t).curr == e.curr && RegsOf(m', m'.active, t).top == e.top
      && forall u :: IsTerminal(u) && u != t ==> SameIndicesAt(m, m.active, m', m'.active, u)
  {
    var t := if request.Show? then request.target else m.shown;
    var m2 := KeySwitched(m, [], request);
    KeyKeeps(m, request);
    OpsKeep(m2, t, e);
    var m3 := ApplyAll(m2, OpsOf(e));
    SwitchKeeps(m3, t, m.active);
    var m' := SwitchScreen(m3, t, m.active, false);
    assert m' == KeyInterrupt(m, [], request, OpsOf(e));
    assert SameIndicesAt(m3, t, m', m.active, t);
    forall u | IsTerminal(u) && u != t
      ensures SameIndicesAt(m, m.active, m', m'.active, u)
    {
      assert SameIndicesAt(m, m.active, m2, t, u) && SameIndicesAt(m3, t, m', m.active, u);
    }
  }

  lemma KeyLeaves(m: Machine, before: seq<Op>, request: Request, after: seq<Op>)
    requires Ready(m, m.active) && (request.Show? ==> IsTerminal(request.target))
    requires NoHistory(before) && NoHistory(after)
    ensures var m' := KeyInterrupt(m, before, request, after);
      Ready(m', m'.active) && SameIndices(m, m.active, m', m'.active)
  {
    var m0 := KeyLoaded(m);
    SwitchKeeps(m, m.active, m.shown);
    var m1 := ApplyAll(m0, before);
    ApplyAllKeeps(m0, m.shown, before);
    var m2 := KeySwitched(m, before, request);
    if request.Show? {
      ShowRefines(m1, request.target);
      assert forall t :: IsTerminal(t) ==> Logical(m2, request.target, t) == Logical(m1, m.shown, t);
    }
    var m3 := ApplyAll(m2, after);
    ApplyAllKeeps(m2, m2.shown, after);
    SwitchKeeps(m3, m3.shown, m3.active);
    var m' := KeyInterrupt(m, before, request, after);
    forall t | IsTerminal(t)
      ensures SameIndicesAt(m, m.active, m', m'.active, t)
    {
      assert SameIndicesAt(m, m.active, m0, m.shown, t) && SameIndicesAt(m0, m.shown, m1, m.shown, t);
      assert SameIndicesAt(m1, m.shown, m2, m2.shown, t) && SameIndicesAt(m2, m2.shown, m3, m2.shown, t);
      assert SameIndicesAt(m3, m3.shown, m', m'.active, t);
    }
  }

  lemma OtherKeeps(m: Machine, e: Event)
    requires Ready(m, m.active) && ValidEvent(e) && LeavesHistory(e)
    ensures var m' := Execute(m, e); Ready(m', m'.active) && SameIndices(m, m.active, m', m'.active)
  {
    match e {
      case TimerTick =>
        TickRefines(m);
        assert forall t :: IsTerminal(t) ==> Logical(Tick(m), Tick(m).active, t) == Logical(m, m.active, t);
      case Output(op) => ApplyKeeps(m, m.active, op);
      case UserStore(offset, v) => UserStoreRefines(m, offset, v);
      case Key(before, request, after) => KeyLeaves(m, before, request, after);
    }
  }

  // ---------------------------------------------------------------------------------------------
  // What a step draws
  // ---------------------------------------------------------------------------------------------

  lemma {:induction false} ActAllAppends(t: Terminal, ops: seq<Op>, op: Op)
    requires |t.page| == PAGE_BYTES
    ensures ActAll(t, ops + [op]) == Act(ActAll(t, ops), op)
    decreases |ops|
  {
    if ops == [] {
      assert ActAll(Act(t, op), []) == Act(t, op);
      assert ([] + [op])[1..] == [];
    } else {
      assert (ops + [op])[1..] == ops[1..] + [op];
      ActAllAppends(Act(t, ops[0]), ops[1..], op);
    }
  }

  /** The terminal after the text has been printed on it. */
  function Printed(t: Terminal, text: seq<byte>): (r: Terminal)
    requires |t.page| == PAGE_BYTES
    ensures |r.page| == PAGE_BYTES
  {
    Terminal(t.regs.(cursor := MoveAll(t.regs.cursor, text)), DrawAll(t.page, t.regs.cursor, text))
  }

  lemma {:induction false} PutsPrint(t: Terminal, text: seq<byte>)
    requires |t.page| == PAGE_BYTES
    ensures ActAll(t, Puts(text)) == Printed(t, text)
    decreases |text|
  {
    if text != [] {
      var init, c := text[..|text| - 1], text[|text| - 1];
      PutsPrint(t, init);
      assert Puts(text) == Puts(init) + [Put(c)];
      ActAllAppends(t, Puts(init), Put(c));
    }
  }

  /** The terminal after a step of its editor: the echo drawn on its screen, the history indices in its registers. */
  function Drawn(t: Terminal, e: H.Editor): (r: Terminal)
    requires |t.page| == PAGE_BYTES
    ensures |r.page| == PAGE_BYTES
  {
    Terminal(Regs(MoveAll(t.regs.cursor, e.echo), e.curr, e.top), DrawAll(t.page, t.regs.cursor, e.echo))
  }

  lemma OpsDraw(t: Terminal, e: H.Editor)
    requires |t.page| == PAGE_BYTES
    ensures ActAll(t, OpsOf(e)) == Drawn(t, e)
  {
    PutsPrint(t, e.echo);
    ActAllAppends(t, Puts(e.echo), SetHistory(e.curr, e.top));
  }

  lemma KeyDrawn(m: Machine, request: Request, e: H.Editor)
    requires Ready(m, m.active) && (request.Show? ==> IsTerminal(request.target))
    requires CleanEvent(m, Key([], request, OpsOf(e)))
    ensures var t, terms := if request.Show? then request.target else m.shown, Abstract(m, m.active).terms;
      var m' := Execute(m, Key([], request, OpsOf(e)));
      Abstract(m', m'.active).terms == terms[t := Drawn(terms[t], e)]
  {
    var spec := Abstract(m, m.active);
    EventRefines(m, Key([], request, OpsOf(e)));
    assert ActAll(spec.terms[spec.shown], []) == spec.terms[spec.shown];
    assert spec.terms[spec.shown := spec.terms[spec.shown]] == spec.terms;
    OpsDraw(spec.terms[if request.Show? then request.target else m.shown], e);
  }

  /** A key draws what its editor echoes on the screen of the terminal it is for, and changes no other terminal. */
  lemma PressDraws(s: System, request: Request, ev: H.Event)
    requires Sound(s) && ValidSystemEvent(Press(request, ev))
    requires CleanEvent(s.machine, Key([], request, OpsOf(H.Step(EditorAt(s, Target(s, request)), ev))))
    ensures var t, terms := Target(s, request), Abstract(s.machine, s.machine.active).terms;
      var m' := StepSystem(s, Press(request, ev)).machine;
      Abstract(m', m'.active).terms == terms[t := Drawn(terms[t], H.Step(EditorAt(s, t), ev))]
  {
    KeyDrawn(s.machine, request, H.Step(EditorAt(s, Target(s, request)), ev));
  }

  lemma OneChanges(m: Machine, m': Machine, t: int, term: Terminal)
    requires Sized(m) && Sized(m') && IsTerminal(t) && |term.page| == PAGE_BYTES && OnlyTerminal(m, m', t, term)
    ensures Abstract(m', t).terms == Abstract(m, t).terms[t := term]
  {
    assert Logical(m', t, 0) == if t == 0 then term else Logical(m, t, 0);
    assert Logical(m', t, 1) == if t == 1 then term else Logical(m, t, 1);
    assert Logical(m', t, 2) == if t == 2 then term else Logical(m, t, 2);
  }

  lemma OpsDrawn(m: Machine, e: H.Editor)
    requires Ready(m, m.active) && AllClean(m, m.active, OpsOf(e))
    ensures var m', terms := ApplyAll(m, OpsOf(e)), Abstract(m, m.active).terms;
      && m'.active == m.active
      && Abstract(m', m.active).terms == terms[m.active := Drawn(terms[m.active], e)]
  {
    var t := m.active;
    ApplyAllRefines(m, t, OpsOf(e));
    OpsDraw(Logical(m, t, t), e);
    OneChanges(m, ApplyAll(m, OpsOf(e)), t, Drawn(Logical(m, t, t), e));
  }

  /** So does the clearing where a read of the active terminal starts or ends. */
  lemma ReadingDraws(s: System, ev: H.Event)
    requires Sound(s) && ValidSystemEvent(Reading(ev))
    requires AllClean(s.machine, s.machine.active, OpsOf(H.Step(EditorAt(s, s.machine.active), ev)))
    ensures var t, terms := s.machine.active, Abstract(s.machine, s.machine.active).terms;
      var m' := StepSystem(s, Reading(ev)).machine;
      Abstract(m', m'.active).terms == terms[t := Drawn(terms[t], H.Step(EditorAt(s, t), ev))]
  {
    OpsDrawn(s.machine, H.Step(EditorAt(s, s.machine.active), ev));
  }

  // ---------------------------------------------------------------------------------------------
  // Runs
  // ---------------------------------------------------------------------------------------------

  /** An editor's step, its echo gone to the screen. */
  function QuietStep(e: H.Editor, ev: H.Event): H.Editor
    requires H.Good(e) && H.IsEvent(ev)
  {
    H.Step(e, ev).(echo := [])
  }

  /** The event that reaches terminal t's editor, if one does. */
  function Heard(s: System, e: SystemEvent, t: int): (r: seq<H.Event>)
    requires SizedSystem(s) && ValidSystemEvent(e)
    ensures |r| <= 1 && forall i :: 0 <= i < |r| ==> H.IsEvent(r[i])
  {
    match e
    case Press(request, ev) => if t == Target(s, request) then [ev] else []
    case Reading(ev) => if t == s.machine.active then [ev] else []
    case Other(_) => []
  }

  /** Terminal t's editor after a step: as it was, or one step on. */
  predicate EditorAfter(s: System, s': System, t: int, heard: seq<H.Event>)
    requires SizedSystem(s) && SizedSystem(s') && IsTerminal(t)
    requires H.Good(EditorAt(s, t)) && forall i :: 0 <= i < |heard| ==> H.IsEvent(heard[i])
  {
    EditorAt(s', t) == if heard == [] then EditorAt(s, t) else QuietStep(EditorAt(s, t), heard[0])
  }

  /** The editors after a key of the shown terminal has left editor e on it. */
  lemma PressedAt(s: System, request: Request, e: H.Editor, u: int)
    requires Sound(s) && (request.Show? ==> IsTerminal(request.target)) && IsTerminal(u)
    ensures var t := Target(s, request);
      var s' := System(KeyInterrupt(s.machine, [], request, OpsOf(e)), s.desks[t := DeskOf(e)]);
      && SizedSystem(s')
      && EditorAt(s', u) == if u == t then e.(echo := []) else EditorAt(s, u)
  {
    var m, t := s.machine, Target(s, request);
    PressKeeps(m, request, e);
    var m' := KeyInterrupt(m, [], request, OpsOf(e));
    if u != t {
      assert SameIndicesAt(m, m.active, m', m'.active, u);
    }
  }

  lemma HeardOrNot(s: System, s': System, u: int, ev: H.Event, hears: bool, e: H.Editor)
    requires SizedSystem(s) && SizedSystem(s') && IsTerminal(u) && H.Good(EditorAt(s, u)) && H.IsEvent(ev)
    requires hears ==> e == H.Step(EditorAt(s, u), ev)
    requires EditorAt(s', u) == if hears then e.(echo := []) else EditorAt(s, u)
    ensures EditorAfter(s, s', u, if hears then [ev] else [])
  {
  }

  lemma PressIsReady(s: System, request: Request, ev: H.Event)
    requires Sound(s) && ValidSystemEvent(Press(request, ev))
    ensures var s' := StepSystem(s, Press(request, ev)); Ready(s'.machine, s'.machine.active)
  {
    PressKeeps(s.machine, request, H.Step(EditorAt(s, Target(s, request)), ev));
  }

  lemma PressIsHeard(s: System, request: Request, ev: H.Event, u: int)
    requires Sound(s) && ValidSystemEvent(Press(request, ev)) && IsTerminal(u)
    ensures EditorAfter(s, StepSystem(s, Press(request, ev)), u, Heard(s, Press(request, ev), u))
  {
    var e := H.Step(EditorAt(s, Target(s, request)), ev);
    PressedAt(s, request, e, u);
    HeardOrNot(s, StepSystem(s, Press(request, ev)), u, ev, u == Target(s, request), e);
  }

  lemma ReadingIsLocal(s: System, ev: H.Event, u: int)
    requires Sound(s) && ValidSystemEvent(Reading(ev)) && IsTerminal(u)
    ensures var s' := StepSystem(s, Reading(ev));
      Ready(s'.machine, s'.machine.active) && EditorAfter(s, s', u, Heard(s, Reading(ev), u))
  {
    var m := s.machine;
    var e := H.Step(EditorAt(s, m.active), ev);
    OpsKeep(m, m.active, e);
    assert StepSystem(s, Reading(ev)) == System(ApplyAll(m, OpsOf(e)), s.desks[m.active := DeskOf(e)]);
  }

  lemma OtherIsLocal(s: System, e: Event, u: int)
    requires Sound(s) && ValidSystemEvent(Other(e)) && IsTerminal(u)
    ensures var s' := StepSystem(s, Other(e));
      Ready(s'.machine, s'.machine.active) && EditorAfter(s, s', u, Heard(s, Other(e), u))
  {
    var m := s.machine;
    OtherKeeps(m, e);
    assert SameIndicesAt(m, m.active, Execute(m, e), Execute(m, e).active, u);
  }

  /** One step of the machine is that step of the editor it is for, and no other editor's. */
  lemma StepIsLocal(s: System, e: SystemEvent, t: int)
    requires Sound(s) && ValidSystemEvent(e) && IsTerminal(t)
    ensures var s' := StepSystem(s, e);
      Ready(s'.machine, s'.machine.active) && EditorAfter(s, s', t, Heard(s, e, t))
  {
    match e {
      case Press(request, ev) =>
        PressIsReady(s, request, ev);
        PressIsHeard(s, request, ev, t);
      case Reading(ev) => ReadingIsLocal(s, ev, t);
      case Other(e) => OtherIsLocal(s, e, t);
    }
  }

  lemma QuietGood(e: H.Editor, ev: H.Event)
    requires H.Good(e) && H.IsEvent(ev)
    ensures H.Good(QuietStep(e, ev))
  {
    H.StepKeepsGood(e, ev);
  }

  lemma StepKeepsSound(s: System, e: SystemEvent)
    requires Sound(s) && ValidSystemEvent(e)
    ensures Sound(StepSystem(s, e))
  {
    StepIsLocal(s, e, 0);
    forall t | IsTerminal(t)
      ensures H.Good(EditorAt(StepSystem(s, e), t))
    {
      StepIsLocal(s, e, t);
      if Heard(s, e, t) != [] {
        QuietGood(EditorAt(s, t), Heard(s, e, t)[0]);
      }
    }
  }

  /** Boot: empty desks, and zeroed indices in the registers. */
  predicate Blank(m: Machine) {
    && Sized(m) && m.live.curr == 0 && m.live.top == 0
    && forall t :: 0 <= t < TERMINALS ==> m.ctx[t].curr == 0 && m.ctx[t].top == 0
  }

  function BlankDesks(): (desks: seq<Desk>)
    ensures |desks| == TERMINALS && forall t :: 0 <= t < TERMINALS ==> desks[t] == DeskOf(H.Boot())
  {
    [DeskOf(H.Boot()), DeskOf(H.Boot()), DeskOf(H.Boot())]
  }

  /** From the first shell on the machine is sound, with three new editors. */
  lemma BootIsSound(m: Machine)
    requires Blank(m) && m.active == TERMINALS - 1 && (m.shown == 0 || CursorFollows(m, m.active))
    ensures var s := System(Apply(Tick(m), Clear), BlankDesks());
      Sound(s) && forall t :: IsTerminal(t) ==> EditorAt(s, t) == H.Boot()
  {
    FirstTick(m);
    var s := System(Apply(Tick(m), Clear), BlankDesks());
    forall t | IsTerminal(t)
      ensures EditorAt(s, t) == H.Boot()
    {
    }
  }

  predicate ValidSystemEvents(events: seq<SystemEvent>) {
    forall i :: 0 <= i < |events| ==> ValidSystemEvent(events[i])
  }

  ghost function RunSystem(s: System, events: seq<SystemEvent>): (r: System)
    requires Sound(s) && ValidSystemEvents(events)
    ensures Sound(r)
    decreases |events|
  {
    if events == [] then s
    else
      StepKeepsSound(s, events[0]);
      RunSystem(StepSystem(s, events[0]), events[1..])
  }

  /** Everything that reaches terminal t's editor over a run. */
  ghost function HeardAll(s: System, events: seq<SystemEvent>, t: int): (r: seq<H.Event>)
    requires Sound(s) && ValidSystemEvents(events)
    ensures forall i :: 0 <= i < |r| ==> H.IsEvent(r[i])
    decreases |events|
  {
    if events == [] then []
    else
      StepKeepsSound(s, events[0]);
      Heard(s, events[0], t) + HeardAll(StepSystem(s, events[0]), events[1..], t)
  }

  /** They differ in the echo alone. */
  predicate SameButEcho(a: H.Editor, b: H.Editor) {
    a.(echo := []) == b.(echo := [])
  }

  lemma RecalledQuiet(a: H.Editor, b: H.Editor, slot: int)
    requires H.Sized(a) && H.Sized(b) && SameButEcho(a, b) && H.IsSlot(a.curr) && -1 <= slot < H.SAVED_COMMANDS_SIZE
    ensures SameButEcho(H.Recalled(H.Saved(a), slot), H.Recalled(H.Saved(b), slot))
  {
  }

  lemma AddedQuiet(a: H.Editor, b: H.Editor, ev: H.Event)
    requires H.Good(a) && H.Good(b) && SameButEcho(a, b)
    ensures SameButEcho(H.Added(a, ev), H.Added(b, ev))
  {
    if ev.KeyTab? && a.idx < H.BUF_SIZE - 1 {
      TabQuiet(a, b);
    }
  }

  lemma TabQuiet(a: H.Editor, b: H.Editor)
    requires H.Good(a) && H.Good(b) && SameButEcho(a, b) && a.idx < H.BUF_SIZE - 1
    ensures SameButEcho(H.PutTab(a), H.PutTab(b))
  {
  }

  lemma EraseQuiet(a: H.Editor, b: H.Editor)
    requires H.Good(a) && H.Good(b) && SameButEcho(a, b)
    ensures SameButEcho(H.Step(a, H.KeyBackspace), H.Step(b, H.KeyBackspace))
  {
    H.EraseKeepsGood(a);
    H.EraseKeepsGood(b);
    AddedQuiet(H.Erase(a), H.Erase(b), H.KeyBackspace);
  }

  /** The echo is only ever added to, and nothing depends on it. */
  lemma EchoDoesNotMatter(a: H.Editor, b: H.Editor, ev: H.Event)
    requires H.Good(a) && H.Good(b) && SameButEcho(a, b) && H.IsEvent(ev)
    ensures SameButEcho(H.Step(a, ev), H.Step(b, ev))
  {
    match ev {
      case KeyUp => RecalledQuiet(a, b, H.UpSlot(a));
      case KeyDown => RecalledQuiet(a, b, H.DownSlot(a));
      case KeyBackspace => EraseQuiet(a, b);
      case ReadStarts =>
      case ReadEnds =>
      case _ => AddedQuiet(a, b, ev);
    }
  }

  lemma {:induction false} QuietRun(a: H.Editor, b: H.Editor, events: seq<H.Event>)
    requires H.Good(a) && H.Good(b) && SameButEcho(a, b) && forall i :: 0 <= i < |events| ==> H.IsEvent(events[i])
    ensures SameButEcho(H.Run(a, events), H.Run(b, events))
    decreases |events|
  {
    if events != [] {
      EchoDoesNotMatter(a, b, events[0]);
      H.StepKeepsGood(a, events[0]);
      H.StepKeepsGood(b, events[0]);
      QuietRun(H.Step(a, events[0]), H.Step(b, events[0]), events[1..]);
    }
  }

  /** Composition: over any interleaving of keys, reads, switches, ticks and output, whatever it prints, each terminal's
      editor is the editor that gets its own keys and reads alone. */
  lemma {:induction false} ThreeEditors(s: System, events: seq<SystemEvent>, t: int)
    requires Sound(s) && ValidSystemEvents(events) && IsTerminal(t)
    ensures SameButEcho(EditorAt(RunSystem(s, events), t), H.Run(EditorAt(s, t), HeardAll(s, events, t)))
    decreases |events|
  {
    if events != [] {
      var s', heard := StepSystem(s, events[0]), Heard(s, events[0], t);
      StepIsLocal(s, events[0], t);
      StepKeepsSound(s, events[0]);
      ThreeEditors(s', events[1..], t);
      HeardThenRest(EditorAt(s, t), EditorAt(s', t), heard, HeardAll(s', events[1..], t));
    }
  }

  lemma HeardThenRest(e: H.Editor, e1: H.Editor, heard: seq<H.Event>, rest: seq<H.Event>)
    requires H.Good(e) && H.Good(e1) && |heard| <= 1
    requires forall i :: 0 <= i < |heard| ==> H.IsEvent(heard[i])
    requires forall i :: 0 <= i < |rest| ==> H.IsEvent(rest[i])
    requires e1 == if heard == [] then e else QuietStep(e, heard[0])
    ensures SameButEcho(H.Run(e1, rest), H.Run(e, heard + rest))
  {
    if heard == [] {
      assert heard + rest == rest;
    } else {
      assert (heard + rest)[0] == heard[0] && (heard + rest)[1..] == rest;
      H.StepKeepsGood(e, heard[0]);
      QuietRun(e1, H.Step(e, heard[0]), rest);
    }
  }
}
