/** Three terminals multiplexed onto one register set and one screen page, as a value, and the proof
    that they behave as three independent terminals. */
module Terminals {
  import opened Screen

  const TERMINALS := 3
  const VIDEO := 0xB8000
  const TERM_VMEM_PT := 186

  /** Everything a terminal has in the shared registers: the cursor and the two history indices. */
  datatype Regs = Regs(cursor: Cursor, curr: int, top: int)

  /** The multiplexed machine. mem is low memory, with the screen page and the three backing pages in it;
      hwCursor is the position last sent to the display. */
  datatype Machine = Machine(
    live: Regs,
    videoMem: int,
    cursorChange: bool,
    ctx: seq<Regs>,
    mem: seq<byte>,
    active: int,
    shown: int,
    vidmapBase: int,
    hwCursor: int)

  predicate IsTerminal(t: int) {
    0 <= t < TERMINALS
  }

  predicate Sized(m: Machine) {
    && |m.ctx| == TERMINALS && |m.mem| >= (TERM_VMEM_PT + TERMINALS) * PAGE_BYTES && Fits(m.mem, m.videoMem)
    && IsTerminal(m.active) && IsTerminal(m.shown)
  }

  /** get_term_vmem */
  function BackingPage(t: int): int {
    (TERM_VMEM_PT + t) * PAGE_BYTES
  }

  // ---------------------------------------------------------------------------------------------
  // The kernel's steps
  // ---------------------------------------------------------------------------------------------

  function UpdateCursor(m: Machine): Machine {
    if m.cursorChange then m.(hwCursor := Linear(m.live.cursor) % 0x1_0000) else m
  }

  function SwitchScreen(m: Machine, old_: int, curr: int, cursor: bool): (r: Machine)
    requires Sized(m) && IsTerminal(old_) && IsTerminal(curr)
    ensures Sized(r)
  {
    var saved := m.ctx[old_ := m.live];
    var m' := m.(ctx := saved, live := saved[curr], cursorChange := m.shown == curr,
                 videoMem := if m.shown == curr then VIDEO else BackingPage(curr));
    if cursor then UpdateCursor(m') else m'
  }

  function CopyPage(mem: seq<byte>, to: int, from: int): (r: seq<byte>)
    requires Fits(mem, to) && Fits(mem, from)
    ensures |r| == |mem|
  {
    mem[..to] + mem[from..from + PAGE_BYTES] + mem[to + PAGE_BYTES..]
  }

  function CopyTermVmem(m: Machine, t: int, toScreen: bool): (r: Machine)
    requires Sized(m) && IsTerminal(t)
    ensures Sized(r)
  {
    m.(mem := if toScreen then CopyPage(m.mem, VIDEO, BackingPage(t)) else CopyPage(m.mem, BackingPage(t), VIDEO))
  }

  function ChangeVidmap(m: Machine, t: int): (r: Machine)
    ensures Sized(m) ==> Sized(r)
  {
    m.(vidmapBase := (if m.active == m.shown then VIDEO else BackingPage(t)) / PAGE_BYTES)
  }

  function TerminalSwitch(m: Machine, curr: int): (r: Machine)
    requires Sized(m) && IsTerminal(curr)
    ensures Sized(r)
  {
    var old_ := m.shown;
    var m1 := m.(shown := curr);
    if old_ == curr then m1
    else
      var m2 := CopyTermVmem(CopyTermVmem(m1, old_, false), curr, true);
      ChangeVidmap(SwitchScreen(m2, old_, curr, true), m.active)
  }

  /** The screen part of schedule(). */
  function Tick(m: Machine): (r: Machine)
    requires Sized(m)
    ensures Sized(r)
  {
    var curr := (m.active + 1) % TERMINALS;
    SwitchScreen(ChangeVidmap(m.(active := curr), curr), m.active, curr, false)
  }

  /** What code running on a loaded terminal may do: print a character, clear the screen, reset terminal_x
      (the end of terminal_write), move the history indices. */
  datatype Op =
    | Put(c: byte)
    | Clear
    | ResetX
    | SetHistory(curr: int, top: int)

  function Apply(m: Machine, op: Op): (r: Machine)
    requires Sized(m)
    ensures Sized(r)
  {
    match op
    case Put(c) =>
      UpdateCursor(m.(mem := Draw(m.mem, m.videoMem, m.live.cursor, c),
                      live := m.live.(cursor := Move(m.live.cursor, c))))
    case Clear =>
      UpdateCursor(m.(mem := Cleared(m.mem, m.videoMem), live := m.live.(cursor := Cursor(0, 0, m.live.cursor.tx))))
    case ResetX => m.(live := m.live.(cursor := m.live.cursor.(tx := 0)))
    case SetHistory(curr, top) => m.(live := m.live.(curr := curr, top := top))
  }

  function ApplyAll(m: Machine, ops: seq<Op>): (r: Machine)
    requires Sized(m)
    ensures Sized(r)
    decreases |ops|
  {
    if ops == [] then m else ApplyAll(Apply(m, ops[0]), ops[1..])
  }

  /** An Alt+Fn key held during the interrupt asks for terminal target. */
  datatype Request = Stay | Show(target: int)

  /** One keyboard interrupt: load the shown terminal, act on it, perhaps show another and act on that, and
      load the active terminal again. */
  function KeyInterrupt(m: Machine, before: seq<Op>, request: Request, after: seq<Op>): (r: Machine)
    requires Sized(m) && (request.Show? ==> IsTerminal(request.target))
    ensures Sized(r)
  {
    var m1 := ApplyAll(SwitchScreen(m, m.active, m.shown, false), before);
    var m2 := if request.Show? then TerminalSwitch(m1, request.target) else m1;
    var m3 := ApplyAll(m2, after);
    SwitchScreen(m3, m3.shown, m3.active, false)
  }

  datatype Event =
    | TimerTick
    | Output(op: Op)
    | UserStore(offset: int, v: byte)      // through the vidmap page
    | Key(before: seq<Op>, request: Request, after: seq<Op>)

  predicate ValidEvent(e: Event) {
    match e
    case UserStore(offset, _) => 0 <= offset < PAGE_BYTES
    case Key(_, request, _) => request.Show? ==> IsTerminal(request.target)
    case _ => true
  }

  // ---------------------------------------------------------------------------------------------
  // The specification: three terminals, each with its own registers and page
  // ---------------------------------------------------------------------------------------------

  datatype Terminal = Terminal(regs: Regs, page: seq<byte>)

  datatype Spec = Spec(terms: seq<Terminal>, active: int, shown: int)

  ghost predicate ValidSpec(s: Spec) {
    && |s.terms| == TERMINALS && IsTerminal(s.active) && IsTerminal(s.shown)
    && forall t :: IsTerminal(t) ==> |s.terms[t].page| == PAGE_BYTES
  }

  predicate Permitted(t: Terminal, op: Op) {
    op.Put? ==> OnScreen(t.regs.cursor) && !FallsOff(t.regs.cursor, op.c)
  }

  function Act(t: Terminal, op: Op): (r: Terminal)
    requires |t.page| == PAGE_BYTES
    ensures |r.page| == PAGE_BYTES
  {
    match op
    case Put(c) => Terminal(t.regs.(cursor := Move(t.regs.cursor, c)), Draw(t.page, 0, t.regs.cursor, c))
    case Clear => Terminal(t.regs.(cursor := Cursor(0, 0, t.regs.cursor.tx)), Cleared(t.page, 0))
    case ResetX => t.(regs := t.regs.(cursor := t.regs.cursor.(tx := 0)))
    case SetHistory(curr, top) => t.(regs := t.regs.(curr := curr, top := top))
  }

  predicate AllPermitted(t: Terminal, ops: seq<Op>)
    requires |t.page| == PAGE_BYTES
    decreases |ops|
  {
    ops == [] || (Permitted(t, ops[0]) && AllPermitted(Act(t, ops[0]), ops[1..]))
  }

  function ActAll(t: Terminal, ops: seq<Op>): (r: Terminal)
    requires |t.page| == PAGE_BYTES
    ensures |r.page| == PAGE_BYTES
    decreases |ops|
  {
    if ops == [] then t else ActAll(Act(t, ops[0]), ops[1..])
  }

  function Shown(s: Spec, request: Request): int {
    if request.Show? then request.target else s.shown
  }

  /** Every character printed by the event stays on the screen of its terminal. */
  predicate Enabled(s: Spec, e: Event)
    requires ValidSpec(s) && ValidEvent(e)
  {
    match e
    case TimerTick => true
    case Output(op) => Permitted(s.terms[s.active], op)
    case UserStore(_, _) => true
    case Key(before, request, after) =>
      && AllPermitted(s.terms[s.shown], before)
      && var terms := s.terms[s.shown := ActAll(s.terms[s.shown], before)];
         AllPermitted(terms[Shown(s, request)], after)
  }

  /** Output changes the active terminal alone, keystrokes the shown one alone, ticks and switches none. */
  function SpecStep(s: Spec, e: Event): (r: Spec)
    requires ValidSpec(s) && ValidEvent(e)
    ensures ValidSpec(r)
  {
    match e
    case TimerTick => s.(active := (s.active + 1) % TERMINALS)
    case Output(op) => s.(terms := s.terms[s.active := Act(s.terms[s.active], op)])
    case UserStore(offset, v) =>
      var t := s.terms[s.active];
      s.(terms := s.terms[s.active := t.(page := t.page[offset := v])])
    case Key(before, request, after) =>
      var terms := s.terms[s.shown := ActAll(s.terms[s.shown], before)];
      var shown := Shown(s, request);
      s.(terms := terms[shown := ActAll(terms[shown], after)], shown := shown)
  }

  // ---------------------------------------------------------------------------------------------
  // The refinement
  // ---------------------------------------------------------------------------------------------

  /** The page that holds terminal t's screen. */
  function PageOf(m: Machine, t: int): int {
    if t == m.shown then VIDEO else BackingPage(t)
  }

  function RegsOf(m: Machine, loaded: int, t: int): Regs
    requires Sized(m) && IsTerminal(t)
  {
    if t == loaded then m.live else m.ctx[t]
  }

  function Slice(mem: seq<byte>, a: int): (page: seq<byte>)
    requires Fits(mem, a)
    ensures |page| == PAGE_BYTES
  {
    mem[a..a + PAGE_BYTES]
  }

  function Logical(m: Machine, loaded: int, t: int): (r: Terminal)
    requires Sized(m) && IsTerminal(t)
    ensures |r.page| == PAGE_BYTES
  {
    Terminal(RegsOf(m, loaded, t), Slice(m.mem, PageOf(m, t)))
  }

  function Abstract(m: Machine, loaded: int): (s: Spec)
    requires Sized(m)
    ensures ValidSpec(s)
  {
    Spec([Logical(m, loaded, 0), Logical(m, loaded, 1), Logical(m, loaded, 2)], m.active, m.shown)
  }

  lemma AbstractAt(m: Machine, loaded: int, t: int)
    requires Sized(m) && IsTerminal(t)
    ensures Abstract(m, loaded).terms[t] == Logical(m, loaded, t)
  {
  }

  /** With terminal `loaded` in the registers: output goes to its page, the display cursor follows the shown
      terminal, and user stores go to the active terminal's page. */
  predicate Coherent(m: Machine, loaded: int) {
    && Sized(m) && IsTerminal(loaded)
    && m.videoMem == PageOf(m, loaded)
    && (m.cursorChange <==> loaded == m.shown)
    && m.vidmapBase * PAGE_BYTES == PageOf(m, m.active)
  }

  predicate CursorFollows(m: Machine, loaded: int) {
    && Sized(m)
    && m.hwCursor == Linear(RegsOf(m, loaded, m.shown).cursor) % 0x1_0000
  }

  /** The machine is as it should be with this terminal loaded. */
  predicate Ready(m: Machine, loaded: int) {
    Coherent(m, loaded) && CursorFollows(m, loaded)
  }

  function Splice(mem: seq<byte>, a: int, page: seq<byte>): (r: seq<byte>)
    requires Fits(mem, a) && |page| == PAGE_BYTES
    ensures |r| == |mem|
  {
    mem[..a] + page + mem[a + PAGE_BYTES..]
  }

  lemma SpliceSlices(mem: seq<byte>, a: int, page: seq<byte>, at: int)
    requires Fits(mem, a) && Fits(mem, at) && |page| == PAGE_BYTES
    requires at == a || at + PAGE_BYTES <= a || a + PAGE_BYTES <= at
    ensures Slice(Splice(mem, a, page), at) == if at == a then page else Slice(mem, at)
  {
    var spliced := Splice(mem, a, page);
    forall i | 0 <= i < PAGE_BYTES
      ensures spliced[at + i] == if at == a then page[i] else mem[at + i]
    {
    }
    assert Slice(spliced, at) == if at == a then page else Slice(mem, at);
  }

  /** A change confined to the loaded terminal's registers and page is a change of that terminal alone. */
  lemma LoadedChange(m: Machine, loaded: int, term: Terminal)
    requires Coherent(m, loaded) && |term.page| == PAGE_BYTES
    ensures var m' := m.(mem := Splice(m.mem, m.videoMem, term.page), live := term.regs);
      && Coherent(m', loaded) && Ready(UpdateCursor(m'), loaded) == CursorFollows(UpdateCursor(m'), loaded)
      && forall t :: IsTerminal(t) ==> Logical(m', loaded, t) == if t == loaded then term else Logical(m, loaded, t)
  {
    forall t | IsTerminal(t)
      ensures Slice(Splice(m.mem, m.videoMem, term.page), PageOf(m, t))
           == if t == loaded then term.page else Slice(m.mem, PageOf(m, t))
    {
      SpliceSlices(m.mem, m.videoMem, term.page, PageOf(m, t));
    }
  }

  /** With terminal t loaded or not, the machine with only terminal `loaded` replaced by term. */
  ghost predicate OnlyTerminal(m: Machine, m': Machine, loaded: int, term: Terminal)
    requires Sized(m) && Sized(m')
  {
    && m'.active == m.active && m'.shown == m.shown
    && forall t :: IsTerminal(t) ==> Logical(m', loaded, t) == if t == loaded then term else Logical(m, loaded, t)
  }

  function Replaced(m: Machine, term: Terminal): Machine
    requires Fits(m.mem, m.videoMem) && |term.page| == PAGE_BYTES
  {
    m.(mem := Splice(m.mem, m.videoMem, term.page), live := term.regs)
  }

  lemma ReplacedReady(m: Machine, loaded: int, term: Terminal)
    requires Ready(m, loaded) && |term.page| == PAGE_BYTES
    ensures Ready(UpdateCursor(Replaced(m, term)), loaded)
    ensures OnlyTerminal(m, UpdateCursor(Replaced(m, term)), loaded, term)
    ensures Linear(term.regs.cursor) == Linear(m.live.cursor) ==> Ready(Replaced(m, term), loaded)
    ensures OnlyTerminal(m, Replaced(m, term), loaded, term)
  {
    LoadedChange(m, loaded, term);
  }

  // ---------------------------------------------------------------------------------------------
  // One operation, wherever its stores go
  // ---------------------------------------------------------------------------------------------

  /** A store of v at address a changes terminal t's screen page. */
  predicate Hits(m: Machine, t: int, a: int, v: byte)
    requires Sized(m) && IsTerminal(t)
  {
    InPage(PageOf(m, t), a) && m.mem[a] != v
  }

  /** A putc changes terminal t's screen page, which is not its own. */
  predicate SpillsOnto(m: Machine, t: int, c: byte)
    requires Sized(m) && IsTerminal(t)
  {
    var k := m.live.cursor;
    || (StoresChar(k, c) && Hits(m, t, CharAddress(m.videoMem, k, c), CharValue(c)))
    || (!Breaks(c) && Hits(m, t, AttributeAddress(m.videoMem, k, c), ATTRIB))
  }

  predicate Spills(m: Machine, loaded: int, op: Op)
    requires Sized(m)
  {
    op.Put? && exists t :: 0 <= t < TERMINALS && t != loaded && SpillsOnto(m, t, op.c)
  }

  /** The kernel maps the screen page and the backing pages, and no page next to them. */
  predicate Mapped(a: int) {
    VIDEO <= a < VIDEO + PAGE_BYTES || BackingPage(0) <= a < BackingPage(TERMINALS)
  }

  /** A putc stores where no page is present. */
  predicate Faults(m: Machine, op: Op) {
    var k := m.live.cursor;
    op.Put? && !Breaks(op.c) &&
      ((StoresChar(k, op.c) && !Mapped(CharAddress(m.videoMem, k, op.c)))
       || !Mapped(AttributeAddress(m.videoMem, k, op.c)))
  }

  predicate Clean(m: Machine, loaded: int, op: Op)
    requires Sized(m)
  {
    !Faults(m, op) && !Spills(m, loaded, op)
  }

  predicate InPage(at: int, a: int) {
    at <= a < at + PAGE_BYTES
  }

  /** Two stores leave a page as it was exactly when neither puts something new into it. */
  lemma TwoStores(mem: seq<byte>, mem': seq<byte>, at: int, s1: bool, a1: int, v1: byte, s2: bool, a2: int, v2: byte)
    requires Fits(mem, at) && |mem'| == |mem| && (s1 && s2 ==> a1 != a2)
    requires forall a :: InPage(at, a) ==>
      mem'[a] == if s2 && a == a2 then v2 else if s1 && a == a1 then v1 else mem[a]
    ensures Slice(mem', at) == Slice(mem, at) <==>
      !(s1 && InPage(at, a1) && mem[a1] != v1) && !(s2 && InPage(at, a2) && mem[a2] != v2)
  {
    var page, page' := Slice(mem, at), Slice(mem', at);
    if s1 && InPage(at, a1) {
      assert page'[a1 - at] == v1 && page[a1 - at] == mem[a1];
    }
    if s2 && InPage(at, a2) {
      assert page'[a2 - at] == v2 && page[a2 - at] == mem[a2];
    }
    forall i | 0 <= i < PAGE_BYTES
      ensures page'[i] == if s2 && at + i == a2 then v2 else if s1 && at + i == a1 then v1 else page[i]
    {
      assert InPage(at, at + i);
    }
  }

  lemma PutElsewhere(m: Machine, loaded: int, c: byte, t: int)
    requires Coherent(m, loaded) && IsTerminal(t) && t != loaded
    ensures Slice(Draw(m.mem, m.videoMem, m.live.cursor, c), PageOf(m, t)) == Slice(m.mem, PageOf(m, t))
      <==> !SpillsOnto(m, t, c)
  {
    var k, at := m.live.cursor, PageOf(m, t);
    var drawn := Draw(m.mem, m.videoMem, k, c);
    forall a | InPage(at, a)
      ensures drawn[a] == if !Breaks(c) && a == AttributeAddress(m.videoMem, k, c) then ATTRIB
                          else if StoresChar(k, c) && a == CharAddress(m.videoMem, k, c) then CharValue(c)
                          else m.mem[a]
    {
      DrawElsewhere(m.mem, m.videoMem, k, c, a);
    }
    TwoStores(m.mem, drawn, at, StoresChar(k, c), CharAddress(m.videoMem, k, c), CharValue(c),
              !Breaks(c), AttributeAddress(m.videoMem, k, c), ATTRIB);
  }

  lemma LoadedIs(m: Machine, loaded: int, page: seq<byte>)
    requires Sized(m) && IsTerminal(loaded) && Slice(m.mem, PageOf(m, loaded)) == page
    ensures Logical(m, loaded, loaded) == Terminal(m.live, page)
  {
  }

  lemma PutOwn(m: Machine, loaded: int, c: byte)
    requires Ready(m, loaded)
    ensures Logical(Apply(m, Put(c)), loaded, loaded) == Act(Logical(m, loaded, loaded), Put(c))
  {
    var page := Slice(m.mem, m.videoMem);
    LoadedIs(m, loaded, page);
    PutPage(m, loaded, c);
    DrawSlice(m.mem, m.videoMem, m.live.cursor, c);
    LoadedIs(Apply(m, Put(c)), loaded, Draw(page, 0, m.live.cursor, c));
  }

  lemma PutPage(m: Machine, loaded: int, c: byte)
    requires Ready(m, loaded)
    ensures var m', k := Apply(m, Put(c)), m.live.cursor;
      && Sized(m') && PageOf(m', loaded) == m.videoMem && m'.live == m.live.(cursor := Move(k, c))
      && m'.mem == Draw(m.mem, m.videoMem, k, c)
  {
  }

  lemma DrawSlice(mem: seq<byte>, base: int, k: Cursor, c: byte)
    requires Fits(mem, base)
    ensures Slice(Draw(mem, base, k, c), base) == Draw(Slice(mem, base), 0, k, c)
  {
    DrawOwnPage(mem, base, k, c);
  }

  lemma PutReady(m: Machine, loaded: int, c: byte)
    requires Ready(m, loaded)
    ensures var m' := Apply(m, Put(c)); Ready(m', loaded) && m'.active == m.active && m'.shown == m.shown
  {
  }

  lemma PutOther(m: Machine, loaded: int, c: byte, t: int)
    requires Ready(m, loaded) && IsTerminal(t) && t != loaded
    ensures Logical(Apply(m, Put(c)), loaded, t) == Logical(m, loaded, t) <==> !SpillsOnto(m, t, c)
  {
    PutElsewhere(m, loaded, c, t);
  }

  /** A putc does to its own terminal what the specification says, wherever the cursor is, and changes no other
      terminal exactly when it does not spill. */
  lemma PutRefines(m: Machine, loaded: int, c: byte)
    requires Ready(m, loaded)
    ensures var m' := Apply(m, Put(c));
      && Ready(m', loaded) && m'.active == m.active && m'.shown == m.shown
      && Logical(m', loaded, loaded) == Act(Logical(m, loaded, loaded), Put(c))
      && forall t :: IsTerminal(t) && t != loaded ==>
           (Logical(m', loaded, t) == Logical(m, loaded, t) <==> !SpillsOnto(m, t, c))
  {
    PutReady(m, loaded, c);
    PutOwn(m, loaded, c);
    forall t | IsTerminal(t) && t != loaded
      ensures Logical(Apply(m, Put(c)), loaded, t) == Logical(m, loaded, t) <==> !SpillsOnto(m, t, c)
    {
      PutOther(m, loaded, c, t);
    }
  }

  lemma ClearRefines(m: Machine, loaded: int)
    requires Ready(m, loaded)
    ensures Ready(Apply(m, Clear), loaded)
    ensures OnlyTerminal(m, Apply(m, Clear), loaded, Act(Logical(m, loaded, loaded), Clear))
  {
    ClearIsLocal(m.mem, m.videoMem);
    assert Cleared(m.mem, m.videoMem) == Splice(m.mem, m.videoMem, Cleared(Slice(m.mem, m.videoMem), 0));
    ReplacedReady(m, loaded, Act(Logical(m, loaded, loaded), Clear));
  }

  /** Every operation does to the loaded terminal what the specification says, and changes it alone exactly when it
      does not spill onto another terminal's screen. */
  lemma ApplyRefines(m: Machine, loaded: int, op: Op)
    requires Ready(m, loaded)
    ensures Ready(Apply(m, op), loaded)
    ensures Logical(Apply(m, op), loaded, loaded) == Act(Logical(m, loaded, loaded), op)
    ensures OnlyTerminal(m, Apply(m, op), loaded, Act(Logical(m, loaded, loaded), op)) <==> !Spills(m, loaded, op)
  {
    match op {
      case Put(c) => PutRefines(m, loaded, c);
      case Clear => ClearRefines(m, loaded);
      case _ =>
    }
  }

  /** No operation of the sequence faults or spills when its turn comes. */
  predicate AllClean(m: Machine, loaded: int, ops: seq<Op>)
    requires Sized(m)
    decreases |ops|
  {
    ops == [] || (Clean(m, loaded, ops[0]) && AllClean(Apply(m, ops[0]), loaded, ops[1..]))
  }

  lemma {:induction false} ApplyAllRefines(m: Machine, loaded: int, ops: seq<Op>)
    requires Ready(m, loaded) && AllClean(m, loaded, ops)
    ensures Ready(ApplyAll(m, ops), loaded)
    ensures OnlyTerminal(m, ApplyAll(m, ops), loaded, ActAll(Logical(m, loaded, loaded), ops))
    decreases |ops|
  {
    if ops != [] {
      ApplyRefines(m, loaded, ops[0]);
      ApplyAllRefines(Apply(m, ops[0]), loaded, ops[1..]);
    }
  }

  /** On the screen, a putc spills exactly when it is a backspace that falls off a hidden terminal's page onto the page
      of another hidden terminal just below, and the two bytes there do not hold what it stores already. */
  lemma SpillsExactly(m: Machine, loaded: int, c: byte)
    requires Ready(m, loaded) && OnScreen(m.live.cursor)
    ensures Spills(m, loaded, Put(c)) <==>
      && FallsOff(m.live.cursor, c) && loaded != m.shown && loaded > 0 && loaded - 1 != m.shown
      && (m.mem[BackingPage(loaded) - 2] != 0 || m.mem[BackingPage(loaded) - 1] != ATTRIB)
  {
    var k := m.live.cursor;
    if FallsOff(k, c) {
      assert CharAddress(m.videoMem, k, c) == m.videoMem - 2 && AttributeAddress(m.videoMem, k, c) == m.videoMem - 1;
      if loaded != m.shown && loaded > 0 && loaded - 1 != m.shown {
        assert PageOf(m, loaded - 1) == m.videoMem - PAGE_BYTES;
        assert SpillsOnto(m, loaded - 1, c) <==> m.mem[m.videoMem - 2] != 0 || m.mem[m.videoMem - 1] != ATTRIB;
      }
    }
  }

  /** It faults exactly when it is a backspace that falls off the shown screen or off terminal 0's backing page. */
  lemma FaultsExactly(m: Machine, loaded: int, c: byte)
    requires Ready(m, loaded) && OnScreen(m.live.cursor)
    ensures Faults(m, Put(c)) <==> FallsOff(m.live.cursor, c) && (loaded == m.shown || loaded == 0)
  {
    var k := m.live.cursor;
    if FallsOff(k, c) {
      assert CharAddress(m.videoMem, k, c) == m.videoMem - 2 && AttributeAddress(m.videoMem, k, c) == m.videoMem - 1;
    }
  }

  /** Text that stays on the screen is clean. */
  lemma PermittedIsClean(m: Machine, loaded: int, op: Op)
    requires Ready(m, loaded) && Permitted(Logical(m, loaded, loaded), op)
    ensures Clean(m, loaded, op)
  {
    if op.Put? {
      SpillsExactly(m, loaded, op.c);
      FaultsExactly(m, loaded, op.c);
    }
  }

  lemma {:induction false} AllPermittedIsClean(m: Machine, loaded: int, ops: seq<Op>)
    requires Ready(m, loaded) && AllPermitted(Logical(m, loaded, loaded), ops)
    ensures AllClean(m, loaded, ops)
    decreases |ops|
  {
    if ops != [] {
      PermittedIsClean(m, loaded, ops[0]);
      ApplyRefines(m, loaded, ops[0]);
      AllPermittedIsClean(Apply(m, ops[0]), loaded, ops[1..]);
    }
  }

  /** Loading another terminal changes no terminal. */
  lemma SwitchRefines(m: Machine, loaded: int, curr: int)
    requires Ready(m, loaded) && IsTerminal(curr)
    ensures var m' := SwitchScreen(m, loaded, curr, false);
      && Ready(m', curr)
      && m'.active == m.active && m'.shown == m.shown
      && forall t :: IsTerminal(t) ==> Logical(m', curr, t) == Logical(m, loaded, t)
  {
  }

  /** A store into the saved terminal_x of the shown terminal during a key interrupt is lost: the switch back saves the
      live one over it. Clearing the typed line before a recalled command makes such a store. */
  lemma SavedStoreIsLost(m: Machine, x: int)
    requires Sized(m)
    ensures var stored := m.(ctx := m.ctx[m.shown := m.ctx[m.shown].(cursor := m.ctx[m.shown].cursor.(tx := x))]);
      SwitchScreen(stored, m.shown, m.active, false) == SwitchScreen(m, m.shown, m.active, false)
  {
    var stored := m.ctx[m.shown := m.ctx[m.shown].(cursor := m.ctx[m.shown].cursor.(tx := x))];
    assert stored[m.shown := m.live] == m.ctx[m.shown := m.live];
  }

  /** Showing another terminal, with the shown one loaded, changes no terminal: the two screens trade pages. */
  lemma ShowRefines(m: Machine, target: int)
    requires Ready(m, m.shown) && IsTerminal(target)
    ensures var m' := TerminalSwitch(m, target);
      && Ready(m', target)
      && m'.active == m.active && m'.shown == target
      && forall t :: IsTerminal(t) ==> Logical(m', target, t) == Logical(m, m.shown, t)
  {
    if m.shown != target {
      TradePages(m, target);
    }
  }

  lemma TradePages(m: Machine, target: int)
    requires Sized(m) && IsTerminal(target) && target != m.shown
    ensures var mem1 := CopyPage(m.mem, BackingPage(m.shown), VIDEO);
      var mem2 := CopyPage(mem1, VIDEO, BackingPage(target));
      forall t :: IsTerminal(t) ==>
        Slice(mem2, if t == target then VIDEO else BackingPage(t)) == Slice(m.mem, PageOf(m, t))
  {
    var mem1 := CopyPage(m.mem, BackingPage(m.shown), VIDEO);
    forall t | IsTerminal(t)
      ensures Slice(CopyPage(mem1, VIDEO, BackingPage(target)), if t == target then VIDEO else BackingPage(t))
           == Slice(m.mem, PageOf(m, t))
    {
      CopyPageSlices(m.mem, BackingPage(m.shown), VIDEO, BackingPage(t));
      CopyPageSlices(m.mem, BackingPage(m.shown), VIDEO, BackingPage(target));
      CopyPageSlices(mem1, VIDEO, BackingPage(target), if t == target then VIDEO else BackingPage(t));
    }
  }

  lemma CopyPageSlices(mem: seq<byte>, to: int, from: int, at: int)
    requires Fits(mem, to) && Fits(mem, from) && Fits(mem, at)
    requires at == to || at + PAGE_BYTES <= to || to + PAGE_BYTES <= at
    ensures Slice(CopyPage(mem, to, from), at) == Slice(mem, if at == to then from else at)
  {
    var copied, source := CopyPage(mem, to, from), if at == to then from else at;
    forall i | 0 <= i < PAGE_BYTES
      ensures Slice(copied, at)[i] == Slice(mem, source)[i]
    {
      if at == to {
        assert copied[at + i] == mem[from..from + PAGE_BYTES][i];
      }
    }
  }

  function Execute(m: Machine, e: Event): (r: Machine)
    requires Sized(m) && ValidEvent(e)
    ensures Sized(r)
  {
    match e
    case TimerTick => Tick(m)
    case Output(op) => Apply(m, op)
    case UserStore(offset, v) => m.(mem := Store(m.mem, m.vidmapBase * PAGE_BYTES + offset, v))
    case Key(before, request, after) => KeyInterrupt(m, before, request, after)
  }

  lemma TickRefines(m: Machine)
    requires Ready(m, m.active)
    ensures var m' := Tick(m);
      && Ready(m', m'.active)
      && m'.active == (m.active + 1) % TERMINALS && m'.shown == m.shown
      && forall t :: IsTerminal(t) ==> Logical(m', m'.active, t) == Logical(m, m.active, t)
  {
  }

  /** The machine, with terminal `loaded` in the registers, holds exactly these terminals. */
  ghost predicate Holds(m: Machine, loaded: int, terms: seq<Terminal>)
    requires Sized(m) && |terms| == TERMINALS
  {
    forall t :: IsTerminal(t) ==> Logical(m, loaded, t) == terms[t]
  }

  lemma HoldsAbstract(m: Machine, loaded: int, terms: seq<Terminal>)
    requires Sized(m) && |terms| == TERMINALS
    ensures Holds(m, loaded, terms) <==> Abstract(m, loaded).terms == terms
  {
    assert Holds(m, loaded, terms) ==>
      Logical(m, loaded, 0) == terms[0] && Logical(m, loaded, 1) == terms[1] && Logical(m, loaded, 2) == terms[2];
  }

  lemma ActsOnHeld(m: Machine, loaded: int, ops: seq<Op>, terms: seq<Terminal>)
    requires Ready(m, loaded) && |terms| == TERMINALS && Holds(m, loaded, terms)
    requires AllClean(m, loaded, ops)
    ensures var m' := ApplyAll(m, ops);
      && Ready(m', loaded) && m'.active == m.active && m'.shown == m.shown
      && Holds(m', loaded, terms[loaded := ActAll(terms[loaded], ops)])
  {
    ApplyAllRefines(m, loaded, ops);
  }

  /** The machine during a key interrupt: with the shown terminal loaded, after the operations before a switch, and
      after the switch. */
  function KeyLoaded(m: Machine): (r: Machine)
    requires Sized(m)
    ensures Sized(r)
  {
    SwitchScreen(m, m.active, m.shown, false)
  }

  function KeySwitched(m: Machine, before: seq<Op>, request: Request): (r: Machine)
    requires Sized(m) && (request.Show? ==> IsTerminal(request.target))
    ensures Sized(r)
  {
    var m1 := ApplyAll(KeyLoaded(m), before);
    if request.Show? then TerminalSwitch(m1, request.target) else m1
  }

  /** No putc of the event faults or spills onto another terminal. */
  predicate CleanEvent(m: Machine, e: Event)
    requires Sized(m) && ValidEvent(e)
  {
    match e
    case Output(op) => Clean(m, m.active, op)
    case Key(before, request, after) =>
      && AllClean(KeyLoaded(m), m.shown, before)
      && var m2 := KeySwitched(m, before, request); AllClean(m2, m2.shown, after)
    case _ => true
  }

  lemma KeyRefines(m: Machine, before: seq<Op>, request: Request, after: seq<Op>)
    requires Ready(m, m.active)
    requires request.Show? ==> IsTerminal(request.target)
    requires CleanEvent(m, Key(before, request, after))
    ensures var m' := KeyInterrupt(m, before, request, after);
      && Ready(m', m'.active)
      && Abstract(m', m'.active) == SpecStep(Abstract(m, m.active), Key(before, request, after))
  {
    var s := Abstract(m, m.active);
    HoldsAbstract(m, m.active, s.terms);
    SwitchRefines(m, m.active, m.shown);
    var m0 := KeyLoaded(m);
    ActsOnHeld(m0, m.shown, before, s.terms);
    var m1 := ApplyAll(m0, before);
    var terms1 := s.terms[s.shown := ActAll(s.terms[s.shown], before)];
    var shown := Shown(s, request);
    if request.Show? {
      ShowRefines(m1, request.target);
    }
    var m2 := KeySwitched(m, before, request);
    ActsOnHeld(m2, shown, after, terms1);
    var m3 := ApplyAll(m2, after);
    SwitchRefines(m3, shown, m.active);
    var terms2 := terms1[shown := ActAll(terms1[shown], after)];
    HoldsAbstract(KeyInterrupt(m, before, request, after), m.active, terms2);
  }

  /** Output refines its specification exactly when it does not spill. */
  lemma OutputRefinesExactly(m: Machine, op: Op)
    requires Ready(m, m.active)
    ensures Ready(Apply(m, op), m.active)
    ensures Abstract(Apply(m, op), m.active) == SpecStep(Abstract(m, m.active), Output(op)) <==>
      !Spills(m, m.active, op)
  {
    var s, m' := Abstract(m, m.active), Apply(m, op);
    var term := Act(s.terms[m.active], op);
    HoldsAbstract(m, m.active, s.terms);
    ApplyRefines(m, m.active, op);
    HoldsAbstract(m', m.active, s.terms[m.active := term]);
    HeldIsOnly(m, m', m.active, s.terms, term);
  }

  lemma HeldIsOnly(m: Machine, m': Machine, loaded: int, terms: seq<Terminal>, term: Terminal)
    requires Sized(m) && Sized(m') && |terms| == TERMINALS && IsTerminal(loaded) && Holds(m, loaded, terms)
    requires m'.active == m.active && m'.shown == m.shown
    ensures Holds(m', loaded, terms[loaded := term]) <==> OnlyTerminal(m, m', loaded, term)
  {
    if Holds(m', loaded, terms[loaded := term]) {
      forall t | IsTerminal(t)
        ensures Logical(m', loaded, t) == if t == loaded then term else Logical(m, loaded, t)
      {
        assert Logical(m', loaded, t) == terms[loaded := term][t];
      }
    }
  }

  lemma StoreIsSplice(mem: seq<byte>, base: int, offset: int, v: byte)
    requires Fits(mem, base) && 0 <= offset < PAGE_BYTES
    ensures Store(mem, base + offset, v) == Splice(mem, base, Slice(mem, base)[offset := v])
  {
    var page := Slice(mem, base)[offset := v];
    var r, spliced := Store(mem, base + offset, v), Splice(mem, base, page);
    assert |r| == |spliced|;
    forall a | 0 <= a < |mem|
      ensures r[a] == spliced[a]
    {
      if base <= a < base + PAGE_BYTES {
        assert spliced[a] == page[a - base];
      }
    }
  }

  lemma UserStoreRefines(m: Machine, offset: int, v: byte)
    requires Ready(m, m.active) && ValidEvent(UserStore(offset, v))
    ensures var m' := Execute(m, UserStore(offset, v));
      Ready(m', m.active) && Abstract(m', m.active) == SpecStep(Abstract(m, m.active), UserStore(offset, v))
  {
    var s := Abstract(m, m.active);
    var m' := Execute(m, UserStore(offset, v));
    HoldsAbstract(m, m.active, s.terms);
    var term := s.terms[m.active];
    var term' := term.(page := term.page[offset := v]);
    assert term.page == Slice(m.mem, m.videoMem);
    StoreIsSplice(m.mem, m.videoMem, offset, v);
    assert m' == Replaced(m, term');
    ReplacedReady(m, m.active, term');
    HoldsAbstract(m', m.active, s.terms[m.active := term']);
  }

  /** One event of the multiplexed machine is that event of three independent terminals. */
  lemma EventRefines(m: Machine, e: Event)
    requires Ready(m, m.active) && ValidEvent(e) && CleanEvent(m, e)
    ensures var m' := Execute(m, e);
      Ready(m', m'.active) && Abstract(m', m'.active) == SpecStep(Abstract(m, m.active), e)
  {
    match e {
      case TimerTick =>
        HoldsAbstract(m, m.active, Abstract(m, m.active).terms);
        TickRefines(m);
        HoldsAbstract(Tick(m), Tick(m).active, Abstract(m, m.active).terms);
      case Output(op) => OutputRefinesExactly(m, op);
      case UserStore(offset, v) => UserStoreRefines(m, offset, v);
      case Key(before, request, after) => KeyRefines(m, before, request, after);
    }
  }

  predicate ValidEvents(events: seq<Event>) {
    forall i :: 0 <= i < |events| ==> ValidEvent(events[i])
  }

  function SpecRun(s: Spec, events: seq<Event>): (r: Spec)
    requires ValidSpec(s) && ValidEvents(events)
    ensures ValidSpec(r)
    decreases |events|
  {
    if events == [] then s else SpecRun(SpecStep(s, events[0]), events[1..])
  }

  function ExecuteAll(m: Machine, events: seq<Event>): (r: Machine)
    requires Sized(m) && ValidEvents(events)
    ensures Sized(r)
    decreases |events|
  {
    if events == [] then m else ExecuteAll(Execute(m, events[0]), events[1..])
  }

  /** Runs in which no putc faults or spills. */
  predicate CleanRun(m: Machine, events: seq<Event>)
    requires Sized(m) && ValidEvents(events)
    decreases |events|
  {
    events == [] || (CleanEvent(m, events[0]) && CleanRun(Execute(m, events[0]), events[1..]))
  }

  /** Refinement over runs: under any interleaving of ticks, key interrupts, Alt+Fn switches and output in which no
      putc faults or spills, the machine never loses coherence, the display cursor is always the shown terminal's, and
      the three terminals are exactly what three independent terminals would be. */
  lemma {:induction false} RunRefines(m: Machine, events: seq<Event>)
    requires Ready(m, m.active) && ValidEvents(events) && CleanRun(m, events)
    ensures var m' := ExecuteAll(m, events);
      Ready(m', m'.active) && Abstract(m', m'.active) == SpecRun(Abstract(m, m.active), events)
    decreases |events|
  {
    if events != [] {
      EventRefines(m, events[0]);
      RunRefines(Execute(m, events[0]), events[1..]);
    }
  }

  lemma {:induction false} SpecRunAppends(s: Spec, events: seq<Event>, e: Event)
    requires ValidSpec(s) && ValidEvents(events) && ValidEvent(e)
    ensures ValidEvents(events + [e]) && SpecRun(s, events + [e]) == SpecStep(SpecRun(s, events), e)
    decreases |events|
  {
    if events == [] {
      assert SpecRun(SpecStep(s, e), ([] + [e])[1..]) == SpecStep(s, e);
    } else {
      assert (events + [e])[1..] == events[1..] + [e];
      SpecRunAppends(SpecStep(s, events[0]), events[1..], e);
    }
  }

  lemma {:induction false} ExecuteAllAppends(m: Machine, events: seq<Event>, e: Event)
    requires Sized(m) && ValidEvents(events) && ValidEvent(e)
    ensures ValidEvents(events + [e]) && ExecuteAll(m, events + [e]) == Execute(ExecuteAll(m, events), e)
    decreases |events|
  {
    if events == [] {
      assert ExecuteAll(Execute(m, e), ([] + [e])[1..]) == Execute(m, e);
    } else {
      assert (events + [e])[1..] == events[1..] + [e];
      ExecuteAllAppends(Execute(m, events[0]), events[1..], e);
    }
  }

  /** The first output that spills ends the refinement: after a clean run, one more output keeps it exactly when that
      output does not spill. */
  lemma FirstSpillBreaks(m: Machine, events: seq<Event>, op: Op)
    requires Ready(m, m.active) && ValidEvents(events) && CleanRun(m, events)
    ensures ValidEvents(events + [Output(op)])
    ensures var m1, m2 := ExecuteAll(m, events), ExecuteAll(m, events + [Output(op)]);
      Abstract(m2, m2.active) == SpecRun(Abstract(m, m.active), events + [Output(op)]) <==> !Spills(m1, m1.active, op)
  {
    RunRefines(m, events);
    ExecuteAllAppends(m, events, Output(op));
    SpecRunAppends(Abstract(m, m.active), events, Output(op));
    OutputRefinesExactly(ExecuteAll(m, events), op);
  }

  /** The first tick after boot, with the screen clear that starts a shell, makes the machine coherent from whatever the
      boot code left in the registers, as long as terminal 2 is nominally active and, when a switch has already shown
      another terminal than 0, the display cursor is that terminal's. */
  lemma FirstTick(m: Machine)
    requires Sized(m) && m.active == TERMINALS - 1 && (m.shown == 0 || CursorFollows(m, m.active))
    ensures var m1 := Tick(m);
      && Coherent(m1, 0)
      && Ready(Apply(m1, Clear), 0)
  {
  }

  // ---------------------------------------------------------------------------------------------
  // Consequences for one terminal
  // ---------------------------------------------------------------------------------------------

  /** The events that can reach terminal t: output while it is active, keystrokes while it is shown. */
  predicate Concerns(s: Spec, e: Event, t: int)
    requires ValidSpec(s) && ValidEvent(e)
  {
    match e
    case TimerTick => false
    case Output(_) => t == s.active
    case UserStore(_, _) => t == s.active
    case Key(before, request, after) => (t == s.shown && before != []) || (t == Shown(s, request) && after != [])
  }

  predicate NeverConcerned(s: Spec, events: seq<Event>, t: int)
    requires ValidSpec(s) && ValidEvents(events)
    decreases |events|
  {
    events == [] || (!Concerns(s, events[0], t) && NeverConcerned(SpecStep(s, events[0]), events[1..], t))
  }

  /** Isolation in the specification, and so, by RunRefines, in the machine. */
  lemma {:induction false} SpecIsolation(s: Spec, events: seq<Event>, t: int)
    requires ValidSpec(s) && IsTerminal(t) && ValidEvents(events) && NeverConcerned(s, events, t)
    ensures SpecRun(s, events).terms[t] == s.terms[t]
    decreases |events|
  {
    if events != [] {
      SpecIsolation(SpecStep(s, events[0]), events[1..], t);
    }
  }

  /** Isolation: however often the other terminals are switched in and out or shown, and whatever they print without
      falling off their own screens, a terminal that gets no output and no keystrokes keeps its cursor, history indices
      and screen. */
  lemma Isolation(m: Machine, events: seq<Event>, t: int)
    requires Ready(m, m.active) && IsTerminal(t) && ValidEvents(events) && CleanRun(m, events)
    requires NeverConcerned(Abstract(m, m.active), events, t)
    ensures var m' := ExecuteAll(m, events);
      Logical(m', m'.active, t) == Logical(m, m.active, t)
  {
    RunRefines(m, events);
    SpecIsolation(Abstract(m, m.active), events, t);
    AbstractAt(m, m.active, t);
    AbstractAt(ExecuteAll(m, events), ExecuteAll(m, events).active, t);
  }
}
