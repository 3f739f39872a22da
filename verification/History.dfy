/** One terminal's line editor: the 128-byte keyboard buffer and the ring of 32 saved commands that Up and Down walk
    through. */
module History {
  import opened Strings
  import Screen

  const BUF_SIZE := 128
  const SAVED_COMMANDS_SIZE := 32

  type byte = Strings.byte
  type Line = seq<byte>

  const BACKSPACE: byte := 8
  const TAB: byte := 9
  const NEWLINE: byte := 10
  const SPACE: byte := 32

  /** The part of terminal_t the keyboard uses, with everything echoed to the screen so far. */
  datatype Editor = Editor(buf: Line, idx: int, enterFlag: bool, commands: seq<Line>, history: seq<bool>,
                           curr: int, top: int, echo: seq<byte>)

  predicate IsSlot(s: int) {
    0 <= s < SAVED_COMMANDS_SIZE
  }

  predicate Sized(e: Editor) {
    && |e.buf| == BUF_SIZE && |e.commands| == SAVED_COMMANDS_SIZE && |e.history| == SAVED_COMMANDS_SIZE
    && forall s :: 0 <= s < SAVED_COMMANDS_SIZE ==> |e.commands[s]| == BUF_SIZE
  }

  function EmptyLine(): (r: Line)
    ensures |r| == BUF_SIZE && forall i :: 0 <= i < BUF_SIZE ==> r[i] == 0
  {
    Screen.Repeat(0, BUF_SIZE)
  }

  function NonZeros(line: Line): (n: nat)
    ensures n <= |line|
  {
    if line == [] then 0 else NonZeros(line[..|line| - 1]) + if line[|line| - 1] == 0 then 0 else 1
  }

  lemma OneMore(line: Line, i: nat)
    requires i < |line|
    ensures Screen.Repeat(BACKSPACE, NonZeros(line[..i + 1]))
         == Screen.Repeat(BACKSPACE, NonZeros(line[..i])) + if line[i] == 0 then [] else [BACKSPACE]
  {
    assert line[..i + 1][..i] == line[..i];
  }

  /** A text at the start of an otherwise empty buffer. */
  function Padded(text: Line): (line: Line)
    requires |text| <= BUF_SIZE
    ensures |line| == BUF_SIZE && line[..|text|] == text && forall i :: |text| <= i < BUF_SIZE ==> line[i] == 0
  {
    text + Screen.Repeat(0, BUF_SIZE - |text|)
  }

  lemma {:induction false} TextOfPadded(text: Line)
    requires |text| <= BUF_SIZE && 0 !in text
    ensures Text(Padded(text)) == text
  {
    var line := Padded(text);
    if |text| < BUF_SIZE {
      assert line[|text|] == 0;
    }
    assert line[..|text|] == text;
  }

  // ---------------------------------------------------------------------------------------------
  // The searches of Up and Down
  // ---------------------------------------------------------------------------------------------

  /** The slot d steps before, or after, slot s. */
  function Back(s: int, d: nat): (r: int)
    requires IsSlot(s) && d <= 33
    ensures IsSlot(r)
  {
    if s - d >= 0 then s - d else if s - d >= -32 then s - d + 32 else s - d + 64
  }

  function Forward(s: int, d: nat): (r: int)
    requires IsSlot(s) && d <= 33
    ensures IsSlot(r)
  {
    if s + d < 32 then s + d else if s + d < 64 then s + d - 32 else s + d - 64
  }

  /** How far Up goes: the least distance d or more with a visible command, and 33 when there is none. */
  function UpSteps(history: seq<bool>, s: int, d: nat): (r: nat)
    requires |history| == SAVED_COMMANDS_SIZE && IsSlot(s) && 1 <= d <= 33
    ensures d <= r <= 33
    ensures forall k :: d <= k < r ==> !history[Back(s, k)]
    ensures r < 33 ==> history[Back(s, r)]
    decreases 33 - d
  {
    if d == 33 || history[Back(s, d)] then d else UpSteps(history, s, d + 1)
  }

  function UpSlot(e: Editor): (s: int)
    requires Sized(e) && IsSlot(e.curr)
    ensures IsSlot(s)
  {
    Back(e.curr, UpSteps(e.history, e.curr, 1))
  }

  /** Where Down stops: at a visible command, or at the top slot; but slot 31 is left, for -1, before it is compared
      with the top. */
  predicate Stops(history: seq<bool>, top: int, s: int)
    requires |history| == SAVED_COMMANDS_SIZE && IsSlot(s)
  {
    history[s] || (s == top && s != SAVED_COMMANDS_SIZE - 1)
  }

  function DownSteps(history: seq<bool>, top: int, s: int, d: nat): (r: nat)
    requires |history| == SAVED_COMMANDS_SIZE && IsSlot(s) && 1 <= d <= 33
    ensures d <= r <= 33
    ensures forall k :: d <= k < r ==> !Stops(history, top, Forward(s, k))
    ensures r < 33 ==> Stops(history, top, Forward(s, r))
    decreases 33 - d
  {
    if d == 33 || Stops(history, top, Forward(s, d)) then d else DownSteps(history, top, s, d + 1)
  }

  /** The index a search of Down that looked at slot s last leaves behind. */
  function LeftAt(history: seq<bool>, top: int, s: int): int
    requires |history| == SAVED_COMMANDS_SIZE && IsSlot(s)
  {
    if !Stops(history, top, s) && s == SAVED_COMMANDS_SIZE - 1 then -1 else s
  }

  function DownSlot(e: Editor): (s: int)
    requires Sized(e) && IsSlot(e.curr)
    ensures -1 <= s < SAVED_COMMANDS_SIZE
  {
    LeftAt(e.history, e.top, Forward(e.curr, DownSteps(e.history, e.top, e.curr, 1)))
  }

  // ---------------------------------------------------------------------------------------------
  // The keys
  // ---------------------------------------------------------------------------------------------

  /** The buffer zeroed, one '\b' echoed for each byte that was not 0. */
  function Cleared(e: Editor): (r: Editor)
    requires Sized(e)
    ensures Sized(r)
  {
    e.(buf := EmptyLine(), idx := 0, echo := e.echo + Screen.Repeat(BACKSPACE, NonZeros(e.buf)))
  }

  /** The text of a saved command typed into the cleared buffer. */
  function Retyped(e: Editor, line: Line): (r: Editor)
    requires Sized(e) && |line| == BUF_SIZE
    ensures Sized(r)
  {
    var t := Text(line);
    e.(buf := t + e.buf[|t|..], idx := |t|, echo := e.echo + t)
  }

  function Saved(e: Editor): (r: Editor)
    requires Sized(e) && IsSlot(e.curr)
    ensures Sized(r)
  {
    e.(commands := e.commands[e.curr := e.buf])
  }

  /** The visible command at the slot a search ended at, if there is one. */
  function Recalled(e: Editor, slot: int): (r: Editor)
    requires Sized(e) && -1 <= slot < SAVED_COMMANDS_SIZE
    ensures Sized(r)
  {
    var e1 := Cleared(e).(curr := slot);
    if slot >= 0 && e.history[slot] then Retyped(e1, e.commands[slot]) else e1
  }

  function Up(e: Editor): (r: Editor)
    requires Sized(e) && IsSlot(e.curr)
    ensures Sized(r)
  {
    Recalled(Saved(e), UpSlot(e))
  }

  function Down(e: Editor): (r: Editor)
    requires Sized(e) && IsSlot(e.curr)
    ensures Sized(r)
  {
    if e.curr == e.top then Saved(e) else Recalled(Saved(e), DownSlot(e))
  }

  function NextSlot(s: int): int {
    if s + 1 >= SAVED_COMMANDS_SIZE then 0 else s + 1
  }

  /** The command line goes into the top slot, and the slot it was recalled from is hidden. */
  function Remembered(e: Editor): (r: Editor)
    requires Sized(e) && IsSlot(e.curr) && IsSlot(e.top)
    ensures Sized(r)
  {
    e.(commands := e.commands[e.top := e.buf], history := e.history[e.curr := false][e.top := true],
       top := NextSlot(e.top), curr := NextSlot(e.top))
  }

  function Put(e: Editor, c: byte, shown: byte): (r: Editor)
    requires Sized(e) && 0 <= e.idx < BUF_SIZE
    ensures Sized(r)
  {
    e.(buf := e.buf[e.idx := c], idx := e.idx + 1, echo := e.echo + [shown])
  }

  function Enter(e: Editor): (r: Editor)
    requires Sized(e) && IsSlot(e.curr) && IsSlot(e.top) && 0 <= e.idx < BUF_SIZE
    ensures Sized(r)
  {
    if e.enterFlag then e
    else Put(if e.idx > 0 then Remembered(e) else e, NEWLINE, NEWLINE).(enterFlag := true)
  }

  /** ENTER when the buffer has room for nothing else: the newline goes into the last byte and nothing is saved. */
  function EnterFull(e: Editor): (r: Editor)
    requires Sized(e)
    ensures Sized(r)
  {
    e.(buf := e.buf[BUF_SIZE - 1 := NEWLINE], enterFlag := true, echo := e.echo + [NEWLINE])
  }

  function PutTab(e: Editor): (r: Editor)
    requires Sized(e) && 0 <= e.idx < BUF_SIZE - 1
    ensures Sized(r)
  {
    if e.idx + 4 >= BUF_SIZE - 1 then e
    else Put(Put(Put(Put(e, SPACE, SPACE), SPACE, SPACE), SPACE, SPACE), TAB, SPACE)
  }

  /** backspace_pressed: one byte less, or, when that byte is a tab, three. */
  function Erase(e: Editor): (r: Editor)
    requires Sized(e) && 0 <= e.idx <= BUF_SIZE && (0 < e.idx < 4 ==> e.buf[e.idx - 1] != TAB)
    ensures Sized(r)
  {
    if e.idx == 0 then e
    else if e.buf[e.idx - 1] == TAB then
      e.(buf := e.buf[e.idx - 1 := 0][e.idx - 2 := 0][e.idx - 3 := 0], idx := e.idx - 4,
         echo := e.echo + [BACKSPACE, BACKSPACE, BACKSPACE])
    else e.(buf := e.buf[e.idx - 1 := 0], idx := e.idx - 1)
  }

  /** What terminal_read copies: the line, cut to the count it was given. */
  function Taken(e: Editor, nbytes: int): (r: Line)
    requires Sized(e)
  {
    var t := Text(e.buf);
    if nbytes <= 0 then [] else if nbytes < |t| then t[..nbytes] else t
  }

  datatype Event = KeyUp | KeyDown | KeyEnter | KeyBackspace | KeyTab | KeyChar(c: byte) | ReadStarts | ReadEnds

  /** The character tables hold '\t' for the tab key alone. */
  predicate IsEvent(ev: Event) {
    ev.KeyChar? ==> ev.c != TAB
  }

  /** add_to_buffer, behind the overflow check. */
  function Added(e: Editor, ev: Event): (r: Editor)
    requires Sized(e) && IsSlot(e.curr) && IsSlot(e.top) && 0 <= e.idx <= BUF_SIZE
    ensures Sized(r)
  {
    if e.idx >= BUF_SIZE - 1 then if ev.KeyEnter? then EnterFull(e) else e
    else
      match ev
      case KeyEnter => Enter(e)
      case KeyTab => PutTab(e)
      case KeyBackspace => e.(echo := e.echo + [BACKSPACE])
      case KeyChar(c) => Put(e, c, c)
      case _ => e
  }

  function Step(e: Editor, ev: Event): (r: Editor)
    requires Good(e) && IsEvent(ev)
    ensures Sized(r)
  {
    match ev
    case KeyUp => Up(e)
    case KeyDown => Down(e)
    case KeyBackspace =>
      EraseFits(e);
      Added(Erase(e), ev)
    case ReadStarts => Cleared(e)
    case ReadEnds => if e.enterFlag then Cleared(e).(enterFlag := false) else e
    case _ => Added(e, ev)
  }

  // ---------------------------------------------------------------------------------------------
  // What every run keeps
  // ---------------------------------------------------------------------------------------------

  /** A tab always has the three spaces of its key before it. */
  predicate TabsFit(line: Line)
    requires |line| == BUF_SIZE
  {
    forall i :: 0 <= i < 3 ==> line[i] != TAB
  }

  predicate Good(e: Editor) {
    && Sized(e) && 0 <= e.idx <= BUF_SIZE && IsSlot(e.curr) && IsSlot(e.top)
    && (e.top == 0 || exists s :: 0 <= s < SAVED_COMMANDS_SIZE && e.history[s])
    && TabsFit(e.buf) && forall s :: 0 <= s < SAVED_COMMANDS_SIZE ==> TabsFit(e.commands[s])
  }

  lemma EraseFits(e: Editor)
    requires Good(e)
    ensures 0 < e.idx < 4 ==> e.buf[e.idx - 1] != TAB
  {
  }

  lemma BackDistances(s: int, r: int)
    requires IsSlot(s) && IsSlot(r)
    ensures exists d: nat :: 1 <= d <= 32 && Back(s, d) == r
    ensures exists d: nat :: 1 <= d <= 32 && Forward(s, d) == r
  {
    var d: nat := if r < s then s - r else s - r + 32;
    assert Back(s, d) == r;
    var f: nat := if r > s then r - s else r - s + 32;
    assert Forward(s, f) == r;
  }

  /** With a visible command Up finds the nearest one before; with none it gives up one slot before. */
  lemma UpFinds(e: Editor)
    requires Sized(e) && IsSlot(e.curr)
    ensures (exists s :: 0 <= s < SAVED_COMMANDS_SIZE && e.history[s]) <==> e.history[UpSlot(e)]
    ensures !e.history[UpSlot(e)] ==> UpSlot(e) == Back(e.curr, 1)
  {
    var d := UpSteps(e.history, e.curr, 1);
    if s :| 0 <= s < SAVED_COMMANDS_SIZE && e.history[s] {
      BackDistances(e.curr, s);
      var k: nat :| 1 <= k <= 32 && Back(e.curr, k) == s;
      assert d <= k;
    } else {
      assert d == 33 && Back(e.curr, 33) == Back(e.curr, 1);
    }
  }

  /** In a good ring Down stops at a slot, with fewer than 33 looks: it never leaves -1 behind. */
  lemma DownFinds(e: Editor)
    requires Good(e)
    ensures DownSteps(e.history, e.top, e.curr, 1) <= 32 && IsSlot(DownSlot(e))
    ensures Stops(e.history, e.top, DownSlot(e))
  {
    var d := DownSteps(e.history, e.top, e.curr, 1);
    var s := if e.top == 0 then 0 else var s :| 0 <= s < SAVED_COMMANDS_SIZE && e.history[s]; s;
    BackDistances(e.curr, s);
    var k: nat :| 1 <= k <= 32 && Forward(e.curr, k) == s;
    assert d <= k;
  }

  /** Without the invariant it can: a search over an empty ring whose top is 31 ends at -1. */
  lemma DownNeedsTheInvariant(e: Editor)
    requires Sized(e) && e.top == 31 && e.curr == 30 && forall s :: 0 <= s < SAVED_COMMANDS_SIZE ==> !e.history[s]
    ensures DownSlot(e) == -1
  {
    assert DownSteps(e.history, e.top, e.curr, 1) == 33;
    assert Forward(e.curr, 33) == 31;
  }

  lemma RecalledKeepsGood(e: Editor, slot: int)
    requires Good(e) && IsSlot(slot)
    ensures Good(Recalled(e, slot))
  {
    var e1 := Cleared(e).(curr := slot);
    if e.history[slot] {
      var t, line := Text(e.commands[slot]), e.commands[slot];
      var r := Retyped(e1, line);
      assert TabsFit(line);
      forall i | 0 <= i < 3
        ensures r.buf[i] != TAB
      {
        if i < |t| {
          assert r.buf[i] == line[i];
        }
      }
    }
  }

  lemma SavedKeepsGood(e: Editor)
    requires Good(e)
    ensures Good(Saved(e))
  {
  }

  lemma EnterKeepsGood(e: Editor)
    requires Good(e) && e.idx < BUF_SIZE - 1
    ensures Good(Enter(e))
  {
    if !e.enterFlag && e.idx > 0 {
      var r := Remembered(e);
      assert r.history[e.top];
      assert Good(r);
    }
  }

  lemma AddedKeepsGood(e: Editor, ev: Event)
    requires Good(e) && IsEvent(ev)
    ensures Good(Added(e, ev))
  {
    if e.idx < BUF_SIZE - 1 && ev.KeyEnter? {
      EnterKeepsGood(e);
    } else if e.idx < BUF_SIZE - 1 && ev.KeyTab? {
      TabKeepsGood(e);
    }
  }

  lemma TabKeepsGood(e: Editor)
    requires Good(e) && e.idx < BUF_SIZE - 1
    ensures Good(PutTab(e))
  {
  }

  lemma EraseKeepsGood(e: Editor)
    requires Good(e)
    ensures Good(Erase(e))
  {
    EraseFits(e);
  }

  lemma ReadEndsKeepsGood(e: Editor)
    requires Good(e) && e.enterFlag
    ensures var r := Cleared(e).(enterFlag := false); Good(r) && Step(e, ReadEnds) == r
  {
  }

  /** Every key and every read keeps both indices on slots and the buffer index within the buffer. */
  lemma StepKeepsGood(e: Editor, ev: Event)
    requires Good(e) && IsEvent(ev)
    ensures Good(Step(e, ev))
  {
    match ev {
      case KeyUp =>
        SavedKeepsGood(e);
        RecalledKeepsGood(Saved(e), UpSlot(e));
      case KeyDown =>
        SavedKeepsGood(e);
        if e.curr != e.top {
          DownFinds(e);
          RecalledKeepsGood(Saved(e), DownSlot(e));
        }
      case KeyBackspace =>
        EraseKeepsGood(e);
        AddedKeepsGood(Erase(e), ev);
      case ReadStarts =>
      case ReadEnds =>
      case _ => AddedKeepsGood(e, ev);
    }
  }

  function Boot(): (e: Editor)
    ensures Good(e)
  {
    Editor(EmptyLine(), 0, false, seq(SAVED_COMMANDS_SIZE, _ => EmptyLine()), seq(SAVED_COMMANDS_SIZE, _ => false),
           0, 0, [])
  }

  function Run(e: Editor, events: seq<Event>): (r: Editor)
    requires Good(e) && forall i :: 0 <= i < |events| ==> IsEvent(events[i])
    ensures Good(r)
    decreases |events|
  {
    if events == [] then e
    else
      StepKeepsGood(e, events[0]);
      Run(Step(e, events[0]), events[1..])
  }

  /** Over every run the searches of Up and Down end on a slot. */
  lemma SearchesStayInTheRing(events: seq<Event>)
    requires forall i :: 0 <= i < |events| ==> IsEvent(events[i])
    ensures var e := Run(Boot(), events);
      && IsSlot(e.curr) && IsSlot(e.top) && 0 <= e.idx <= BUF_SIZE
      && IsSlot(UpSlot(e)) && IsSlot(DownSlot(e)) && DownSteps(e.history, e.top, e.curr, 1) <= 32
  {
    DownFinds(Run(Boot(), events));
  }

  // ---------------------------------------------------------------------------------------------
  // Down against its intention: stop at the next visible command or at the top
  // ---------------------------------------------------------------------------------------------

  predicate MeantToStop(history: seq<bool>, top: int, s: int)
    requires |history| == SAVED_COMMANDS_SIZE && IsSlot(s)
  {
    history[s] || s == top
  }

  /** d is the distance Down is meant to go. */
  predicate MeantSteps(e: Editor, d: nat)
    requires Sized(e) && IsSlot(e.curr)
  {
    && 1 <= d <= 32 && MeantToStop(e.history, e.top, Forward(e.curr, d))
    && forall k :: 1 <= k < d ==> !MeantToStop(e.history, e.top, Forward(e.curr, k))
  }

  /** Down goes as far as it is meant to, except past an unused top slot 31 with nothing visible on the way to it. */
  lemma DownMeetsIntentionExactly(e: Editor)
    requires Good(e) && e.curr != e.top
    ensures MeantSteps(e, DownSteps(e.history, e.top, e.curr, 1)) <==>
      !(e.top == 31 && !e.history[31] && forall s :: e.curr < s < 31 ==> !e.history[s])
  {
    DownFinds(e);
    var d := DownSteps(e.history, e.top, e.curr, 1);
    if e.top == 31 && !e.history[31] {
      var k: nat := 31 - e.curr;
      assert Forward(e.curr, k) == 31;
      if s :| e.curr < s < 31 && e.history[s] {
        var n: nat := s - e.curr;
        assert Forward(e.curr, n) == s && d <= n;
      } else {
        assert forall n: nat :: 1 <= n < k ==> Forward(e.curr, n) == e.curr + n;
        assert k < d;
      }
    }
  }

  /** At the top Down only saves what is in the buffer as the draft. */
  lemma DownAtTop(e: Editor)
    requires Good(e) && e.curr == e.top
    ensures Step(e, KeyDown) == e.(commands := e.commands[e.top := e.buf])
  {
  }
}
