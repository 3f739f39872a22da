/** The line editor on the screen: the cells from the prompt on hold the line in the editor's buffer. */
module Prompt {
  import opened Screen
  import opened Recall
  import H = History
  import Strings

  /** The last cells before the cursor hold the text. */
  predicate TextBefore(page: seq<byte>, k: Cursor, text: seq<byte>) {
    && |page| == PAGE_BYTES && OnScreen(k) && |text| <= Linear(k)
    && forall i :: 0 <= i < |text| ==> CharAt(page, Linear(k) - |text| + i) == text[i]
  }

  predicate AllPlain(text: seq<byte>) {
    forall i :: 0 <= i < |text| ==> Plain(text[i])
  }

  /** What a plain character does to each cell, whatever the attributes. */
  lemma PlainCells(page: seq<byte>, k: Cursor, c: byte, cell: nat)
    requires |page| == PAGE_BYTES && Plain(c) && OnScreen(k) && cell < CELLS
    ensures var from := if Scrolls(k, c) then cell + NUM_COLS else cell;
      from < CELLS ==> CharAt(Draw(page, 0, k, c), cell) == if from == Linear(k) then c else CharAt(page, from)
  {
    var from := if Scrolls(k, c) then cell + NUM_COLS else cell;
    if from < CELLS {
      assert CharAt(Ink(page, 0, k, c), from) == if from == Linear(k) then c else CharAt(page, from);
    }
  }

  lemma PlainMoves(k: Cursor, c: byte)
    requires OnScreen(k) && Plain(c)
    ensures OnScreen(Move(k, c)) && Move(k, c).tx == k.tx + 1
    ensures Linear(Move(k, c)) == if Scrolls(k, c) then Linear(k) + 1 - NUM_COLS else Linear(k) + 1
    ensures Scrolls(k, c) ==> Linear(Move(k, c)) == CELLS - NUM_COLS
  {
    MoveIsAdvance(k, c);
  }

  lemma TypeOne(page: seq<byte>, k: Cursor, text: seq<byte>, c: byte)
    requires TextBefore(page, k, text) && Plain(c) && |text| < CELLS - NUM_COLS
    ensures TextBefore(Draw(page, 0, k, c), Move(k, c), text + [c])
  {
    PlainMoves(k, c);
    forall i: nat | i <= |text|
      ensures CellHolds(Draw(page, 0, k, c), Linear(Move(k, c)) - |text| - 1 + i, (text + [c])[i])
    {
      TypedCell(page, k, text, c, i);
    }
    CellsHold(Draw(page, 0, k, c), Move(k, c), text + [c]);
  }

  predicate CellHolds(page: seq<byte>, cell: int, c: byte)
    requires |page| == PAGE_BYTES
  {
    0 <= cell < CELLS && CharAt(page, cell) == c
  }

  lemma CellsHold(page: seq<byte>, k: Cursor, text: seq<byte>)
    requires |page| == PAGE_BYTES && OnScreen(k) && |text| <= Linear(k)
    requires forall i: nat :: i < |text| ==> CellHolds(page, Linear(k) - |text| + i, text[i])
    ensures TextBefore(page, k, text)
  {
    forall i | 0 <= i < |text|
      ensures CharAt(page, Linear(k) - |text| + i) == text[i]
    {
      assert CellHolds(page, Linear(k) - |text| + i, text[i]);
    }
  }

  lemma TypedCell(page: seq<byte>, k: Cursor, text: seq<byte>, c: byte, i: nat)
    requires TextBefore(page, k, text) && Plain(c) && |text| < CELLS - NUM_COLS && i <= |text|
    ensures CellHolds(Draw(page, 0, k, c), Linear(Move(k, c)) - |text| - 1 + i, (text + [c])[i])
  {
    PlainMoves(k, c);
    PlainCells(page, k, c, Linear(Move(k, c)) - |text| - 1 + i);
    if i < |text| {
      assert CharAt(page, Linear(k) - |text| + i) == text[i];
    }
  }

  lemma TakeBackOne(page: seq<byte>, k: Cursor, text: seq<byte>)
    requires TextBefore(page, k, text) && text != [] && RoomToErase(k) && k.tx > 0
    ensures TextBefore(Draw(page, 0, k, BACKSPACE), Move(k, BACKSPACE), text[..|text| - 1])
  {
    BackspaceErasesPreceding(page, 0, k);
    var page', k', text' := Draw(page, 0, k, BACKSPACE), Move(k, BACKSPACE), text[..|text| - 1];
    forall i | 0 <= i < |text'|
      ensures CharAt(page', Linear(k') - |text'| + i) == text'[i]
    {
      assert CharAt(page, Linear(k) - |text| + i) == text[i];
    }
  }

  lemma {:induction false} DrawAllConcat(page: seq<byte>, k: Cursor, a: seq<byte>, b: seq<byte>)
    requires |page| == PAGE_BYTES
    ensures MoveAll(k, a + b) == MoveAll(MoveAll(k, a), b)
    ensures DrawAll(page, k, a + b) == DrawAll(DrawAll(page, k, a), MoveAll(k, a), b)
    decreases |b|
  {
    if b == [] {
      assert a + b == a;
    } else {
      var last := |b| - 1;
      assert (a + b)[..|a + b| - 1] == a + b[..last] && (a + b)[|a + b| - 1] == b[last];
      DrawAllConcat(page, k, a, b[..last]);
    }
  }

  /** The screen and cursor after n backspaces over the end of a text. */
  lemma {:induction false} TakeBackMany(page: seq<byte>, k: Cursor, prompt: seq<byte>, line: seq<byte>, n: nat)
    requires TextBefore(page, k, prompt + line) && RoomToErase(k) && n <= |line| <= k.tx
    ensures var page', k' := DrawAll(page, k, Repeat(BACKSPACE, n)), MoveAll(k, Repeat(BACKSPACE, n));
      TextBefore(page', k', prompt + line[..|line| - n]) && RoomToErase(k') && k'.tx == k.tx - n
    decreases n
  {
    if n == 0 {
      assert line[..|line|] == line;
    } else {
      assert Repeat(BACKSPACE, n)[..n - 1] == Repeat(BACKSPACE, n - 1);
      TakeBackMany(page, k, prompt, line, n - 1);
      var page1, k1 := DrawAll(page, k, Repeat(BACKSPACE, n - 1)), MoveAll(k, Repeat(BACKSPACE, n - 1));
      var text := prompt + line[..|line| - n + 1];
      assert text[..|text| - 1] == prompt + line[..|line| - n];
      TakeBackOne(page1, k1, text);
      BackspaceErasesPreceding(page1, 0, k1);
    }
  }

  lemma {:induction false} TypeMany(page: seq<byte>, k: Cursor, text: seq<byte>, line: seq<byte>)
    requires TextBefore(page, k, text) && RoomToErase(k) && AllPlain(line)
    requires |text| + |line| <= CELLS - NUM_COLS && k.tx + |line| <= CELLS - NUM_COLS
    ensures var page', k' := DrawAll(page, k, line), MoveAll(k, line);
      TextBefore(page', k', text + line) && RoomToErase(k') && k'.tx == k.tx + |line|
    decreases |line|
  {
    if line == [] {
      assert text + line == text;
    } else {
      var last := |line| - 1;
      TypeMany(page, k, text, line[..last]);
      TypesOneMore(DrawAll(page, k, line[..last]), MoveAll(k, line[..last]), text + line[..last], line[last]);
      assert text + line[..last] + [line[last]] == text + line;
    }
  }

  lemma TypesOneMore(page: seq<byte>, k: Cursor, text: seq<byte>, c: byte)
    requires TextBefore(page, k, text) && RoomToErase(k) && Plain(c)
    requires |text| < CELLS - NUM_COLS && k.tx < CELLS - NUM_COLS
    ensures TextBefore(Draw(page, 0, k, c), Move(k, c), text + [c])
    ensures RoomToErase(Move(k, c)) && Move(k, c).tx == k.tx + 1
  {
    TypeOne(page, k, text, c);
    RoomKeptExactly(k, c);
    PlainMoves(k, c);
  }

  /** The prompt and a line are on the screen, with room to erase the line and to type another one. */
  predicate Prompted(page: seq<byte>, k: Cursor, prompt: seq<byte>, line: seq<byte>) {
    && TextBefore(page, k, prompt + line) && RoomToErase(k) && |line| <= k.tx
    && |prompt| + H.BUF_SIZE <= CELLS - NUM_COLS && k.tx - |line| + H.BUF_SIZE <= CELLS - NUM_COLS
  }

  /** Taking a line back and typing another one puts the other one in its place. */
  lemma ReplaceLine(page: seq<byte>, k: Cursor, prompt: seq<byte>, line: seq<byte>, other: seq<byte>)
    requires Prompted(page, k, prompt, line) && AllPlain(other) && |other| <= H.BUF_SIZE
    ensures var echo := Exchange(line, other);
      && Prompted(DrawAll(page, k, echo), MoveAll(k, echo), prompt, other)
      && MoveAll(k, echo).tx - |other| == k.tx - |line|
  {
    var back := Repeat(BACKSPACE, |line|);
    TakeBackMany(page, k, prompt, line, |line|);
    assert prompt + line[..0] == prompt;
    TypeMany(DrawAll(page, k, back), MoveAll(k, back), prompt, other);
    DrawAllConcat(page, k, back, other);
  }

  // ---------------------------------------------------------------------------------------------
  // The editor and the screen together
  // ---------------------------------------------------------------------------------------------

  /** A line without tabs and line breaks, and nothing behind it. */
  predicate NeatLine(line: H.Line) {
    && |line| == H.BUF_SIZE && |Strings.Text(line)| < H.BUF_SIZE && line == H.Padded(Strings.Text(line))
    && AllPlain(Strings.Text(line)) && H.TAB !in Strings.Text(line)
  }

  predicate Neat(e: H.Editor) {
    && H.Good(e) && NeatLine(e.buf) && e.idx == |Strings.Text(e.buf)|
    && forall s :: 0 <= s < H.SAVED_COMMANDS_SIZE ==> NeatLine(e.commands[s])
  }

  lemma NeatText(text: H.Line)
    requires |text| < H.BUF_SIZE && 0 !in text && AllPlain(text) && H.TAB !in text
    ensures NeatLine(H.Padded(text)) && Strings.Text(H.Padded(text)) == text
  {
    H.TextOfPadded(text);
  }

  predicate IsPlainKey(ev: H.Event) {
    ev.KeyUp? || ev.KeyDown? || ev.KeyBackspace? || (ev.KeyChar? && Plain(ev.c) && ev.c != 0 && ev.c != H.TAB)
  }

  /** What a key does to the line, and what it echoes. */
  function Spoken(e: H.Editor, ev: H.Event, other: H.Line): seq<byte>
    requires H.Sized(e)
  {
    var line := Strings.Text(e.buf);
    match ev
    case KeyChar(c) => if |line| < H.BUF_SIZE - 1 then [c] else []
    case KeyBackspace => [BACKSPACE]
    case _ => Said(ev, e.curr == e.top, line, other)
  }

  predicate LineFollows(e: H.Editor, ev: H.Event, other: H.Line)
    requires H.Sized(e)
  {
    var line := Strings.Text(e.buf);
    match ev
    case KeyChar(c) => other == if |line| < H.BUF_SIZE - 1 then line + [c] else line
    case KeyBackspace => other == if line == [] then line else line[..|line| - 1]
    case KeyDown => e.curr == e.top ==> other == line
    case _ => true
  }

  lemma CharStep(e: H.Editor, c: byte)
    requires Neat(e) && Plain(c) && c != 0 && c != H.TAB
    ensures KeyDone(e, H.KeyChar(c), H.Step(e, H.KeyChar(c)))
  {
    var line := Strings.Text(e.buf);
    if |line| < H.BUF_SIZE - 1 {
      assert H.Padded(line)[|line| := c] == H.Padded(line + [c]);
      NeatText(line + [c]);
    } else {
      assert e.echo + [] == e.echo;
    }
    H.StepKeepsGood(e, H.KeyChar(c));
  }

  lemma BackspaceStep(e: H.Editor)
    requires Neat(e)
    ensures KeyDone(e, H.KeyBackspace, H.Step(e, H.KeyBackspace))
  {
    var line := Strings.Text(e.buf);
    if line != [] {
      var last := |line| - 1;
      assert e.buf[last] == line[last] != H.TAB;
      assert H.Padded(line)[last := 0] == H.Padded(line[..last]);
      NeatText(line[..last]);
    }
    H.StepKeepsGood(e, H.KeyBackspace);
  }

  lemma RecalledNeat(e: H.Editor, slot: int)
    requires Neat(e) && -1 <= slot < H.SAVED_COMMANDS_SIZE
    ensures var r := H.Recalled(H.Saved(e), slot);
      && r.commands == e.commands[e.curr := e.buf] && NeatLine(r.buf) && r.idx == |Strings.Text(r.buf)|
  {
    NeatText([]);
    assert H.Padded([]) == H.EmptyLine();
    if slot >= 0 && e.history[slot] {
      var text := Strings.Text(H.Saved(e).commands[slot]);
      assert NeatLine(H.Saved(e).commands[slot]);
      RecalledIs(e, slot, text);
      NeatText(text);
    }
  }

  lemma ArrowStep(e: H.Editor, ev: H.Event)
    requires Neat(e) && (ev.KeyUp? || ev.KeyDown?)
    ensures KeyDone(e, ev, H.Step(e, ev))
  {
    H.StepKeepsGood(e, ev);
    if ev.KeyUp? {
      RecalledNeat(e, H.UpSlot(e));
    } else if e.curr != e.top {
      RecalledNeat(e, H.DownSlot(e));
    }
    ArrowEchoes(e, ev, Strings.Text(e.buf), Strings.Text(H.Step(e, ev).buf));
  }

  /** After a key the editor is neat again, its line is what the key makes of it, and its echo says how. */
  predicate KeyDone(e: H.Editor, ev: H.Event, r: H.Editor)
    requires H.Sized(e)
  {
    && Neat(r) && LineFollows(e, ev, Strings.Text(r.buf)) && r.echo == e.echo + Spoken(e, ev, Strings.Text(r.buf))
  }

  lemma KeyStep(e: H.Editor, ev: H.Event)
    requires Neat(e) && IsPlainKey(ev)
    ensures KeyDone(e, ev, H.Step(e, ev))
  {
    match ev {
      case KeyChar(c) => CharStep(e, c);
      case KeyBackspace => BackspaceStep(e);
      case _ => ArrowStep(e, ev);
    }
  }

  /** The cells after the prompt hold the editor's line, and terminal_x is its length. */
  predicate InStep(e: H.Editor, page: seq<byte>, k: Cursor, prompt: seq<byte>) {
    Neat(e) && Prompted(page, k, prompt, Strings.Text(e.buf)) && k.tx == e.idx
  }

  lemma DrawOne(page: seq<byte>, k: Cursor, c: byte)
    requires |page| == PAGE_BYTES
    ensures DrawAll(page, k, [c]) == Draw(page, 0, k, c) && MoveAll(k, [c]) == Move(k, c)
    ensures DrawAll(page, k, []) == page && MoveAll(k, []) == k
  {
    assert [c][..0] == [];
    assert DrawAll(page, k, []) == page && MoveAll(k, []) == k;
  }

  lemma CharOnScreen(page: seq<byte>, k: Cursor, prompt: seq<byte>, line: seq<byte>, c: byte)
    requires Prompted(page, k, prompt, line) && k.tx == |line| < H.BUF_SIZE - 1 && Plain(c)
    ensures Prompted(Draw(page, 0, k, c), Move(k, c), prompt, line + [c]) && Move(k, c).tx == |line| + 1
  {
    TypesOneMore(page, k, prompt + line, c);
    assert prompt + line + [c] == prompt + (line + [c]);
  }

  lemma BackspaceOnScreen(page: seq<byte>, k: Cursor, prompt: seq<byte>, line: seq<byte>)
    requires Prompted(page, k, prompt, line) && k.tx == |line| > 0
    ensures Prompted(Draw(page, 0, k, BACKSPACE), Move(k, BACKSPACE), prompt, line[..|line| - 1])
    ensures Move(k, BACKSPACE).tx == |line| - 1
  {
    TakeBackOne(page, k, prompt + line);
    BackspaceErasesPreceding(page, 0, k);
    assert (prompt + line)[..|prompt + line| - 1] == prompt + line[..|line| - 1];
  }

  /** With nothing to take back putc('\b') stores an attribute and nothing else. */
  lemma IdleBackspace(page: seq<byte>, k: Cursor, text: seq<byte>)
    requires TextBefore(page, k, text) && k.tx == 0
    ensures TextBefore(Draw(page, 0, k, BACKSPACE), k, text) && Move(k, BACKSPACE) == k
  {
    MoveIsAdvance(k, BACKSPACE);
    forall i | 0 <= i < |text|
      ensures CharAt(Draw(page, 0, k, BACKSPACE), Linear(k) - |text| + i) == text[i]
    {
      assert CharAt(page, Linear(k) - |text| + i) == text[i];
    }
  }

  /** A backspace on an empty line: the last character of the prompt goes exactly when terminal_x is not 0. */
  lemma BackspaceEatsPromptExactly(page: seq<byte>, k: Cursor, prompt: seq<byte>)
    requires Prompted(page, k, prompt, []) && prompt != [] && prompt[|prompt| - 1] != 0
    ensures var page', k', last := Draw(page, 0, k, BACKSPACE), Move(k, BACKSPACE), |prompt| - 1;
      && (CharAt(page', Linear(k) - 1) == prompt[last] <==> k.tx == 0)
      && Prompted(page', k', if k.tx == 0 then prompt else prompt[..last], [])
  {
    var last := |prompt| - 1;
    assert prompt + [] == prompt && prompt[..last] + [] == prompt[..last];
    assert CharAt(page, Linear(k) - |prompt| + last) == prompt[last];
    if k.tx == 0 {
      IdleBackspace(page, k, prompt);
      assert CharAt(Draw(page, 0, k, BACKSPACE), Linear(k) - |prompt| + last) == prompt[last];
    } else {
      TakeBackOne(page, k, prompt);
      BackspaceErasesPreceding(page, 0, k);
    }
  }

  lemma ArrowOnScreen(e: H.Editor, ev: H.Event, r: H.Editor, page: seq<byte>, k: Cursor, prompt: seq<byte>)
    requires InStep(e, page, k, prompt) && (ev.KeyUp? || ev.KeyDown?) && KeyDone(e, ev, r)
    ensures InStepAfter(r, Spoken(e, ev, Strings.Text(r.buf)), page, k, prompt)
  {
    if ev.KeyUp? || e.curr != e.top {
      ReplaceLine(page, k, prompt, Strings.Text(e.buf), Strings.Text(r.buf));
    }
  }

  lemma BackspaceKeyOnScreen(e: H.Editor, r: H.Editor, page: seq<byte>, k: Cursor, prompt: seq<byte>)
    requires InStep(e, page, k, prompt) && KeyDone(e, H.KeyBackspace, r)
    ensures InStepAfter(r, [BACKSPACE], page, k, prompt)
  {
    var line := Strings.Text(e.buf);
    DrawOne(page, k, BACKSPACE);
    if line == [] {
      IdleBackspace(page, k, prompt + line);
    } else {
      BackspaceOnScreen(page, k, prompt, line);
    }
  }

  lemma KeyOnScreen(e: H.Editor, ev: H.Event, r: H.Editor, page: seq<byte>, k: Cursor, prompt: seq<byte>)
    requires InStep(e, page, k, prompt) && IsPlainKey(ev) && KeyDone(e, ev, r)
    ensures InStepAfter(r, Spoken(e, ev, Strings.Text(r.buf)), page, k, prompt)
  {
    var line := Strings.Text(e.buf);
    if ev.KeyUp? || ev.KeyDown? {
      ArrowOnScreen(e, ev, r, page, k, prompt);
    } else if ev.KeyBackspace? {
      BackspaceKeyOnScreen(e, r, page, k, prompt);
    } else {
      DrawOne(page, k, ev.c);
      if |line| < H.BUF_SIZE - 1 {
        CharOnScreen(page, k, prompt, line, ev.c);
      }
    }
  }

  predicate PlainKeys(events: seq<H.Event>) {
    forall i :: 0 <= i < |events| ==> IsPlainKey(events[i])
  }

  /** In step once these bytes have been drawn. */
  predicate InStepAfter(r: H.Editor, echo: seq<byte>, page: seq<byte>, k: Cursor, prompt: seq<byte>)
    requires |page| == PAGE_BYTES
  {
    InStep(r, DrawAll(page, k, echo), MoveAll(k, echo), prompt)
  }

  /** The editor and the screen after a run, which has drawn what the editor echoed. */
  predicate OnScreenAfter(e: H.Editor, r: H.Editor, page: seq<byte>, k: Cursor, prompt: seq<byte>)
    requires |page| == PAGE_BYTES
  {
    && |e.echo| <= |r.echo| && r.echo[..|e.echo|] == e.echo
    && InStepAfter(r, r.echo[|e.echo|..], page, k, prompt)
  }

  lemma MoreDrawn(r: H.Editor, echo: seq<byte>, spoken: seq<byte>, page: seq<byte>, k: Cursor, prompt: seq<byte>)
    requires |page| == PAGE_BYTES && InStepAfter(r, spoken, DrawAll(page, k, echo), MoveAll(k, echo), prompt)
    ensures InStepAfter(r, echo + spoken, page, k, prompt)
  {
    DrawAllConcat(page, k, echo, spoken);
  }

  lemma MoreEchoed(a: seq<byte>, b: seq<byte>, c: seq<byte>)
    requires |a| <= |b| && b[..|a|] == a
    ensures (b + c)[..|a|] == a && (b + c)[|a|..] == b[|a|..] + c
  {
  }

  lemma OneMoreEcho(e: H.Editor, m: H.Editor, r: H.Editor, spoken: seq<byte>, page: seq<byte>, k: Cursor,
                    prompt: seq<byte>)
    requires |page| == PAGE_BYTES && |e.echo| <= |m.echo| && m.echo[..|e.echo|] == e.echo && r.echo == m.echo + spoken
    requires var echo := m.echo[|e.echo|..];
      InStepAfter(r, spoken, DrawAll(page, k, echo), MoveAll(k, echo), prompt)
    ensures OnScreenAfter(e, r, page, k, prompt)
  {
    MoreDrawn(r, m.echo[|e.echo|..], spoken, page, k, prompt);
    MoreEchoed(e.echo, m.echo, spoken);
  }

  lemma OneMoreKey(e: H.Editor, m: H.Editor, ev: H.Event, page: seq<byte>, k: Cursor, prompt: seq<byte>)
    requires |page| == PAGE_BYTES && OnScreenAfter(e, m, page, k, prompt) && IsPlainKey(ev)
    ensures OnScreenAfter(e, H.Step(m, ev), page, k, prompt)
  {
    var r, echo := H.Step(m, ev), m.echo[|e.echo|..];
    KeyStep(m, ev);
    KeyOnScreen(m, ev, r, DrawAll(page, k, echo), MoveAll(k, echo), prompt);
    OneMoreEcho(e, m, r, Spoken(m, ev, Strings.Text(r.buf)), page, k, prompt);
  }

  /** The editor and the screen stay in step over every run of characters, backspaces, Up and Down: from an empty line
      after a prompt, with terminal_x at 0, the cells after the prompt always hold the editor's line. */
  lemma {:induction false} StaysInStep(e: H.Editor, page: seq<byte>, k: Cursor, prompt: seq<byte>, events: seq<H.Event>)
    requires InStep(e, page, k, prompt) && PlainKeys(events)
    ensures OnScreenAfter(e, H.Run(e, events), page, k, prompt)
    decreases |events|
  {
    if events == [] {
      DrawOne(page, k, BACKSPACE);
      assert e.echo[|e.echo|..] == [];
    } else {
      var init, ev := events[..|events| - 1], events[|events| - 1];
      assert init + [ev] == events;
      StaysInStep(e, page, k, prompt, init);
      RunAppends(e, init, ev);
      OneMoreKey(e, H.Run(e, init), ev, page, k, prompt);
    }
  }

  // ---------------------------------------------------------------------------------------------
  // From boot
  // ---------------------------------------------------------------------------------------------

  /** A line of printable characters. */
  predicate IsPrintable(line: H.Line) {
    |line| < H.BUF_SIZE && 0 !in line && H.TAB !in line && AllPlain(line)
  }

  predicate Printable(lines: seq<H.Line>) {
    forall i :: 0 <= i < |lines| ==> IsPrintable(lines[i])
  }

  lemma {:induction false} PrintableTyped(line: H.Line)
    requires H.TAB !in line
    ensures Typed(line) && |Keys(line)| == |line| && forall i :: 0 <= i < |line| ==> Keys(line)[i] == H.KeyChar(line[i])
  {
    if line != [] {
      PrintableTyped(line[..|line| - 1]);
    }
  }

  lemma PrintableLines(lines: seq<H.Line>)
    requires Printable(lines)
    ensures AreLines(lines)
  {
    forall i | 0 <= i < |lines|
      ensures IsLine(lines[i])
    {
      PrintableTyped(lines[i]);
    }
  }

  lemma EnteredNeat(e: H.Editor, line: H.Line)
    requires Neat(e) && Waiting(e) && IsPrintable(line) && IsLine(line)
    ensures Neat(Entered(e, line)) && Waiting(Entered(e, line))
  {
    EnteredIs(e, line);
    NeatText(line);
  }

  /** After any printable lines the editor waits, with a neat ring. */
  lemma {:induction false} EnteredAllNeat(lines: seq<H.Line>)
    requires Printable(lines) && AreLines(lines)
    ensures Neat(EnteredAll(lines)) && Waiting(EnteredAll(lines))
  {
    if lines == [] {
      NeatText([]);
      assert H.Padded([]) == H.EmptyLine();
    } else {
      var last := |lines| - 1;
      EnteredAllNeat(lines[..last]);
      EnteredNeat(EnteredAll(lines[..last]), lines[last]);
    }
  }

  /** After any printable lines and a prompt that leaves terminal_x at 0, whatever characters, backspaces and arrows
      follow, the cells from the prompt on hold the line in the editor's buffer. */
  lemma LineOnScreen(lines: seq<H.Line>, page: seq<byte>, k: Cursor, prompt: seq<byte>, events: seq<H.Event>)
    requires Printable(lines) && PlainKeys(events)
    requires Prompted(page, k, prompt, []) && k.tx == 0
    ensures AreLines(lines) && OnScreenAfter(EnteredAll(lines), H.Run(EnteredAll(lines), events), page, k, prompt)
  {
    PrintableLines(lines);
    EnteredAllNeat(lines);
    NeatText([]);
    assert H.Padded([]) == H.EmptyLine();
    StaysInStep(EnteredAll(lines), page, k, prompt, events);
  }

  lemma {:induction false} RunConcat(e: H.Editor, a: seq<H.Event>, b: seq<H.Event>)
    requires H.Good(e) && (forall i :: 0 <= i < |a| ==> H.IsEvent(a[i])) && forall i :: 0 <= i < |b| ==> H.IsEvent(b[i])
    ensures H.Run(e, a + b) == H.Run(H.Run(e, a), b)
    decreases |b|
  {
    if b == [] {
      assert a + b == a;
    } else {
      var last := |b| - 1;
      assert a + b == (a + b[..last]) + [b[last]] && b[..last] + [b[last]] == b;
      RunConcat(e, a, b[..last]);
      RunAppends(e, a + b[..last], b[last]);
      RunAppends(H.Run(e, a), b[..last], b[last]);
    }
  }

  /** A draft typed after the prompt, and then j presses of Up: the cells from the prompt on hold the j-th last command,
      for j up to 31. */
  lemma UpShowsOnScreen(lines: seq<H.Line>, draft: H.Line, j: nat, page: seq<byte>, k: Cursor, prompt: seq<byte>)
    requires Printable(lines) && IsPrintable(draft) && AreLines(lines) && IsLine(draft)
    requires 1 <= j <= |Kept(lines)| && j <= 31
    requires Prompted(page, k, prompt, []) && k.tx == 0
    ensures var e, keys := EnteredAll(lines), Keys(draft) + Ups(j);
      && PlainKeys(keys) && Strings.Text(H.Run(e, keys).buf) == Kept(lines)[|Kept(lines)| - j]
      && OnScreenAfter(e, H.Run(e, keys), page, k, prompt)
  {
    DraftKeys(draft, j);
    LineOnScreen(lines, page, k, prompt, Keys(draft) + Ups(j));
    RunConcat(EnteredAll(lines), Keys(draft), Ups(j));
    RecalledText(lines, draft, j);
  }

  lemma DraftKeys(draft: H.Line, j: nat)
    requires IsPrintable(draft) && Typed(draft)
    ensures PlainKeys(Keys(draft) + Ups(j))
  {
    PrintableTyped(draft);
  }

  lemma RecalledText(lines: seq<H.Line>, draft: H.Line, j: nat)
    requires AreLines(lines) && IsLine(draft) && 1 <= j <= |Kept(lines)| && j <= 31
    ensures Strings.Text(H.Run(Drafted(lines, draft), Ups(j)).buf) == Kept(lines)[|Kept(lines)| - j]
  {
    UpRecalls(lines, draft, j);
    assert IsCommand(Kept(lines)[|Kept(lines)| - j]);
    H.TextOfPadded(Kept(lines)[|Kept(lines)| - j]);
  }
}
