/** One text screen of 80 by 25 cells in a page of memory: what putc, scroll_up and clear do to it. */
module Screen {
  import Strings

  const NUM_COLS := 80
  const NUM_ROWS := 25
  const ROW_BYTES := 160
  const SCREEN_BYTES := 4000
  const PAGE_BYTES := 4096

  type byte = Strings.byte

  const ATTRIB: byte := 0x0C
  const BACKSPACE: byte := 8
  const NEWLINE: byte := 10
  const RETURN: byte := 13
  const SPACE: byte := 32

  /** screen_x, screen_y and terminal_x */
  datatype Cursor = Cursor(x: int, y: int, tx: int)

  predicate Breaks(c: byte) {
    c == NEWLINE || c == RETURN
  }

  predicate Plain(c: byte) {
    !Breaks(c) && c != BACKSPACE
  }

  predicate OnScreen(k: Cursor) {
    0 <= k.x < NUM_COLS && 0 <= k.y < NUM_ROWS
  }

  /** The cursor as a cell number. */
  function Linear(k: Cursor): int {
    NUM_COLS * k.y + k.x
  }

  /** The remainder of C: its sign is that of the dividend. */
  function CRem(a: int, b: int): int
    requires b > 0
  {
    if a >= 0 then a % b else -((-a) % b)
  }

  // ---------------------------------------------------------------------------------------------
  // putc on the cursor
  // ---------------------------------------------------------------------------------------------

  /** The cursor after the character itself, before the bounds check. */
  function Step(k: Cursor, c: byte): Cursor {
    if c == BACKSPACE then
      if k.tx != 0 then Cursor(k.x - 1, k.y, k.tx - 1) else k
    else Cursor(k.x + 1, k.y, k.tx + 1)
  }

  predicate Scrolls(k: Cursor, c: byte) {
    k.y + 1 == NUM_ROWS && (Breaks(c) || Step(k, c).x == NUM_COLS)
  }

  function Wrap(k: Cursor): Cursor {
    if k.x == NUM_COLS then
      Cursor(0, if k.y + 1 == NUM_ROWS then k.y else k.y + 1, k.tx)
    else if k.x < 0 then Cursor(NUM_COLS - 1, k.y - 1, k.tx)
    else k
  }

  function Move(k: Cursor, c: byte): Cursor {
    if Breaks(c) then Cursor(0, if k.y + 1 == NUM_ROWS then k.y else k.y + 1, 0)
    else
      var w := Wrap(Step(k, c));
      Cursor(CRem(w.x, NUM_COLS), CRem(w.y + w.x / NUM_COLS, NUM_ROWS), w.tx)
  }

  /** Without the final remainders, which change nothing while the cursor is on the screen. */
  function Advance(k: Cursor, c: byte): Cursor {
    if Breaks(c) then Cursor(0, if k.y + 1 == NUM_ROWS then k.y else k.y + 1, 0) else Wrap(Step(k, c))
  }

  lemma MoveIsAdvance(k: Cursor, c: byte)
    requires OnScreen(k) && !FallsOff(k, c)
    ensures Move(k, c) == Advance(k, c) && OnScreen(Move(k, c))
  {
  }

  lemma NextCell(p: nat)
    ensures if p % NUM_COLS == NUM_COLS - 1 then (p + 1) / NUM_COLS == p / NUM_COLS + 1 && (p + 1) % NUM_COLS == 0
            else (p + 1) / NUM_COLS == p / NUM_COLS && (p + 1) % NUM_COLS == p % NUM_COLS + 1
  {
  }

  lemma RowStart(row: nat)
    ensures (row * NUM_COLS) / NUM_COLS == row && (row * NUM_COLS) % NUM_COLS == 0
  {
  }

  // ---------------------------------------------------------------------------------------------
  // putc on memory, with the screen at address base
  // ---------------------------------------------------------------------------------------------

  predicate Fits(mem: seq<byte>, base: int) {
    0 <= base && base + PAGE_BYTES <= |mem|
  }

  /** A store; one outside the modelled memory leaves that memory alone. */
  function Store(mem: seq<byte>, a: int, v: byte): (r: seq<byte>)
    ensures |r| == |mem|
  {
    if 0 <= a < |mem| then mem[a := v] else mem
  }

  function CellAddress(base: int, k: Cursor): int {
    base + 2 * Linear(k)
  }

  function Scroll(mem: seq<byte>, base: int): (r: seq<byte>)
    requires Fits(mem, base)
    ensures |r| == |mem|
  {
    seq(|mem|, i requires 0 <= i < |mem| =>
      if base <= i < base + SCREEN_BYTES - ROW_BYTES then mem[i + ROW_BYTES]
      else if base + SCREEN_BYTES - ROW_BYTES <= i < base + SCREEN_BYTES then
        if (i - base) % 2 == 0 then 0 else ATTRIB
      else mem[i])
  }

  function Cleared(mem: seq<byte>, base: int): (r: seq<byte>)
    requires Fits(mem, base)
    ensures |r| == |mem|
  {
    seq(|mem|, i requires 0 <= i < |mem| =>
      if base <= i < base + SCREEN_BYTES then
        if (i - base) % 2 == 0 then SPACE else ATTRIB
      else mem[i])
  }

  /** The character store alone. */
  function Ink(mem: seq<byte>, base: int, k: Cursor, c: byte): (r: seq<byte>)
    ensures |r| == |mem|
  {
    if c != BACKSPACE then Store(mem, CellAddress(base, k), c)
    else if k.tx != 0 then Store(mem, CellAddress(base, Step(k, c)), 0)
    else mem
  }

  function Draw(mem: seq<byte>, base: int, k: Cursor, c: byte): (r: seq<byte>)
    requires Fits(mem, base)
    ensures |r| == |mem|
  {
    var inked := if Breaks(c) then mem else Ink(mem, base, k, c);
    var scrolled := if Scrolls(k, c) then Scroll(inked, base) else inked;
    if Breaks(c) then scrolled else Store(scrolled, CellAddress(base, Wrap(Step(k, c))) + 1, ATTRIB)
  }

  // ---------------------------------------------------------------------------------------------
  // Staying on the screen
  // ---------------------------------------------------------------------------------------------

  /** A backspace in the first cell that still has characters to take back. */
  predicate FallsOff(k: Cursor, c: byte) {
    c == BACKSPACE && k.tx != 0 && k.x == 0 && k.y == 0
  }

  /** putc keeps the cursor on the screen exactly when it does not fall off. */
  lemma StaysOnScreenExactly(k: Cursor, c: byte)
    requires OnScreen(k)
    ensures OnScreen(Move(k, c)) <==> !FallsOff(k, c)
    ensures FallsOff(k, c) ==> Move(k, c) == Cursor(NUM_COLS - 1, -1, k.tx - 1)
  {
  }

  predicate StoresChar(k: Cursor, c: byte) {
    !Breaks(c) && (c != BACKSPACE || k.tx != 0)
  }

  /** Where putc stores the character, or the NUL of a backspace, and where it stores the attribute. */
  function CharAddress(base: int, k: Cursor, c: byte): int {
    CellAddress(base, if c == BACKSPACE then Step(k, c) else k)
  }

  function CharValue(c: byte): byte {
    if c == BACKSPACE then 0 else c
  }

  function AttributeAddress(base: int, k: Cursor, c: byte): int {
    CellAddress(base, Wrap(Step(k, c))) + 1
  }

  /** What putc does to its own page does not depend on the address of the page, wherever the cursor is. */
  lemma DrawOwnPage(mem: seq<byte>, base: int, k: Cursor, c: byte)
    requires Fits(mem, base)
    ensures Draw(mem, base, k, c)[base..base + PAGE_BYTES] == Draw(mem[base..base + PAGE_BYTES], 0, k, c)
  {
    var page := mem[base..base + PAGE_BYTES];
    var inked, inkedPage := Ink(mem, base, k, c), Ink(page, 0, k, c);
    assert inked[base..base + PAGE_BYTES] == inkedPage;
    assert Scroll(inked, base)[base..base + PAGE_BYTES] == Scroll(inkedPage, 0);
    assert Scroll(mem, base)[base..base + PAGE_BYTES] == Scroll(page, 0);
  }

  /** Outside its page putc changes the two bytes it stores and nothing else. */
  lemma DrawElsewhere(mem: seq<byte>, base: int, k: Cursor, c: byte, a: int)
    requires Fits(mem, base) && 0 <= a < |mem| && !(base <= a < base + PAGE_BYTES)
    ensures Draw(mem, base, k, c)[a] ==
      if !Breaks(c) && a == AttributeAddress(base, k, c) then ATTRIB
      else if StoresChar(k, c) && a == CharAddress(base, k, c) then CharValue(c)
      else mem[a]
  {
  }

  lemma StoresOnPage(base: int, k: Cursor, c: byte)
    requires OnScreen(k) && !FallsOff(k, c)
    ensures !Breaks(c) ==> base <= AttributeAddress(base, k, c) < base + PAGE_BYTES
    ensures StoresChar(k, c) ==> base <= CharAddress(base, k, c) < base + PAGE_BYTES
  {
  }

  lemma SplitAt(mem: seq<byte>, mem': seq<byte>, from: nat, to: nat)
    requires from <= to <= |mem| == |mem'|
    requires forall a :: 0 <= a < |mem| && !(from <= a < to) ==> mem'[a] == mem[a]
    ensures mem' == mem[..from] + mem'[from..to] + mem[to..]
  {
  }

  /** A putc that stays on the screen reads and writes its page alone, whatever the address of the page. */
  lemma DrawIsLocal(mem: seq<byte>, base: int, k: Cursor, c: byte)
    requires Fits(mem, base) && OnScreen(k) && !FallsOff(k, c)
    ensures Draw(mem, base, k, c) ==
      mem[..base] + Draw(mem[base..base + PAGE_BYTES], 0, k, c) + mem[base + PAGE_BYTES..]
  {
    DrawOwnPage(mem, base, k, c);
    forall a | 0 <= a < |mem| && !(base <= a < base + PAGE_BYTES)
      ensures Draw(mem, base, k, c)[a] == mem[a]
    {
      DrawElsewhere(mem, base, k, c, a);
      StoresOnPage(base, k, c);
    }
    SplitAt(mem, Draw(mem, base, k, c), base, base + PAGE_BYTES);
  }

  lemma ClearIsLocal(mem: seq<byte>, base: int)
    requires Fits(mem, base)
    ensures Cleared(mem, base) == mem[..base] + Cleared(mem[base..base + PAGE_BYTES], 0) + mem[base + PAGE_BYTES..]
  {
  }

  /** There are at least as many cells before the cursor as characters that a backspace may take back. */
  predicate RoomToErase(k: Cursor) {
    OnScreen(k) && 0 <= k.tx <= Linear(k)
  }

  /** The room is kept by every putc but one: a character that scrolls the screen after 1920 others. */
  lemma RoomKeptExactly(k: Cursor, c: byte)
    requires RoomToErase(k)
    ensures !FallsOff(k, c)
    ensures RoomToErase(Move(k, c)) <==> !(Plain(c) && Scrolls(k, c) && k.tx >= 1920)
  {
  }

  /** Every backspace with something to take back blanks the preceding cell, across row ends too. */
  lemma BackspaceErasesPreceding(mem: seq<byte>, base: int, k: Cursor)
    requires Fits(mem, base) && RoomToErase(k) && k.tx > 0
    ensures var k' := Move(k, BACKSPACE);
      && Linear(k') == Linear(k) - 1 && k'.tx == k.tx - 1 && RoomToErase(k')
      && Draw(mem, base, k, BACKSPACE) == mem[base + 2 * Linear(k') := 0][base + 2 * Linear(k') + 1 := ATTRIB]
  {
    MoveIsAdvance(k, BACKSPACE);
    PrecedingCell(k);
    StoresOnPage(base, k, BACKSPACE);
  }

  lemma PrecedingCell(k: Cursor)
    requires OnScreen(k) && 0 < k.tx <= Linear(k)
    ensures Linear(Step(k, BACKSPACE)) == Linear(Wrap(Step(k, BACKSPACE))) == Linear(k) - 1
    ensures Wrap(Step(k, BACKSPACE)).tx == k.tx - 1 && !Scrolls(k, BACKSPACE)
  {
  }

  /** clear() leaves terminal_x alone, so a backspace after it stays on the screen exactly when there was
      nothing to take back. */
  lemma BackspaceAfterClear(tx: int)
    ensures OnScreen(Move(Cursor(0, 0, tx), BACKSPACE)) <==> tx == 0
  {
  }

  // ---------------------------------------------------------------------------------------------
  // putc in bytes
  // ---------------------------------------------------------------------------------------------

  /** Every row of the screen holds what the row below it held, and the last one NULs in light red. */
  predicate ScrolledUp(mem: seq<byte>, mem': seq<byte>, base: int) {
    && 0 <= base && base + 4000 <= |mem| == |mem'|
    && forall a {:trigger mem'[a]} :: 0 <= a < |mem| ==>
         mem'[a] == if base <= a < base + 3840 then mem[a + 160]
                    else if base + 3840 <= a < base + 4000 then (if (a - base) % 2 == 0 then 0 else 0x0C)
                    else mem[a]
  }

  /** A line break goes to the start of the next row, or of the last row after a scroll; it stores no character, and
      leaves a backspace nothing to take back. */
  predicate BreakDone(mem: seq<byte>, base: int, k: Cursor, mem': seq<byte>, k': Cursor) {
    && k' == Cursor(0, if k.y < 24 then k.y + 1 else 24, 0)
    && if k.y < 24 then mem' == mem else ScrolledUp(mem, mem', base)
  }

  /** Any other character but a backspace is stored at the cursor, and the cursor goes one cell on, where it stores the
      attribute; after the last cell the screen scrolls. */
  predicate CharDone(mem: seq<byte>, base: int, k: Cursor, c: byte, mem': seq<byte>, k': Cursor) {
    var at := base + 2 * (80 * k.y + k.x);
    && 0 <= at && at + 3 < |mem| && k'.tx == k.tx + 1
    && if k.x == 79 && k.y == 24 then k'.x == 0 && k'.y == 24 && ScrolledUp(mem[at := c], mem', base)
       else 80 * k'.y + k'.x == 80 * k.y + k.x + 1 && 0 <= k'.x < 80 && mem' == mem[at := c][at + 3 := 0x0C]
  }

  /** A backspace goes one cell back and stores a NUL there, if there is something to take back; before the first cell
      it stores into the two bytes below the page, if they are modelled. */
  predicate BackspaceDone(mem: seq<byte>, base: int, k: Cursor, mem': seq<byte>, k': Cursor) {
    var at := base + 2 * (80 * k.y + k.x);
    && 0 <= at && at + 1 < |mem|
    && if k.tx == 0 then k' == k && mem' == mem[at + 1 := 0x0C]
       else
         && k'.tx == k.tx - 1 && 80 * k'.y + k'.x == 80 * k.y + k.x - 1 && 0 <= k'.x < 80
         && |mem'| == |mem| && forall a {:trigger mem'[a]} :: 0 <= a < |mem| ==>
              mem'[a] == if a == at - 2 then 0 else if a == at - 1 then 0x0C else mem[a]
  }

  lemma ScrollsUp(mem: seq<byte>, base: int)
    requires Fits(mem, base)
    ensures ScrolledUp(mem, Scroll(mem, base), base)
    ensures Scroll(mem, base) == Scroll(mem, base)[base + 3841 := 0x0C]
  {
  }

  lemma BreakExactly(mem: seq<byte>, base: int, k: Cursor, c: byte)
    requires Fits(mem, base) && OnScreen(k) && (c == 10 || c == 13)
    ensures BreakDone(mem, base, k, Draw(mem, base, k, c), Move(k, c))
  {
    ScrollsUp(mem, base);
  }

  lemma CharExactly(mem: seq<byte>, base: int, k: Cursor, c: byte)
    requires Fits(mem, base) && OnScreen(k) && c != 8 && c != 10 && c != 13
    ensures CharDone(mem, base, k, c, Draw(mem, base, k, c), Move(k, c))
  {
    MoveIsAdvance(k, c);
    ScrollsUp(mem[base + 2 * (80 * k.y + k.x) := c], base);
  }

  lemma BackspaceExactly(mem: seq<byte>, base: int, k: Cursor)
    requires Fits(mem, base) && OnScreen(k)
    ensures BackspaceDone(mem, base, k, Draw(mem, base, k, 8), Move(k, 8))
  {
    if !FallsOff(k, 8) {
      MoveIsAdvance(k, 8);
    }
  }

  /** putc by the value of the byte: 10 and 13 break the line, 8 takes back, and every other byte is a character. */
  ghost predicate PutcDone(mem: seq<byte>, base: int, k: Cursor, c: byte, mem': seq<byte>, k': Cursor) {
    && (c == 10 || c == 13 ==> BreakDone(mem, base, k, mem', k'))
    && (c == 8 ==> BackspaceDone(mem, base, k, mem', k'))
    && (c != 8 && c != 10 && c != 13 ==> CharDone(mem, base, k, c, mem', k'))
  }

  lemma PutcExactly(mem: seq<byte>, base: int, k: Cursor, c: byte)
    requires Fits(mem, base) && OnScreen(k)
    ensures PutcDone(mem, base, k, c, Draw(mem, base, k, c), Move(k, c))
  {
    if c == 10 || c == 13 {
      BreakExactly(mem, base, k, c);
    } else if c == 8 {
      BackspaceExactly(mem, base, k);
    } else {
      CharExactly(mem, base, k, c);
    }
  }

  // ---------------------------------------------------------------------------------------------
  // Runs of putc
  // ---------------------------------------------------------------------------------------------

  /** The cursor after a run of characters. */
  function MoveAll(k: Cursor, text: seq<byte>): Cursor {
    if text == [] then k else Move(MoveAll(k, text[..|text| - 1]), text[|text| - 1])
  }

  /** The screen page after a run of characters. */
  function DrawAll(page: seq<byte>, k: Cursor, text: seq<byte>): (r: seq<byte>)
    requires |page| == PAGE_BYTES
    ensures |r| == PAGE_BYTES
  {
    if text == [] then page
    else
      var last := |text| - 1;
      Draw(DrawAll(page, k, text[..last]), 0, MoveAll(k, text[..last]), text[last])
  }

  /** Characters typed since the last line break. */
  function SinceBreak(text: seq<byte>): (n: nat)
    ensures n <= |text|
  {
    if text == [] || Breaks(text[|text| - 1]) then 0
    else SinceBreak(text[..|text| - 1]) + (if Plain(text[|text| - 1]) then 1 else 0)
  }

  /** Backspace safety over runs: a text that never has more than 1920 characters since its last line break
      stays on the screen throughout, and always leaves room to take back what it may take back. */
  lemma {:induction false} BackspaceSafe(text: seq<byte>)
    requires forall n :: 0 <= n <= |text| ==> SinceBreak(text[..n]) <= 1920
    ensures RoomToErase(MoveAll(Cursor(0, 0, 0), text))
    ensures MoveAll(Cursor(0, 0, 0), text).tx <= SinceBreak(text)
  {
    if text != [] {
      var last := |text| - 1;
      assert text[..|text|] == text;
      forall n | 0 <= n <= last
        ensures text[..last][..n] == text[..n]
      {
      }
      BackspaceSafe(text[..last]);
      RoomKeptExactly(MoveAll(Cursor(0, 0, 0), text[..last]), text[last]);
    }
  }

  function Repeat(c: byte, n: nat): (text: seq<byte>)
    ensures |text| == n && forall i :: 0 <= i < n ==> text[i] == c
  {
    seq(n, _ => c)
  }

  lemma MoveRepeat(k: Cursor, c: byte, n: nat)
    requires n > 0
    ensures MoveAll(k, Repeat(c, n)) == Move(MoveAll(k, Repeat(c, n - 1)), c)
  {
    assert Repeat(c, n)[..n - 1] == Repeat(c, n - 1);
  }

  /** The cursor after n plain characters from the top of a screen. */
  function BurstAt(n: nat): Cursor {
    Cursor(n % NUM_COLS, if n / NUM_COLS < NUM_ROWS then n / NUM_COLS else NUM_ROWS - 1, n)
  }

  lemma BurstStep(c: byte, n: nat)
    requires Plain(c)
    ensures Move(BurstAt(n), c) == BurstAt(n + 1)
  {
    NextCell(n);
    MoveIsAdvance(BurstAt(n), c);
  }

  lemma {:induction false} BurstCursor(c: byte, n: nat)
    requires Plain(c)
    ensures MoveAll(Cursor(0, 0, 0), Repeat(c, n)) == BurstAt(n)
  {
    if n > 0 {
      MoveRepeat(Cursor(0, 0, 0), c, n);
      BurstCursor(c, n - 1);
      BurstStep(c, n - 1);
    }
  }

  lemma {:induction false} TakeBack(k: Cursor, m: nat)
    requires OnScreen(k) && m <= k.tx && m <= Linear(k)
    ensures var k' := MoveAll(k, Repeat(BACKSPACE, m));
      OnScreen(k') && Linear(k') == Linear(k) - m && k'.tx == k.tx - m
  {
    if m > 0 {
      MoveRepeat(k, BACKSPACE, m);
      TakeBack(k, m - 1);
      MoveIsAdvance(MoveAll(k, Repeat(BACKSPACE, m - 1)), BACKSPACE);
    }
  }

  /** How far the promise goes without line breaks: among m backspaces after n characters, one falls off the
      screen exactly when the screen has scrolled and all that is left on it has been taken back. */
  lemma BurstFallsOffExactly(c: byte, n: nat, m: nat)
    requires Plain(c) && m <= n
    ensures var k := MoveAll(Cursor(0, 0, 0), Repeat(c, n));
      (exists j: nat :: j < m && FallsOff(MoveAll(k, Repeat(BACKSPACE, j)), BACKSPACE)) <==>
        n >= 2000 && m > 1920 + n % NUM_COLS
  {
    BurstCursor(c, n);
    var k := MoveAll(Cursor(0, 0, 0), Repeat(c, n));
    forall j: nat | j < m && j <= Linear(k)
      ensures FallsOff(MoveAll(k, Repeat(BACKSPACE, j)), BACKSPACE) <==> j == Linear(k) && j < n
    {
      TakeBack(k, j);
    }
    if Linear(k) < m {
      assert FallsOff(MoveAll(k, Repeat(BACKSPACE, Linear(k))), BACKSPACE);
    }
  }

  // ---------------------------------------------------------------------------------------------
  // The unbounded tape
  // ---------------------------------------------------------------------------------------------

  /** How many characters a backspace may take back after a text, from tx on. */
  function TapeTx(tx: int, text: seq<byte>): int {
    if text == [] then tx
    else
      var before, c := TapeTx(tx, text[..|text| - 1]), text[|text| - 1];
      if Breaks(c) then 0 else if c != BACKSPACE then before + 1 else if before != 0 then before - 1 else 0
  }

  /** Where the next character goes on a tape that is laid out 80 to a row and never scrolls. A backspace goes one back,
      if there is something to take back. */
  function TapePos(tx: int, text: seq<byte>): int {
    if text == [] then 0
    else
      var init, c := text[..|text| - 1], text[|text| - 1];
      var before := TapePos(tx, init);
      if Breaks(c) then (before / NUM_COLS + 1) * NUM_COLS
      else if c != BACKSPACE then before + 1
      else if TapeTx(tx, init) != 0 then before - 1
      else before
  }

  /** The character writes at this place of the tape: a backspace a NUL, one place back. */
  predicate WritesAt(tx: int, text: seq<byte>, c: byte, p: int) {
    !Breaks(c) && if c != BACKSPACE then p == TapePos(tx, text) else TapeTx(tx, text) != 0 && p == TapePos(tx, text) - 1
  }

  /** What is written at a place of the tape. Blanks are spaces in the first 25 rows and NUL below them. */
  function TapeAt(tx: int, text: seq<byte>, p: int): byte {
    if text == [] then (if p < NUM_ROWS * NUM_COLS then SPACE else 0)
    else
      var last := |text| - 1;
      if WritesAt(tx, text[..last], text[last], p) then CharValue(text[last]) else TapeAt(tx, text[..last], p)
  }

  /** The first tape row that is still on the screen: it moves down when the tape goes past the 25th row from it. */
  function TopRow(tx: int, text: seq<byte>): (top: nat)
    ensures TapePos(tx, text) < NUM_COLS * (top + NUM_ROWS)
  {
    if text == [] then 0
    else
      var before, row := TopRow(tx, text[..|text| - 1]), TapePos(tx, text) / NUM_COLS;
      if row < before + NUM_ROWS then before else row - (NUM_ROWS - 1)
  }

  lemma {:induction false} TapeBlankBelow(tx: int, text: seq<byte>, p: int)
    requires p >= NUM_COLS * (TopRow(tx, text) + NUM_ROWS)
    ensures TapeAt(tx, text, p) == 0
  {
    if text != [] {
      TapeBlankBelow(tx, text[..|text| - 1], p);
    }
  }

  const CELLS := 2000

  function CharAt(page: seq<byte>, cell: nat): byte
    requires |page| == PAGE_BYTES && cell < CELLS
  {
    page[2 * cell]
  }

  function AttributeAt(page: seq<byte>, cell: nat): byte
    requires |page| == PAGE_BYTES && cell < CELLS
  {
    page[2 * cell + 1]
  }

  predicate OneAttribute(page: seq<byte>) {
    |page| == PAGE_BYTES && forall cell: nat :: cell < CELLS ==> AttributeAt(page, cell) == ATTRIB
  }

  /** The page shows the 25 rows of the tape of this text from the top row on, in the one attribute. */
  ghost predicate Shows(page: seq<byte>, tx: int, text: seq<byte>) {
    && OneAttribute(page)
    && forall cell: nat :: cell < CELLS ==> CharAt(page, cell) == TapeAt(tx, text, NUM_COLS * TopRow(tx, text) + cell)
  }

  /** What a plain character or a line break does to each cell. */
  lemma DrawCells(page: seq<byte>, k: Cursor, c: byte, cell: nat)
    requires OneAttribute(page) && c != BACKSPACE && OnScreen(k) && cell < CELLS
    ensures var page' := Draw(page, 0, k, c);
      && AttributeAt(page', cell) == ATTRIB
      && var from := if Scrolls(k, c) then cell + NUM_COLS else cell;
         CharAt(page', cell) ==
           if from >= CELLS then 0 else if from == Linear(k) && !Breaks(c) then c else CharAt(page, from)
  {
    var from := if Scrolls(k, c) then cell + NUM_COLS else cell;
    var inked := if Breaks(c) then page else Ink(page, 0, k, c);
    if from < CELLS {
      assert CharAt(inked, from) == if from == Linear(k) && !Breaks(c) then c else CharAt(page, from);
      assert AttributeAt(inked, from) == AttributeAt(page, from);
    }
  }

  lemma CellBack(k: Cursor)
    requires OnScreen(k) && !FallsOff(k, BACKSPACE) && k.tx != 0
    ensures Linear(k) > 0 && OnScreen(Wrap(Step(k, BACKSPACE))) && !Scrolls(k, BACKSPACE)
    ensures Linear(Step(k, BACKSPACE)) == Linear(Wrap(Step(k, BACKSPACE))) == Linear(k) - 1
  {
  }

  /** What a backspace that stays on the screen does to each cell. */
  lemma EraseCells(page: seq<byte>, k: Cursor, cell: nat)
    requires OneAttribute(page) && OnScreen(k) && !FallsOff(k, BACKSPACE) && cell < CELLS
    ensures var page' := Draw(page, 0, k, BACKSPACE);
      && AttributeAt(page', cell) == ATTRIB
      && CharAt(page', cell) == if k.tx != 0 && cell == Linear(k) - 1 then 0 else CharAt(page, cell)
  {
    if k.tx != 0 {
      CellBack(k);
    }
    assert AttributeAt(Ink(page, 0, k, BACKSPACE), cell) == AttributeAt(page, cell);
  }

  /** The cursor is at the end of the tape, seen from the top row of the screen. */
  predicate AtTapeEnd(k: Cursor, tx: int, text: seq<byte>) {
    OnScreen(k) && Linear(k) + NUM_COLS * TopRow(tx, text) == TapePos(tx, text) && k.tx == TapeTx(tx, text)
  }

  /** The tape after one more character. */
  lemma TapeStep(tx: int, text: seq<byte>, c: byte)
    ensures var pos, pos' := TapePos(tx, text), TapePos(tx, text + [c]);
      && pos' == (if Breaks(c) then (pos / NUM_COLS + 1) * NUM_COLS else if c != BACKSPACE then pos + 1
                  else if TapeTx(tx, text) != 0 then pos - 1 else pos)
      && TapeTx(tx, text + [c]) == (if Breaks(c) then 0 else Step(Cursor(0, 0, TapeTx(tx, text)), c).tx)
      && TopRow(tx, text + [c]) == (if pos' / NUM_COLS < TopRow(tx, text) + NUM_ROWS then TopRow(tx, text)
                                    else pos' / NUM_COLS - (NUM_ROWS - 1))
  {
    assert (text + [c])[..|text|] == text;
  }

  /** The tape by the value of the byte: 10 and 13 go to the start of the next row of 80 places, 8 takes back one
      character if there is one, and every other byte is written and goes one place on. */
  lemma TapeRules(tx: int, text: seq<byte>, c: byte, p: int)
    ensures var pos, n := TapePos(tx, text), TapeTx(tx, text);
      var pos', n' := TapePos(tx, text + [c]), TapeTx(tx, text + [c]);
      var takesBack := c == 8 && n != 0;
      && pos' == (if c == 10 || c == 13 then 80 * (pos / 80 + 1) else if takesBack then pos - 1
                  else if c == 8 then pos else pos + 1)
      && n' == (if c == 10 || c == 13 then 0 else if takesBack then n - 1 else if c == 8 then 0 else n + 1)
      && TapeAt(tx, text + [c], p) ==
           (if takesBack && p == pos - 1 then 0
            else if c != 8 && c != 10 && c != 13 && p == pos then c
            else TapeAt(tx, text, p))
    ensures TapePos(tx, []) == 0 && TapeTx(tx, []) == tx && TapeAt(tx, [], p) == if p < 2000 then 32 else 0
  {
    assert (text + [c])[..|text|] == text;
  }

  lemma TapeTop(k: Cursor, tx: int, text: seq<byte>, c: byte)
    requires AtTapeEnd(k, tx, text) && !FallsOff(k, c)
    ensures AtTapeEnd(Move(k, c), tx, text + [c])
    ensures TopRow(tx, text + [c]) == TopRow(tx, text) + (if Scrolls(k, c) then 1 else 0)
  {
    TapeStep(tx, text, c);
    MoveIsAdvance(k, c);
    RowsOf(k, TopRow(tx, text));
    if c == BACKSPACE {
      if k.tx != 0 {
        CellBack(k);
        RowsOf(Move(k, c), TopRow(tx, text));
      }
    } else if Breaks(c) {
      RowStart(TapePos(tx, text) / NUM_COLS + 1);
    } else {
      NextCell(TapePos(tx, text));
    }
  }

  lemma RowsOf(k: Cursor, top: nat)
    requires OnScreen(k)
    ensures (Linear(k) + NUM_COLS * top) / NUM_COLS == k.y + top && (Linear(k) + NUM_COLS * top) % NUM_COLS == k.x
  {
  }

  lemma TapeNext(tx: int, text: seq<byte>, c: byte, p: int)
    ensures TapeAt(tx, text + [c], p) == if WritesAt(tx, text, c, p) then CharValue(c) else TapeAt(tx, text, p)
  {
    assert (text + [c])[..|text|] == text;
  }

  lemma TapeCell(page: seq<byte>, k: Cursor, tx: int, text: seq<byte>, c: byte, from: nat)
    requires Shows(page, tx, text) && AtTapeEnd(k, tx, text) && c != BACKSPACE
    ensures TapeAt(tx, text + [c], NUM_COLS * TopRow(tx, text) + from) ==
      if from >= CELLS then 0 else if from == Linear(k) && !Breaks(c) then c else CharAt(page, from)
  {
    TapeNext(tx, text, c, NUM_COLS * TopRow(tx, text) + from);
    if from >= CELLS {
      TapeBlankBelow(tx, text, NUM_COLS * TopRow(tx, text) + from);
    }
  }

  /** What a character does to one cell: a backspace blanks the one before the cursor, others scroll and draw. */
  predicate CellDrawn(page: seq<byte>, page': seq<byte>, k: Cursor, c: byte, cell: nat)
    requires |page| == |page'| == PAGE_BYTES && cell < CELLS
  {
    var from := if Scrolls(k, c) then cell + NUM_COLS else cell;
    && AttributeAt(page', cell) == ATTRIB
    && CharAt(page', cell) ==
       if c == BACKSPACE then if k.tx != 0 && cell == Linear(k) - 1 then 0 else CharAt(page, cell)
       else if from >= CELLS then 0
       else if from == Linear(k) && !Breaks(c) then c
       else CharAt(page, from)
  }

  lemma DrawsCell(page: seq<byte>, k: Cursor, c: byte, cell: nat)
    requires OneAttribute(page) && OnScreen(k) && !FallsOff(k, c) && cell < CELLS
    ensures CellDrawn(page, Draw(page, 0, k, c), k, c, cell)
  {
    if c == BACKSPACE {
      EraseCells(page, k, cell);
    } else {
      DrawCells(page, k, c, cell);
    }
  }

  lemma WindowCell(page: seq<byte>, page': seq<byte>, k: Cursor, tx: int, text: seq<byte>, c: byte, cell: nat)
    requires Shows(page, tx, text) && AtTapeEnd(k, tx, text) && !FallsOff(k, c) && cell < CELLS
    requires |page'| == PAGE_BYTES && CellDrawn(page, page', k, c, cell)
    ensures AttributeAt(page', cell) == ATTRIB
    ensures CharAt(page', cell) == TapeAt(tx, text + [c], NUM_COLS * TopRow(tx, text + [c]) + cell)
  {
    TapeTop(k, tx, text, c);
    if c == BACKSPACE {
      TapeNext(tx, text, c, NUM_COLS * TopRow(tx, text) + cell);
    } else {
      TapeCell(page, k, tx, text, c, if Scrolls(k, c) then cell + NUM_COLS else cell);
    }
  }

  lemma WindowStep(page: seq<byte>, k: Cursor, tx: int, text: seq<byte>, c: byte)
    requires Shows(page, tx, text) && AtTapeEnd(k, tx, text) && !FallsOff(k, c)
    ensures Shows(Draw(page, 0, k, c), tx, text + [c])
  {
    var page' := Draw(page, 0, k, c);
    forall cell: nat | cell < CELLS
      ensures CharAt(page', cell) == TapeAt(tx, text + [c], NUM_COLS * TopRow(tx, text + [c]) + cell)
      ensures AttributeAt(page', cell) == ATTRIB
    {
      DrawsCell(page, k, c, cell);
      WindowCell(page, page', k, tx, text, c, cell);
    }
  }

  /** No character of the text falls off the screen; only a backspace can. */
  predicate StaysOn(tx: int, text: seq<byte>) {
    forall n :: 0 <= n < |text| ==> !FallsOff(MoveAll(Cursor(0, 0, tx), text[..n]), text[n])
  }

  /** The screen is a window on the tape: from a cleared screen, whatever was left in terminal_x, after any text that
      stays on the screen the cursor is where the tape ends and the cells are the 25 rows of the tape from the top row
      on. */
  lemma {:induction false} Window(page: seq<byte>, tx: int, text: seq<byte>)
    requires |page| == PAGE_BYTES && StaysOn(tx, text)
    ensures AtTapeEnd(MoveAll(Cursor(0, 0, tx), text), tx, text)
    ensures Shows(DrawAll(Cleared(page, 0), Cursor(0, 0, tx), text), tx, text)
  {
    if text != [] {
      var last := |text| - 1;
      var init, k := text[..last], MoveAll(Cursor(0, 0, tx), text[..last]);
      forall n | 0 <= n < last
        ensures !FallsOff(MoveAll(Cursor(0, 0, tx), init[..n]), init[n])
      {
        assert init[..n] == text[..n];
      }
      Window(page, tx, init);
      assert init + [text[last]] == text;
      TapeTop(k, tx, init, text[last]);
      WindowStep(DrawAll(Cleared(page, 0), Cursor(0, 0, tx), init), k, tx, init, text[last]);
    }
  }

  /** A text without backspaces stays on the screen, and its tape shows the last 25 rows. */
  lemma {:induction false} PlainTextTop(tx: int, text: seq<byte>)
    requires BACKSPACE !in text
    ensures StaysOn(tx, text) && TapePos(tx, text) >= 0
    ensures var row := TapePos(tx, text) / NUM_COLS;
      TopRow(tx, text) == if row < NUM_ROWS then 0 else row - (NUM_ROWS - 1)
  {
    if text != [] {
      var last := |text| - 1;
      PlainTextTop(tx, text[..last]);
      NextCell(TapePos(tx, text[..last]));
      RowStart(TapePos(tx, text[..last]) / NUM_COLS + 1);
    }
  }
}
