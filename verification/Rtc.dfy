/** One 512 Hz clock divided for three terminals: the interrupt handler, the device operations, and what the counters
    mean over any interleaving of them. */
module Rtc {
  import opened Arithmetic

  const TERMINALS := 3
  const RTC_MASTER_RATE := 512
  const RTC_DEFAULT_RATE := 2
  const RTC_MAX_FREQUENCY: bv32 := 1024
  const RTC_RATE_CONSTANT := 32768
  const WORD := 0x1_0000_0000

  /** terminal_rtc_t: two int32 and a uint32. A rate of -1 marks a terminal without the device. */
  datatype Clock = Clock(rate: int, counter: int, flag: nat)

  function Signed(n: nat): int
    requires n < WORD
  {
    if n < WORD / 2 then n else n - WORD
  }

  /** ++ on an int32. */
  function Increment(n: int): int {
    if n == WORD / 2 - 1 then -WORD / 2 else n + 1
  }

  /** rtc_handler for one terminal. */
  function Count(c: Clock): Clock {
    if c.rate == -1 then c
    else if Increment(c.counter) == c.rate then Clock(c.rate, 0, (c.flag + 1) % WORD)
    else c.(counter := Increment(c.counter))
  }

  /** rtc_write rejects the frequency. */
  predicate Rejects(freq: bv32) {
    freq > RTC_MAX_FREQUENCY || (freq & (freq - 1) != 0 && freq != 0)
  }

  function Rate(freq: bv32): int
    requires freq != 0
  {
    RTC_MASTER_RATE / (freq as int)
  }

  /** Device operations name the terminal that is active when they run. */
  datatype Event = Interrupt | Open(t: int) | Close(t: int) | Write(t: int, freq: bv32) | Read(t: int)

  predicate IsTerminal(t: int) {
    0 <= t < TERMINALS
  }

  predicate Valid(clocks: seq<Clock>) {
    |clocks| == TERMINALS
  }

  predicate ValidEvent(e: Event) {
    e.Interrupt? || IsTerminal(e.t)
  }

  /** rtc_read spins until the flag is not 0. */
  predicate Enabled(clocks: seq<Clock>, e: Event)
    requires Valid(clocks)
  {
    ValidEvent(e) && (e.Read? ==> clocks[e.t].flag != 0)
  }

  /** What an event of its own terminal, or an interrupt, does to one clock. Writing 0 divides by zero and stores
      nothing. */
  function Act(c: Clock, e: Event): Clock {
    match e
    case Interrupt => Count(c)
    case Open(_) => Clock(RTC_MASTER_RATE / RTC_DEFAULT_RATE, 0, 0)
    case Close(_) => Clock(-1, 0, 0)
    case Write(_, freq) => if Rejects(freq) || freq == 0 then c else Clock(Rate(freq), 0, 0)
    case Read(_) => if c.flag == 0 then c else c.(flag := c.flag - 1)
  }

  function Step(clocks: seq<Clock>, e: Event): (r: seq<Clock>)
    requires Valid(clocks) && ValidEvent(e)
    ensures Valid(r)
  {
    if e.Interrupt? then [Act(clocks[0], e), Act(clocks[1], e), Act(clocks[2], e)]
    else clocks[e.t := Act(clocks[e.t], e)]
  }

  predicate CanRun(clocks: seq<Clock>, events: seq<Event>)
    requires Valid(clocks)
    decreases |events|
  {
    events == [] || (Enabled(clocks, events[0]) && CanRun(Step(clocks, events[0]), events[1..]))
  }

  function Run(clocks: seq<Clock>, events: seq<Event>): (r: seq<Clock>)
    requires Valid(clocks) && CanRun(clocks, events)
    ensures Valid(r)
    decreases |events|
  {
    if events == [] then clocks else Run(Step(clocks, events[0]), events[1..])
  }

  function Boot(): (r: seq<Clock>)
    ensures Valid(r)
  {
    [Clock(-1, 0, 0), Clock(-1, 0, 0), Clock(-1, 0, 0)]
  }

  // ---------------------------------------------------------------------------------------------
  // What a terminal did since it last set its rate
  // ---------------------------------------------------------------------------------------------

  datatype Tally = Off | On(period: nat, ticks: nat, taken: nat)

  /** Interrupts from one fire of a clock to the next. A rate of 0 is met when the 32-bit counter comes round. */
  function Period(rate: nat): (p: nat)
    ensures p > 0
  {
    if rate == 0 then WORD else rate
  }

  function Book(tally: Tally, e: Event, t: int): Tally {
    match e
    case Interrupt => if tally.On? then tally.(ticks := tally.ticks + 1) else tally
    case Open(t') => if t' == t then On(256, 0, 0) else tally
    case Close(t') => if t' == t then Off else tally
    case Write(t', freq) =>
      if t' == t && !Rejects(freq) && freq != 0 then On(Period(Rate(freq)), 0, 0) else tally
    case Read(t') => if t' == t && tally.On? then tally.(taken := tally.taken + 1) else tally
  }

  function BookAll(tally: Tally, events: seq<Event>, t: int): Tally
    decreases |events|
  {
    if events == [] then tally else BookAll(Book(tally, events[0], t), events[1..], t)
  }

  /** The clock says what the tally says: the counter is the interrupts since the last fire, the flag the fires not
      yet read, and no more was read than fired. */
  predicate Agrees(c: Clock, tally: Tally) {
    match tally
    case Off => c == Clock(-1, 0, 0)
    case On(period, ticks, taken) =>
      && 0 <= c.rate <= RTC_MASTER_RATE && period == Period(c.rate)
      && c.counter == Signed(ticks % period)
      && taken <= ticks / period
      && c.flag == (ticks / period - taken) % WORD
  }

  lemma Wraps(unread: nat)
    ensures (unread + 1) % WORD == (unread % WORD + 1) % WORD
    ensures unread % WORD != 0 ==> unread > 0 && (unread - 1) % WORD == unread % WORD - 1
  {
    NextQuotient(unread, WORD);
    if unread % WORD != 0 {
      QuotientIs(unread - 1, WORD, unread / WORD, unread % WORD - 1);
    }
  }

  lemma TicksAgree(c: Clock, period: nat, ticks: nat, taken: nat)
    requires Agrees(c, On(period, ticks, taken))
    ensures Agrees(Count(c), On(period, ticks + 1, taken))
  {
    var phase, fires := ticks % period, ticks / period;
    NextQuotient(ticks, period);
    Wraps(fires - taken);
    assert period <= WORD && phase < period;
    if phase == period - 1 {
      assert Increment(c.counter) == c.rate;
    } else {
      assert Increment(c.counter) == Signed(phase + 1) != c.rate;
    }
  }

  lemma CountAgrees(c: Clock, tally: Tally)
    requires Agrees(c, tally)
    ensures Agrees(Count(c), Book(tally, Interrupt, 0))
  {
    if tally.On? {
      TicksAgree(c, tally.period, tally.ticks, tally.taken);
    }
  }

  lemma ReadAgrees(c: Clock, tally: Tally, t: int)
    requires Agrees(c, tally) && c.flag != 0
    ensures Agrees(Act(c, Read(t)), Book(tally, Read(t), t))
  {
    if tally.On? {
      Wraps(tally.ticks / tally.period - tally.taken);
    }
  }

  lemma WriteAgrees(c: Clock, tally: Tally, t: int, freq: bv32)
    requires Agrees(c, tally)
    ensures Agrees(Act(c, Write(t, freq)), Book(tally, Write(t, freq), t))
  {
    if !Rejects(freq) && freq != 0 {
      RateInRange(freq);
      NothingYet(Rate(freq));
    }
  }

  lemma NothingYet(rate: nat)
    requires rate <= RTC_MASTER_RATE
    ensures Agrees(Clock(rate, 0, 0), On(Period(rate), 0, 0))
  {
    QuotientIs(0, Period(rate), 0, 0);
  }

  /** The frequencies rtc_write accepts are 0 and the powers of two up to 1024. */
  lemma AcceptsPowersOfTwo(freq: bv32)
    ensures !Rejects(freq) <==>
      freq == 0 || freq == 1 || freq == 2 || freq == 4 || freq == 8 || freq == 16 || freq == 32 || freq == 64
      || freq == 128 || freq == 256 || freq == 512 || freq == 1024
  {
  }

  lemma RateInRange(freq: bv32)
    requires !Rejects(freq) && freq != 0
    ensures 1 <= freq as int <= 1024
    ensures 0 <= Rate(freq) <= 512 && (Rate(freq) == 0 <==> freq == 1024)
    ensures freq != 1024 ==> Rate(freq) * (freq as int) == 512
  {
    AcceptsPowersOfTwo(freq);
  }

  lemma ActAgrees(c: Clock, e: Event, t: int, tally: Tally)
    requires Agrees(c, tally) && (e.Interrupt? || e.t == t) && (e.Read? ==> c.flag != 0)
    ensures Agrees(Act(c, e), Book(tally, e, t))
  {
    match e {
      case Interrupt => CountAgrees(c, tally);
      case Open(_) => NothingYet(256);
      case Close(_) =>
      case Write(_, freq) => WriteAgrees(c, tally, t, freq);
      case Read(_) => ReadAgrees(c, tally, t);
    }
  }

  /** Conservation over every run: at each terminal, counter = interrupts mod period and flag + reads = interrupts div
      period (mod 2^32), counted from the last open or accepted write, whatever the other terminals do. */
  lemma {:induction false} RunAgrees(clocks: seq<Clock>, tally: Tally, events: seq<Event>, t: int)
    requires Valid(clocks) && CanRun(clocks, events) && IsTerminal(t) && Agrees(clocks[t], tally)
    ensures Agrees(Run(clocks, events)[t], BookAll(tally, events, t))
    decreases |events|
  {
    if events != [] {
      var e := events[0];
      if e.Interrupt? || e.t == t {
        ActAgrees(clocks[t], e, t, tally);
      }
      assert Agrees(Step(clocks, e)[t], Book(tally, e, t));
      RunAgrees(Step(clocks, e), Book(tally, e, t), events[1..], t);
    }
  }

  lemma Conservation(events: seq<Event>, t: int)
    requires CanRun(Boot(), events) && IsTerminal(t)
    ensures Agrees(Run(Boot(), events)[t], BookAll(Off, events, t))
    ensures var c, tally := Run(Boot(), events)[t], BookAll(Off, events, t);
      tally.On? && tally.ticks / tally.period - tally.taken < WORD ==>
        c.flag + tally.taken == tally.ticks / tally.period
  {
    RunAgrees(Boot(), Off, events, t);
  }

  // ---------------------------------------------------------------------------------------------
  // Independence of the terminals, and the frequency a program gets
  // ---------------------------------------------------------------------------------------------

  function Concerning(events: seq<Event>, t: int): (r: seq<Event>)
    decreases |events|
  {
    if events == [] then []
    else
      var rest := Concerning(events[1..], t);
      if events[0].Interrupt? || events[0].t == t then [events[0]] + rest else rest
  }

  /** A terminal's clock is the one it would have if the other terminals did nothing. */
  lemma {:induction false} OthersDoNotMatter(clocks: seq<Clock>, clocks': seq<Clock>, events: seq<Event>, t: int)
    requires Valid(clocks) && Valid(clocks') && CanRun(clocks, events) && IsTerminal(t) && clocks'[t] == clocks[t]
    ensures CanRun(clocks', Concerning(events, t))
    ensures Run(clocks', Concerning(events, t))[t] == Run(clocks, events)[t]
    decreases |events|
  {
    if events != [] {
      var e, own := events[0], Concerning(events, t);
      if e.Interrupt? || e.t == t {
        assert own[0] == e && own[1..] == Concerning(events[1..], t);
        OthersDoNotMatter(Step(clocks, e), Step(clocks', e), events[1..], t);
      } else {
        OthersDoNotMatter(Step(clocks, e), clocks', events[1..], t);
      }
    }
  }

  lemma DivideByRate(n: nat, rate: nat, freq: nat)
    requires rate * freq == RTC_MASTER_RATE && rate > 0 && freq > 0
    ensures n / rate == n * freq / RTC_MASTER_RATE
  {
    var q, r := n / rate, n % rate;
    assert n * freq == q * RTC_MASTER_RATE + r * freq by {
      assert n == q * rate + r;
      assert (q * rate + r) * freq == q * (rate * freq) + r * freq;
    }
    assert r * freq < rate * freq;
    QuotientIs(n * freq, RTC_MASTER_RATE, q, r * freq);
  }

  /** Of the accepted frequencies, exactly those up to 512 are met: after n interrupts of the 512 Hz clock the device
      fired n * freq / 512 times. 1024 Hz fires once in 2^32 interrupts. */
  lemma FrequencyMetExactly(freq: bv32)
    requires !Rejects(freq) && freq != 0
    ensures (forall n: nat :: n / Period(Rate(freq)) == n * (freq as int) / 512) <==> freq <= 512
  {
    RateInRange(freq);
    if freq == 1024 {
      var n: nat := 1;
      assert n / Period(Rate(freq)) == 0 && n * (freq as int) / RTC_MASTER_RATE == 2;
    } else {
      AcceptsPowersOfTwo(freq);
      forall n: nat
        ensures n / Period(Rate(freq)) == n * (freq as int) / RTC_MASTER_RATE
      {
        DivideByRate(n, Rate(freq), freq as int);
      }
    }
  }

  // ---------------------------------------------------------------------------------------------
  // The driver
  // ---------------------------------------------------------------------------------------------

  /** calculate_rtc_rate, for the powers of two it is meant for: 32768 >> (rate - 1) is the frequency. */
  method CalculateRate(freq: nat, ghost k: nat) returns (rate: nat)
    requires k <= 15 && freq == Pow2(k)
    ensures rate == 16 - k && freq * Pow2(rate - 1) == RTC_RATE_CONSTANT
  {
    var tempFreq := freq;
    var newRate: nat := 0;
    Pow2Ten();
    Pow2Add(10, 5);
    assert Pow2(15) == RTC_RATE_CONSTANT;
    while tempFreq != RTC_RATE_CONSTANT
      invariant k + newRate <= 15 && tempFreq == Pow2(k + newRate)
      decreases 15 - newRate
    {
      tempFreq := tempFreq * 2;
      newRate := newRate + 1;
    }
    NotYet(k + newRate);
    Pow2Add(k, newRate);
    return newRate + 1;
  }

  lemma NotYet(n: nat)
    requires n <= 15 && Pow2(n) == RTC_RATE_CONSTANT
    ensures n == 15
  {
    Pow2Ten();
    Pow2Add(10, 5);
    if n < 15 {
      Pow2Monotone(n + 1, 15);
    }
  }

  datatype Written = Done(ret: int) | DivideError

  class Driver {
    const data: array<Clock>    // terminal_rtc_data
    var terminalActive: int

    ghost predicate Ready()
      reads this
    {
      data.Length == TERMINALS && IsTerminal(terminalActive)
    }

    constructor ()
      ensures Ready() && data[..] == Boot() && fresh(data)
    {
      data := new Clock[TERMINALS](_ => Clock(-1, 0, 0));
      terminalActive := TERMINALS - 1;
    }

    method Handler()
      requires Ready()
      modifies data
      ensures data[..] == Step(old(data[..]), Interrupt)
    {
      for i := 0 to TERMINALS
        invariant forall t :: 0 <= t < TERMINALS ==> data[t] == if t < i then Count(old(data[t])) else old(data[t])
      {
        if data[i].rate != -1 {
          data[i] := data[i].(counter := Increment(data[i].counter));
          if data[i].counter == data[i].rate {
            data[i] := data[i].(counter := 0);
            data[i] := data[i].(flag := (data[i].flag + 1) % WORD);
          }
        }
      }
    }

    method RtcOpen() returns (ret: int)
      requires Ready()
      modifies data
      ensures ret == 0 && data[..] == Step(old(data[..]), Open(terminalActive))
      ensures data[..] == old(data[..])[terminalActive := Clock(256, 0, 0)]
    {
      data[terminalActive] := data[terminalActive].(rate := RTC_MASTER_RATE / RTC_DEFAULT_RATE);
      data[terminalActive] := data[terminalActive].(counter := 0);
      data[terminalActive] := data[terminalActive].(flag := 0);
      return 0;
    }

    method RtcClose() returns (ret: int)
      requires Ready()
      modifies data
      ensures ret == 0 && data[..] == Step(old(data[..]), Close(terminalActive))
      ensures data[..] == old(data[..])[terminalActive := Clock(-1, 0, 0)]
    {
      data[terminalActive] := data[terminalActive].(rate := -1);
      data[terminalActive] := data[terminalActive].(counter := 0);
      data[terminalActive] := data[terminalActive].(flag := 0);
      return 0;
    }

    /** rtc_read from the end of its wait on. */
    method RtcRead() returns (ret: int)
      requires Ready() && Enabled(data[..], Read(terminalActive))
      modifies data
      ensures ret == 0 && data[..] == Step(old(data[..]), Read(terminalActive))
      ensures var c := old(data[terminalActive]); data[..] == old(data[..])[terminalActive := c.(flag := c.flag - 1)]
    {
      data[terminalActive] := data[terminalActive].(flag := data[terminalActive].flag - 1);
      return 0;
    }

    method RtcWrite(freq: bv32) returns (w: Written)
      requires Ready()
      modifies data
      ensures data[..] == Step(old(data[..]), Write(terminalActive, freq))
      ensures w == if Rejects(freq) then Done(-1) else if freq == 0 then DivideError else Done(0)
      ensures w != Done(0) ==> data[..] == old(data[..])
      ensures w == Done(0) ==>
        var c := data[terminalActive];
        && 1 <= freq <= 1024 && c.counter == c.flag == 0
        && if freq == 1024 then c.rate == 0 else c.rate * (freq as int) == 512
    {
      if freq > RTC_MAX_FREQUENCY {
        return Done(-1);
      }
      if freq & (freq - 1) != 0 && freq != 0 {
        return Done(-1);
      }
      if freq == 0 {
        return DivideError;
      }
      RateInRange(freq);
      data[terminalActive] := data[terminalActive].(rate := RTC_MASTER_RATE / (freq as int));
      data[terminalActive] := data[terminalActive].(counter := 0);
      data[terminalActive] := data[terminalActive].(flag := 0);
      return Done(0);
    }
  }
}
