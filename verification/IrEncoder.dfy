/**
  The NEC infrared transmitter: a state machine stepped by a timer every 563
  microseconds, and when it switches its carrier on.
 */
module IrEncoder {

  const TICK_US := 563

  type u32 = x: int | 0 <= x < 0x1_0000_0000
  type byte = b: int | 0 <= b < 256

  datatype Stage = Idle | Head | Data | End | Repeat | RepeatEnd

  /** `struct ir_encode_info`, without the timer numbers, and whether the timer runs. */
  datatype Info = Info(data: u32, stage: Stage, high: byte, low: byte, repeatOn: bool,
                       highCtrl: bool, lowCtrl: bool, bitCount: byte, running: bool)

  const RESET := Info(0, Idle, 0, 0, false, false, false, 0, false)

  /** What one run of the interrupt handler does to the carrier. */
  datatype Carrier = On | Off | Same

  function Switched(c: Carrier, on: bool): bool {
    match c
    case On => true
    case Off => false
    case Same => on
  }

  // ----- the handler, as a function of the struct -----

  function Pwm(s: Info): (Info, Carrier) {
    if s.highCtrl then (s.(highCtrl := false, high := (s.high - 1) % 256), On)
    else if s.high > 0 then (s.(high := s.high - 1), Same)
    else if s.lowCtrl then (s.(lowCtrl := false, low := (s.low - 1) % 256), Off)
    else if s.low > 0 then (s.(low := s.low - 1), Same)
    else (s, Same)
  }

  function Loaded(s: Info, high: byte, low: byte): Info {
    s.(high := high, low := low, highCtrl := true, lowCtrl := true)
  }

  /** The change of stage once a symbol is over. */
  function Switch(s: Info): Info {
    match s.stage
    case Idle => s.(stage := Head)
    case Head => Loaded(s, 16, 8).(stage := Data, bitCount := 0)
    case Data =>
      var n := (s.bitCount + 1) % 64;
      Loaded(s, 1, if s.data % 2 == 1 then 3 else 1)
        .(data := s.data / 2, bitCount := n, stage := if n == 32 then End else Data)
    case End => Loaded(s, 1, if s.repeatOn then 75 else 1).(stage := Repeat)
    case Repeat =>
      if s.repeatOn then Loaded(s, 16, 4).(stage := RepeatEnd)
      else s.(stage := Idle, running := false)
    case RepeatEnd => Loaded(s, 1, 175).(stage := Repeat)
  }

  function Irq(s: Info): Info {
    var t := Pwm(s).0;
    if t.low > 0 then t else Switch(t)
  }

  /** `ir_encoder_tx`: address and command, each with its complement, least significant byte first. */
  function Frame(addr: byte, cmd: byte): u32 {
    (255 - cmd) * 0x100_0000 + cmd * 0x1_0000 + (255 - addr) * 0x100 + addr
  }

  class Encoder {
    var info: Info
    var carrier: bool

    constructor ()
      ensures info == RESET && !carrier
    {
      info := RESET;
      carrier := false;
    }

    /** `ir_pwm_ctrl`; true when the symbol is over. */
    method PwmCtrl() returns (over: bool)
      modifies this
      ensures info == Pwm(old(info)).0 && over == (info.low == 0)
      ensures carrier == Switched(Pwm(old(info)).1, old(carrier))
    {
      if info.highCtrl {
        carrier := true;
        info := info.(highCtrl := false);
        info := info.(high := (info.high - 1) % 256);
      } else if info.high != 0 {
        info := info.(high := info.high - 1);
      } else if info.lowCtrl {
        carrier := false;
        info := info.(lowCtrl := false);
        info := info.(low := (info.low - 1) % 256);
      } else if info.low != 0 {
        info := info.(low := info.low - 1);
      }
      over := info.low == 0;
    }

    /** `ir_encode_tx_bit` */
    method TxBit(high: byte, low: byte)
      modifies this`info
      ensures info == Loaded(old(info), high, low)
    {
      info := info.(high := high);
      info := info.(low := low);
      info := info.(highCtrl := true);
      info := info.(lowCtrl := true);
    }

    /** `ir_encode_irq` */
    method TimerIrq()
      modifies this
      ensures info == Irq(old(info))
      ensures carrier == Switched(Pwm(old(info)).1, old(carrier))
    {
      var over := PwmCtrl();
      if !over {
        return;
      }
      match info.stage
      case Idle => info := info.(stage := Head);
      case Head =>
        TxBit(16, 8);
        info := info.(stage := Data);
        info := info.(bitCount := 0);
      case Data =>
        TxBit(1, if info.data % 2 == 1 then 3 else 1);
        info := info.(data := info.data / 2);
        info := info.(bitCount := (info.bitCount + 1) % 64);
        if info.bitCount == 32 {
          info := info.(stage := End);
        }
      case End =>
        TxBit(1, if info.repeatOn then 75 else 1);
        info := info.(stage := Repeat);
      case Repeat =>
        if info.repeatOn {
          TxBit(16, 4);
          info := info.(stage := RepeatEnd);
        } else {
          info := info.(running := false);
          info := info.(stage := Idle);
        }
      case RepeatEnd =>
        TxBit(1, 175);
        info := info.(stage := Repeat);
    }

    /** `ir_encoder_tx` */
    method Tx(addr: byte, cmd: byte, repeatOn: bool) returns (ok: bool)
      modifies this`info
      ensures ok == old(info).stage.Idle?
      ensures info == if ok
                      then old(info).(data := Frame(addr, cmd), repeatOn := repeatOn, running := true) else old(info)
    {
      if !info.stage.Idle? {
        return false;
      }
      info := info.(data := Frame(addr, cmd));
      info := info.(repeatOn := repeatOn);
      info := info.(running := true);
      ok := true;
    }

    /** `ir_encoder_repeat_stop`: whatever is being sent ends within 196 ticks, and the timer with it. */
    method RepeatStop()
      modifies this`info
      ensures info == old(info).(repeatOn := false)
      ensures Playing(old(info)) ==> Playing(info) && ToRest(info) <= 196 && Ended(After(info, ToRest(info)))
    {
      info := info.(repeatOn := false);
      if Playing(info) {
        ComesToRest(info);
      }
    }
  }

  // ----- time -----

  /** The handler run `n` times. */
  function After(s: Info, n: nat): Info
    decreases n
  {
    if n == 0 then s else After(Irq(s), n - 1)
  }

  /** The ticks, counted from `t`, at which the carrier goes on during `n` runs of the handler. */
  function OnTicks(s: Info, t: nat, n: nat): seq<nat>
    decreases n
  {
    if n == 0 then []
    else (if Pwm(s).1.On? then [t] else []) + OnTicks(Irq(s), t + 1, n - 1)
  }

  lemma {:induction false} OnTicksSplit(s: Info, t: nat, a: nat, b: nat)
    ensures After(s, a + b) == After(After(s, a), b)
    ensures OnTicks(s, t, a + b) == OnTicks(s, t, a) + OnTicks(After(s, a), t + a, b)
    decreases a
  {
    if a > 0 {
      var head: seq<nat> := if Pwm(s).1.On? then [t] else [];
      var first, second := OnTicks(Irq(s), t + 1, a - 1), OnTicks(After(s, a), t + a, b);
      OnTicksSplit(Irq(s), t + 1, a - 1, b);
      assert t + 1 + (a - 1) == t + a && a + b - 1 == a - 1 + b;
      assert head + (first + second) == head + first + second;
    } else {
      assert [] + OnTicks(s, t, b) == OnTicks(s, t, b);
    }
  }

  /** A symbol has just been loaded. */
  predicate Fresh(s: Info) {
    s.highCtrl && s.lowCtrl && s.high > 0 && s.low > 0
  }

  /** The same struct when the symbol is over. */
  function Spent(s: Info): Info {
    s.(high := 0, low := 0, highCtrl := false, lowCtrl := false)
  }

  lemma {:induction false} LowPart(s: Info, t: nat)
    requires !s.highCtrl && !s.lowCtrl && s.high == 0 && s.low > 0
    ensures After(s, s.low) == Switch(Spent(s)) && OnTicks(s, t, s.low) == []
    decreases s.low
  {
    var r := Irq(s);
    if s.low == 1 {
      assert r == Switch(Spent(s));
      assert After(r, 0) == r && OnTicks(r, t + 1, 0) == [];
    } else {
      LowPart(r, t + 1);
    }
  }

  lemma {:induction false} HighPart(s: Info, t: nat)
    requires !s.highCtrl && s.lowCtrl && s.low > 0
    ensures After(s, s.high + s.low) == Switch(Spent(s)) && OnTicks(s, t, s.high + s.low) == []
    decreases s.high
  {
    var r := Irq(s);
    if s.high > 0 {
      HighPart(r, t + 1);
    } else if s.low == 1 {
      assert r == Switch(Spent(s));
      assert After(r, 0) == r && OnTicks(r, t + 1, 0) == [];
    } else {
      LowPart(r, t + 1);
    }
  }

  function Length(s: Info): nat {
    s.high + s.low
  }

  /** A symbol takes as many ticks as its two counts say, and the carrier goes on at its first. */
  lemma {:induction false} OneSymbol(s: Info, t: nat)
    requires Fresh(s)
    ensures After(s, Length(s)) == Switch(Spent(s)) && OnTicks(s, t, Length(s)) == [t]
  {
    var r := Irq(s);
    assert r == s.(highCtrl := false, high := s.high - 1);
    HighPart(r, t + 1);
  }

  /** The symbol loaded after this one. */
  function Next(s: Info): Info {
    Switch(Spent(s))
  }

  /** The lengths of `n` symbols in a row. */
  function Lengths(s: Info, n: nat): (r: seq<nat>)
    ensures |r| == n
    decreases n
  {
    if n == 0 then [] else [Length(s)] + Lengths(Next(s), n - 1)
  }

  predicate AllFresh(s: Info, n: nat)
    decreases n
  {
    n == 0 || (Fresh(s) && AllFresh(Next(s), n - 1))
  }

  function Sum(xs: seq<nat>): nat {
    if xs == [] then 0 else xs[0] + Sum(xs[1..])
  }

  /** The moments that follow one another by the given lengths. */
  function Moments(t: nat, lengths: seq<nat>): seq<nat>
    decreases lengths
  {
    if lengths == [] then [] else [t] + Moments(t + lengths[0], lengths[1..])
  }

  /** The carrier goes on once for each symbol, the symbol's length after the one before. */
  lemma {:induction false} Symbols(s: Info, t: nat, n: nat)
    requires AllFresh(s, n)
    ensures OnTicks(s, t, Sum(Lengths(s, n))) == Moments(t, Lengths(s, n))
    decreases n
  {
    if n > 0 {
      var more := Lengths(Next(s), n - 1);
      assert Lengths(s, n)[1..] == more;
      OneSymbol(s, t);
      OnTicksSplit(s, t, Length(s), Sum(more));
      Symbols(Next(s), t + Length(s), n - 1);
    }
  }

  // ----- frames and repeats -----

  /** The symbol lengths of the low `n` bits, least significant first: 4 ticks for a one, 2 for a zero. */
  function BitLengths(d: nat, n: nat): seq<nat>
    decreases d, n
  {
    if n == 0 then [] else [if d % 2 == 1 then 4 else 2] + BitLengths(d / 2, n - 1)
  }

  /** After the frame: for each repeat the pause before it and the repeat code itself. */
  function RepeatLengths(r: nat, first: bool): seq<nat> {
    if r == 0 then [] else [if first then 76 else 176, 20] + RepeatLengths(r - 1, false)
  }

  /** The times in ticks between the carrier's going on, for a frame and `r` repeats. */
  function Sent(d: nat, r: nat): seq<nat> {
    [24] + BitLengths(d, 32) + RepeatLengths(r, true)
  }

  /** The differences of successive moments. */
  function Gaps(xs: seq<nat>): seq<int> {
    if |xs| < 2 then [] else [xs[1] - xs[0]] + Gaps(xs[1..])
  }

  lemma {:induction false} GapsOfMoments(t: nat, lengths: seq<nat>, last: nat)
    ensures Gaps(Moments(t, lengths + [last])) == lengths
    decreases lengths
  {
    if lengths != [] {
      var more := lengths[1..] + [last];
      assert (lengths + [last])[1..] == more;
      GapsOfMoments(t + lengths[0], lengths[1..], last);
      assert Moments(t, lengths + [last])[1..] == Moments(t + lengths[0], more);
      assert Moments(t + lengths[0], more)[0] == t + lengths[0];
    }
  }

  lemma {:induction false} RepeatSymbols(s: Info, r: nat, first: bool)
    requires s.repeatOn && Fresh(s) && s.stage.Repeat? && Length(s) == if first then 76 else 176
    ensures AllFresh(s, 2 * r + 1)
    ensures Lengths(s, 2 * r) == RepeatLengths(r, first)
    decreases r
  {
    if r > 0 {
      var code := Next(s);
      var pause := Next(code);
      RepeatSymbols(pause, r - 1, false);
      assert AllFresh(code, 2 * r) && Lengths(code, 2 * r - 1) == [20] + Lengths(pause, 2 * r - 2);
    }
  }

  /** From a symbol before the last `n` data bits: those bits, then the end and the repeats. */
  lemma {:induction false} DataSymbols(s: Info, n: nat, r: nat)
    requires Fresh(s) && (r > 0 ==> s.repeatOn) && n <= 32 && s.bitCount == 32 - n
    requires s.stage == if n == 0 then End else Data
    ensures AllFresh(Next(s), n + 2 * r + 1)
    ensures Lengths(Next(s), n + 2 * r) == BitLengths(s.data, n) + RepeatLengths(r, true)
    decreases n
  {
    var next := Next(s);
    if n == 0 {
      if r > 0 {
        RepeatSymbols(next, r, true);
      } else {
        assert AllFresh(Next(next), 0);
      }
    } else {
      DataSymbols(next, n - 1, r);
      assert Lengths(next, n + 2 * r) == [Length(next)] + Lengths(Next(next), n - 1 + 2 * r);
    }
  }

  /** The transmitter is at rest: between frames, nothing left to play. */
  predicate AtRest(s: Info) {
    s.stage.Idle? && s == Spent(s)
  }

  /** The head of a frame, two ticks after it was asked for. */
  function HeadLoaded(s: Info, d: u32, repeatOn: bool): Info {
    s.(data := d, stage := Data, high := 16, low := 8, repeatOn := repeatOn,
       highCtrl := true, lowCtrl := true, bitCount := 0, running := true)
  }

  lemma {:induction false} FrameStarts(s: Info, d: u32, repeatOn: bool, t: nat)
    requires AtRest(s)
    ensures var a := s.(data := d, repeatOn := repeatOn, running := true);
            After(a, 2) == HeadLoaded(s, d, repeatOn) && OnTicks(a, t, 2) == []
  {
    var a := s.(data := d, repeatOn := repeatOn, running := true);
    var b := Irq(a);
    var c := Irq(b);
    assert b == a.(stage := Head) && c == HeadLoaded(s, d, repeatOn);
    assert After(b, 1) == After(c, 0) == c && OnTicks(b, t + 1, 1) == OnTicks(c, t + 2, 0) == [];
  }

  /** How long a frame, `r` repeats and the symbol after them take from the request. */
  function Duration(s: Info, d: u32, r: nat): nat {
    2 + Sum(Lengths(HeadLoaded(s, d, r > 0), 34 + 2 * r))
  }

  /**
    For every address, command and number of repeats, the carrier goes on at
    moments whose distances are the NEC lengths: the head, the 32 bits, and
    the pause and code of each repeat.  Without repeats the transmitter is then
    at rest.
   */
  lemma {:induction false} FrameIsSent(s: Info, d: u32, r: nat, t: nat)
    requires AtRest(s)
    ensures var a := s.(data := d, repeatOn := r > 0, running := true);
            Gaps(OnTicks(a, t, Duration(s, d, r))) == Sent(d, r) && (r == 0 ==> Ended(After(a, Duration(s, d, r))))
  {
    if r == 0 {
      FrameEnds(s, d, r);
    }
    var a := s.(data := d, repeatOn := r > 0, running := true);
    var h := HeadLoaded(s, d, r > 0);
    FrameStarts(s, d, r > 0, t);
    var n := Sum(Lengths(h, 34 + 2 * r));
    SkipQuiet(a, h, t, 2, n);
    HeadGaps(h, t + 2, r);
    assert Duration(s, d, r) == 2 + n && h.data == d;
  }

  lemma {:induction false} HeadGaps(h: Info, t: nat, r: nat)
    requires Fresh(h) && Length(h) == 24 && h.stage.Data? && h.bitCount == 0 && (r > 0 ==> h.repeatOn)
    ensures Gaps(OnTicks(h, t, Sum(Lengths(h, 34 + 2 * r)))) == Sent(h.data, r)
  {
    HeadSymbols(h, r);
    SymbolGaps(h, t, 33 + 2 * r);
  }

  lemma {:induction false} SkipQuiet(a: Info, h: Info, t: nat, k: nat, n: nat)
    requires After(a, k) == h && OnTicks(a, t, k) == []
    ensures OnTicks(a, t, k + n) == OnTicks(h, t + k, n)
  {
    OnTicksSplit(a, t, k, n);
  }

  lemma {:induction false} HeadSymbols(h: Info, r: nat)
    requires Fresh(h) && Length(h) == 24 && h.stage.Data? && h.bitCount == 0 && (r > 0 ==> h.repeatOn)
    ensures AllFresh(h, 34 + 2 * r) && Lengths(h, 33 + 2 * r) == Sent(h.data, r)
  {
    DataSymbols(h, 32, r);
    assert Lengths(h, 33 + 2 * r) == [24] + Lengths(Next(h), 32 + 2 * r);
    assert Sent(h.data, r) == [24] + (BitLengths(h.data, 32) + RepeatLengths(r, true));
  }

  lemma {:induction false} SymbolGaps(s: Info, t: nat, n: nat)
    requires AllFresh(s, n + 1)
    ensures Gaps(OnTicks(s, t, Sum(Lengths(s, n + 1)))) == Lengths(s, n)
  {
    Symbols(s, t, n + 1);
    LastLength(s, n);
    GapsOfMoments(t, Lengths(s, n), Lengths(s, n + 1)[n]);
  }

  lemma {:induction false} LastLength(s: Info, n: nat)
    ensures Lengths(s, n + 1) == Lengths(s, n) + [Lengths(s, n + 1)[n]]
    decreases n
  {
    if n > 0 {
      LastLength(Next(s), n - 1);
    }
  }

  // ----- the end of a transmission -----

  /** The most a symbol can last that plays in a stage. */
  function Longest(s: Info): nat {
    match s.stage
    case Idle => 0
    case Head => 0
    case Data => 24
    case End => 4
    case Repeat => 176
    case RepeatEnd => 20
  }

  /** The states between a request and the rest after it. */
  predicate Playing(s: Info) {
    && s.running && Length(s) <= Longest(s)
    && (s.highCtrl ==> s.high > 0) && (s.high > 0 ==> s.lowCtrl) && (s.lowCtrl ==> s.low > 0)
    && (s.stage.Data? ==> s.bitCount < 32 && (s.bitCount > 0 ==> Length(s) <= 4))
  }

  predicate Ended(s: Info) {
    AtRest(s) && !s.running
  }

  /** How many symbols may still follow once no repeat is asked for. */
  function SymbolsLeft(s: Info): nat {
    match s.stage
    case Idle => 40
    case Head => 39
    case Data => if s.bitCount < 32 then 34 - s.bitCount else 2
    case End => 2
    case Repeat => 0
    case RepeatEnd => 1
  }

  /** A request accepted at rest starts a transmission. */
  lemma {:induction false} RequestPlays(s: Info, d: u32, repeatOn: bool)
    requires AtRest(s)
    ensures Playing(s.(data := d, repeatOn := repeatOn, running := true))
  {}

  lemma {:induction false} NextPlays(s: Info)
    requires Playing(s)
    ensures Playing(Next(s)) || Ended(Next(s))
    ensures !s.repeatOn && !s.stage.Repeat? ==>
              Playing(Next(s)) && !Next(s).repeatOn && SymbolsLeft(Next(s)) < SymbolsLeft(s)
  {}

  /** Every tick of a transmission goes on with it or ends it. */
  lemma {:induction false} PlaysOrEnds(s: Info)
    requires Playing(s)
    ensures Playing(Irq(s)) || Ended(Irq(s))
  {
    var t := Pwm(s).0;
    if t.low > 0 {
      assert Length(t) == Length(s) - 1;
    } else {
      assert t == Spent(s);
      hide Switch;
      NextPlays(s);
    }
  }

  /** The ticks to the end of the current symbol; a stage without one lasts a tick. */
  function ToSwitch(s: Info): nat {
    if Length(s) == 0 then 1 else Length(s)
  }

  /** Until then only the counts change. */
  lemma {:induction false} InsideSymbol(s: Info, m: nat)
    requires Playing(s) && m < ToSwitch(s)
    ensures After(s, m).running
    decreases m
  {
    if m > 0 {
      var r := Irq(s);
      assert Length(r) == Length(s) - 1 && r.stage == s.stage && r.bitCount == s.bitCount && r.low > 0;
      InsideSymbol(r, m - 1);
    }
  }

  lemma {:induction false} SymbolEnds(s: Info)
    requires Playing(s)
    ensures After(s, ToSwitch(s)) == Next(s)
  {
    if Length(s) == 0 {
      assert s == Spent(s) && After(Irq(s), 0) == Irq(s);
    } else if s.highCtrl {
      OneSymbol(s, 0);
    } else if s.lowCtrl {
      HighPart(s, 0);
    } else {
      LowPart(s, 0);
    }
  }

  /** The ticks to rest, once no repeat is asked for. */
  function ToRest(s: Info): (n: nat)
    requires Playing(s) && !s.repeatOn
    decreases SymbolsLeft(s)
  {
    if s.stage.Repeat? then ToSwitch(s)
    else
      NextPlays(s);
      ToSwitch(s) + ToRest(Next(s))
  }

  /** What is left after the current symbol. */
  function RestBound(s: Info): nat {
    match s.stage
    case Idle => 156
    case Head => 155
    case Data => if s.bitCount == 0 then 154 else if s.bitCount < 32 then 134 - 4 * s.bitCount else 0
    case End => 6
    case Repeat => 176
    case RepeatEnd => 196
  }

  lemma {:induction false} RestIsNear(s: Info)
    requires Playing(s) && !s.repeatOn
    ensures ToRest(s) <= RestBound(s) <= 196
    decreases SymbolsLeft(s)
  {
    if !s.stage.Repeat? {
      NextPlays(s);
      var r := Next(s);
      RestIsNear(r);
      if s.stage.End? {
        assert ToRest(r) == ToSwitch(r) == 2;
      }
    }
  }

  lemma {:induction false} RunsOn(s: Info, k: nat, n: nat)
    requires Playing(s) && k == ToSwitch(s) <= n
    requires forall m :: 0 <= m < n - k ==> After(After(s, k), m).running
    ensures forall m :: 0 <= m < n ==> After(s, m).running
  {
    hide After, Playing, ToSwitch, OnTicks;
    forall m | 0 <= m < n ensures After(s, m).running {
      if m < k {
        InsideSymbol(s, m);
      } else {
        OnTicksSplit(s, 0, k, m - k);
        assert After(After(s, k), m - k).running;
      }
    }
  }

  /**
    With the repeat flag down every state of a transmission comes to rest, with
    its timer stopped, in at most 196 ticks; the timer runs until then.
   */
  lemma {:induction false} ComesToRest(s: Info)
    requires Playing(s) && !s.repeatOn
    ensures var n := ToRest(s);
            n <= 196 && Ended(After(s, n)) && forall m :: 0 <= m < n ==> After(s, m).running
    decreases SymbolsLeft(s)
  {
    RestIsNear(s);
    var k, n := ToSwitch(s), ToRest(s);
    SymbolEnds(s);
    NextPlays(s);
    if s.stage.Repeat? {
      assert Ended(Next(s));
      hide After, ToRest, Playing, Next;
      forall m | 0 <= m < n ensures After(s, m).running {
        InsideSymbol(s, m);
      }
    } else {
      var r := Next(s);
      assert n == k + ToRest(r);
      hide After, OnTicks, Playing, ToRest, Ended, Next, ToSwitch;
      ComesToRest(r);
      OnTicksSplit(s, 0, k, n - k);
      RunsOn(s, k, n);
    }
  }

  lemma {:induction false} LengthsStep(s: Info, n: nat)
    ensures Sum(Lengths(s, n + 1)) == Length(s) + Sum(Lengths(Next(s), n)) && Sum(Lengths(s, 0)) == 0
  {
    assert Lengths(s, n + 1)[1..] == Lengths(Next(s), n);
  }

  /** A symbol before the last `n` data bits, with no repeat to follow. */
  predicate BeforeBits(s: Info, n: nat) {
    Playing(s) && Fresh(s) && !s.repeatOn && n <= 32 && s.bitCount == 32 - n && s.stage == if n == 0 then End else Data
  }

  lemma {:induction false} BitPlayed(s: Info, n: nat)
    requires n > 0 && BeforeBits(s, n)
    ensures BeforeBits(Next(s), n - 1) && ToRest(s) == Length(s) + ToRest(Next(s))
  {
    NextPlays(s);
  }

  lemma {:induction false} EndPlayed(s: Info)
    requires BeforeBits(s, 0)
    ensures ToRest(s) == Length(s) + Length(Next(s))
  {
    NextPlays(s);
    assert ToRest(Next(s)) == Length(Next(s));
  }

  /** Those bits and the end symbol are all that is left. */
  lemma {:induction false} DataThenRest(s: Info, n: nat)
    requires BeforeBits(s, n)
    ensures ToRest(s) == Sum(Lengths(s, n + 2))
    decreases n
  {
    var r := Next(s);
    LengthsStep(s, n + 1);
    if n == 0 {
      EndPlayed(s);
      LengthsStep(r, 0);
      LengthsStep(Next(r), 0);
    } else {
      BitPlayed(s, n);
      hide ToRest, Sum, Lengths, Next, BeforeBits;
      DataThenRest(r, n - 1);
    }
  }

  /** The frame once its head is loaded, `k` ticks after it was asked for. */
  lemma {:induction false} HeadEnds(a: Info, h: Info, k: nat, n: nat)
    requires After(a, k) == h && BeforeBits(h, n)
    ensures Ended(After(a, k + Sum(Lengths(h, n + 2))))
  {
    hide *;
    DataThenRest(h, n);
    BitsArePlayed(h, n);
    ComesToRest(h);
    OnTicksSplit(a, 0, k, ToRest(h));
  }

  lemma {:induction false} BitsArePlayed(h: Info, n: nat)
    requires BeforeBits(h, n)
    ensures Playing(h) && !h.repeatOn
  {}

  lemma {:induction false} HeadPlays(s: Info, d: u32, n: nat)
    requires AtRest(s) && n == 32
    ensures BeforeBits(HeadLoaded(s, d, false), n)
  {}

  /** Without repeats the transmitter is at rest, its timer stopped, when the frame is over. */
  lemma {:induction false} FrameEnds(s: Info, d: u32, r: nat)
    requires AtRest(s) && r == 0
    ensures Ended(After(s.(data := d, repeatOn := r > 0, running := true), Duration(s, d, r)))
  {
    var k: nat, n: nat := 2, 32 + 2 * r;
    FrameStarts(s, d, false, 0);
    HeadPlays(s, d, n);
    HeadEnds(s.(data := d, repeatOn := r > 0, running := true), HeadLoaded(s, d, r > 0), k, n);
  }
}
