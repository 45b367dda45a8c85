/**
  The carrier of the infrared transmitter over time: what is sent, as the marks
  and spaces of the NEC code.
 */
module IrCarrier {
  import opened IrEncoder

  /** The carrier after each of `n` runs of the handler. */
  function Levels(s: Info, on: bool, n: nat): (r: seq<bool>)
    ensures |r| == n
    decreases n
  {
    if n == 0 then []
    else
      var now := Switched(Pwm(s).1, on);
      [now] + Levels(Irq(s), now, n - 1)
  }

  /** The carrier after all of them. */
  function LevelAfter(s: Info, on: bool, n: nat): bool {
    if n == 0 then on else Levels(s, on, n)[n - 1]
  }

  lemma {:induction false} LevelsFirst(s: Info, on: bool, n: nat, now: bool)
    requires n > 0 && now == Switched(Pwm(s).1, on)
    ensures Levels(s, on, n) == [now] + Levels(Irq(s), now, n - 1)
    ensures LevelAfter(s, on, n) == LevelAfter(Irq(s), now, n - 1)
    ensures After(s, n) == After(Irq(s), n - 1)
  {
    hide Irq, Pwm;
  }

  lemma {:induction false} NoTick(s: Info, on: bool, b: nat)
    ensures Levels(s, on, 0) + Levels(After(s, 0), LevelAfter(s, on, 0), b) == Levels(s, on, b)
  {
    assert [] + Levels(s, on, b) == Levels(s, on, b);
  }

  lemma {:induction false} Associate<T>(a: seq<T>, b: seq<T>, c: seq<T>)
    ensures a + (b + c) == a + b + c
  {}

  lemma {:induction false} LevelsSplit(s: Info, on: bool, a: nat, b: nat)
    ensures Levels(s, on, a + b) == Levels(s, on, a) + Levels(After(s, a), LevelAfter(s, on, a), b)
    decreases a
  {
    hide *;
    if a == 0 {
      NoTick(s, on, b);
    } else {
      var now := Switched(Pwm(s).1, on);
      LevelsFirst(s, on, a, now);
      LevelsFirst(s, on, a + b, now);
      LevelsSplit(Irq(s), now, a - 1, b);
      Associate([now], Levels(Irq(s), now, a - 1), Levels(After(s, a), LevelAfter(s, on, a), b));
    }
  }

  // ----- marks and spaces -----

  /** The carrier on for some ticks, then off for some. */
  datatype Burst = Burst(mark: nat, space: nat)

  function Copies(b: bool, n: nat): seq<bool> {
    seq(n, _ => b)
  }

  function Wave(bursts: seq<Burst>): seq<bool> {
    if bursts == [] then []
    else Copies(true, bursts[0].mark) + Copies(false, bursts[0].space) + Wave(bursts[1..])
  }

  lemma {:induction false} OneMoreCopy(b: bool, n: nat)
    ensures [b] + Copies(b, n) == Copies(b, n + 1) && Copies(b, 0) == []
  {}

  lemma {:induction false} CopiesThen(b: bool, n: nat, more: seq<bool>)
    ensures [b] + (Copies(b, n) + more) == Copies(b, n + 1) + more && Copies(b, 0) + more == more
  {}

  /** A tick inside a space. */
  lemma {:induction false} SpaceTick(s: Info)
    requires !s.highCtrl && !s.lowCtrl && s.high == 0 && s.low > 0
    ensures var r := Irq(s);
            Pwm(s).1 == Same && (s.low > 1 ==> !r.highCtrl && !r.lowCtrl && r.high == 0 && r.low == s.low - 1)
  {}

  lemma {:induction false} SpaceLevels(s: Info)
    requires !s.highCtrl && !s.lowCtrl && s.high == 0 && s.low > 0
    ensures Levels(s, false, s.low) == Copies(false, s.low)
    decreases s.low
  {
    SpaceTick(s);
    hide Irq, Pwm, Levels, LevelAfter, After, Copies;
    LevelsFirst(s, false, s.low, false);
    OneMoreCopy(false, s.low - 1);
    if s.low > 1 {
      SpaceLevels(Irq(s));
    } else {
      NoLevels(Irq(s));
    }
  }

  lemma {:induction false} NoLevels(s: Info)
    ensures Levels(s, false, 0) == []
  {}

  /** A tick inside a mark, and the one that ends it. */
  lemma {:induction false} MarkTick(s: Info)
    requires !s.highCtrl && s.lowCtrl && s.low > 0
    ensures var r := Irq(s);
            if s.high > 0 then
              Pwm(s).1 == Same && !r.highCtrl && r.lowCtrl && r.low == s.low && r.high == s.high - 1
            else
              Pwm(s).1 == Off && (s.low > 1 ==> !r.highCtrl && !r.lowCtrl && r.high == 0 && r.low == s.low - 1)
  {}

  /** The tick that ends a mark, and the space behind it. */
  lemma {:induction false} MarkEnds(s: Info)
    requires !s.highCtrl && s.lowCtrl && s.low > 0 && s.high == 0
    ensures Levels(s, true, s.low) == Copies(false, s.low)
  {
    MarkTick(s);
    hide *;
    LevelsFirst(s, true, s.low, false);
    OneMoreCopy(false, s.low - 1);
    if s.low > 1 {
      SpaceLevels(Irq(s));
    } else {
      NoLevels(Irq(s));
    }
  }

  /** One more tick of a mark. */
  lemma {:induction false} MarkGoesOn(s: Info, n: nat, more: seq<bool>)
    requires s.high > 0 && n > 0 && Pwm(s).1 == Same && Levels(Irq(s), true, n - 1) == Copies(true, s.high - 1) + more
    ensures Levels(s, true, n) == Copies(true, s.high) + more
  {
    hide Pwm, Irq, Levels, Copies;
    LevelsFirst(s, true, n, true);
    CopiesThen(true, s.high - 1, more);
  }

  lemma {:induction false} MarkLevels(s: Info, n: nat)
    requires !s.highCtrl && s.lowCtrl && s.low > 0 && n == s.high + s.low
    ensures Levels(s, true, n) == Copies(true, s.high) + Copies(false, s.low)
    decreases s.high
  {
    MarkTick(s);
    hide *;
    if s.high > 0 {
      MarkLevels(Irq(s), n - 1);
      MarkGoesOn(s, n, Copies(false, s.low));
    } else {
      MarkEnds(s);
      CopiesThen(true, 0, Copies(false, s.low));
    }
  }

  lemma {:induction false} FirstTick(s: Info)
    requires Fresh(s)
    ensures Pwm(s).1 == On && Irq(s) == s.(highCtrl := false, high := s.high - 1)
  {}

  /** A symbol is its mark and its space, whatever the carrier was before. */
  lemma {:induction false} SymbolLevels(s: Info, on: bool, n: nat)
    requires Fresh(s) && n == Length(s)
    ensures Levels(s, on, n) == Copies(true, s.high) + Copies(false, s.low)
    ensures !LevelAfter(s, on, n)
  {
    FirstTick(s);
    LastLevel(s, on, n);
    assert n == s.high + s.low && s.high > 0 && s.low > 0 && s.lowCtrl;
    hide *;
    LevelsFirst(s, on, n, true);
    MarkLevels(Irq(s), n - 1);
    CopiesThen(true, s.high - 1, Copies(false, s.low));
    EndsInSpace(s.high, s.low);
  }

  lemma {:induction false} LastLevel(s: Info, on: bool, n: nat)
    requires n > 0
    ensures LevelAfter(s, on, n) == Levels(s, on, n)[n - 1]
  {}

  lemma {:induction false} EndsInSpace(m: nat, n: nat)
    requires n > 0
    ensures |Copies(true, m) + Copies(false, n)| == m + n && !(Copies(true, m) + Copies(false, n))[m + n - 1]
  {}

  /** The marks and spaces of `n` symbols in a row. */
  function Bursts(s: Info, n: nat): (r: seq<Burst>)
    ensures |r| == n
    decreases n
  {
    if n == 0 then [] else [Burst(s.high, s.low)] + Bursts(Next(s), n - 1)
  }

  lemma {:induction false} SymbolsLevels(s: Info, on: bool, n: nat)
    requires AllFresh(s, n)
    ensures Levels(s, on, Sum(Lengths(s, n))) == Wave(Bursts(s, n))
    decreases n
  {
    if n > 0 {
      FreshFirst(s, n);
      hide *;
      SymbolsLevels(Next(s), false, n - 1);
      SymbolThen(s, on, n, Sum(Lengths(Next(s), n - 1)));
    }
  }

  lemma {:induction false} SymbolEnds(s: Info)
    requires Fresh(s)
    ensures After(s, Length(s)) == Next(s)
  {
    OneSymbol(s, 0);
  }

  lemma {:induction false} SymbolThen(s: Info, on: bool, n: nat, more: nat)
    requires n > 0 && Fresh(s) && more == Sum(Lengths(Next(s), n - 1))
    requires Levels(Next(s), false, more) == Wave(Bursts(Next(s), n - 1))
    ensures Levels(s, on, Sum(Lengths(s, n))) == Wave(Bursts(s, n))
  {
    var k := Length(s);
    hide *;
    LengthsStep(s, n - 1);
    SymbolEnds(s);
    SymbolLevels(s, on, k);
    LevelsSplit(s, on, k, more);
    BitFirst(s, n);
    WaveFirst(Burst(s.high, s.low), Bursts(Next(s), n - 1));
  }

  lemma {:induction false} FreshFirst(s: Info, n: nat)
    requires n > 0 && AllFresh(s, n)
    ensures Fresh(s) && AllFresh(Next(s), n - 1)
  {
    hide Fresh, Next;
  }

  lemma {:induction false} WaveFirst(b: Burst, rest: seq<Burst>)
    ensures Wave([b] + rest) == Copies(true, b.mark) + Copies(false, b.space) + Wave(rest)
  {
    assert ([b] + rest)[1..] == rest;
  }

  // ----- the NEC code -----

  /** A one is a mark and three spaces, a zero a mark and one; the least significant bit comes first. */
  function BitBursts(d: nat, n: nat): seq<Burst>
    decreases n
  {
    if n == 0 then [] else [Burst(1, if d % 2 == 1 then 3 else 1)] + BitBursts(d / 2, n - 1)
  }

  function RepeatBursts(r: nat): seq<Burst> {
    if r == 0 then [] else [Burst(16, 4), Burst(1, 175)] + RepeatBursts(r - 1)
  }

  /** The head, the 32 bits, the end, and for each repeat its code and the end behind it. */
  function NecFrame(d: nat, r: nat): seq<Burst> {
    [Burst(16, 8)] + BitBursts(d, 32) + [Burst(1, if r > 0 then 75 else 1)] + RepeatBursts(r)
  }

  lemma {:induction false} RepeatsSent(s: Info, r: nat)
    requires Fresh(s) && s.stage.Repeat? && (r > 0 ==> s.repeatOn)
    ensures AllFresh(s, 2 * r + 1) && Bursts(s, 2 * r + 1) == [Burst(s.high, s.low)] + RepeatBursts(r)
    decreases r
  {
    if r > 0 {
      var code := Next(s);
      var end := Next(code);
      assert Fresh(code) && Fresh(end) && code.high == 16 && code.low == 4 && end.high == 1 && end.low == 175;
      RepeatsSent(end, r - 1);
      assert AllFresh(code, 2 * r) && Bursts(code, 2 * r) == [Burst(16, 4)] + Bursts(end, 2 * r - 1);
      assert [Burst(16, 4)] + ([Burst(1, 175)] + RepeatBursts(r - 1)) == RepeatBursts(r);
    }
  }

  lemma {:induction false} BitSent(s: Info, n: nat, r: nat)
    requires 0 < n <= 32 && Fresh(s) && s.bitCount == 32 - n && s.stage.Data?
    ensures var next := Next(s);
            && Fresh(next) && next.repeatOn == s.repeatOn && next.data == s.data / 2 && next.bitCount == 32 - (n - 1)
            && next.stage == (if n == 1 then End else Data)
            && Burst(next.high, next.low) == Burst(1, if s.data % 2 == 1 then 3 else 1)
  {}

  lemma {:induction false} EndSent(s: Info, r: nat)
    requires Fresh(s) && s.repeatOn == (r > 0) && s.bitCount == 32 && s.stage.End?
    ensures AllFresh(Next(s), 2 * r + 1)
    ensures Bursts(Next(s), 2 * r + 1) == [Burst(1, if r > 0 then 75 else 1)] + RepeatBursts(r)
  {
    var next := Next(s);
    assert Fresh(next) && next.stage.Repeat? && next.high == 1 && next.low == if r > 0 then 75 else 1;
    assert r > 0 ==> next.repeatOn;
    hide *;
    RepeatsSent(next, r);
  }

  lemma {:induction false} NoBits(d: nat, rest: seq<Burst>)
    ensures BitBursts(d, 0) + rest == rest
  {}

  /** From a symbol before the last `n` data bits: those bits, the end and the repeats. */
  lemma {:induction false} BitsSent(s: Info, n: nat, r: nat)
    requires Fresh(s) && s.repeatOn == (r > 0) && n <= 32 && s.bitCount == 32 - n
    requires s.stage == if n == 0 then End else Data
    ensures AllFresh(Next(s), n + 2 * r + 1)
    ensures Bursts(Next(s), n + 2 * r + 1)
         == BitBursts(s.data, n) + ([Burst(1, if r > 0 then 75 else 1)] + RepeatBursts(r))
    decreases n
  {
    hide *;
    var next, end := Next(s), [Burst(1, if r > 0 then 75 else 1)];
    if n == 0 {
      EndSent(s, r);
      NoBits(s.data, end + RepeatBursts(r));
    } else {
      BitSent(s, n, r);
      BitFirst(next, n + 2 * r + 1);
      FirstBurst(s.data, n);
      BitsSent(next, n - 1, r);
      Associate([Burst(next.high, next.low)], BitBursts(next.data, n - 1), end + RepeatBursts(r));
    }
  }

  lemma {:induction false} FirstBurst(d: nat, n: nat)
    requires n > 0
    ensures BitBursts(d, n) == [Burst(1, if d % 2 == 1 then 3 else 1)] + BitBursts(d / 2, n - 1)
  {}

  lemma {:induction false} BitFirst(s: Info, n: nat)
    requires n > 0
    ensures Bursts(s, n) == [Burst(s.high, s.low)] + Bursts(Next(s), n - 1)
    ensures Fresh(s) && AllFresh(Next(s), n - 1) ==> AllFresh(s, n)
  {
    hide Next, Fresh;
  }

  lemma {:induction false} HeadSent(h: Info, r: nat, n: nat)
    requires Fresh(h) && h.high == 16 && h.low == 8 && h.stage.Data? && h.bitCount == 0 && h.repeatOn == (r > 0)
    requires n == 34 + 2 * r
    ensures AllFresh(h, n) && Bursts(h, n) == NecFrame(h.data, r)
  {
    var m := n - 2 * r - 2;
    BitsSent(h, m, r);
    BitFirst(h, n);
    hide BitBursts, RepeatBursts, Next, Bursts, AllFresh, Fresh;
    var head, bits, end := [Burst(16, 8)], BitBursts(h.data, m), [Burst(1, if r > 0 then 75 else 1)];
    Associate(head, bits, end + RepeatBursts(r));
    Associate(head + bits, end, RepeatBursts(r));
  }

  /**
    For every word and number of repeats the carrier, off at rest, stays off for
    the two ticks that load the head, and then is on and off as the NEC code says.
   */
  lemma {:induction false} CarrierIsNec(s: Info, d: u32, r: nat)
    requires AtRest(s)
    ensures var a := s.(data := d, repeatOn := r > 0, running := true);
            Levels(a, false, Duration(s, d, r)) == [false, false] + Wave(NecFrame(d, r))
  {
    var a, h := s.(data := d, repeatOn := r > 0, running := true), HeadLoaded(s, d, r > 0);
    var n: nat, k: nat := 34 + 2 * r, 2;
    HeadSent(h, r, n);
    FrameStarts(s, d, r > 0, 0);
    QuietStart(a, k);
    SymbolsLevels(h, false, n);
    assert Duration(s, d, r) == k + Sum(Lengths(h, n));
    LevelsSplit(a, false, k, Sum(Lengths(h, n)));
  }

  lemma {:induction false} QuietStart(a: Info, k: nat)
    requires a == Spent(a) && a.stage.Idle? && k == 2
    ensures Levels(a, false, k) == [false, false] && !LevelAfter(a, false, k)
  {
    var b := Irq(a);
    assert b == a.(stage := Head) && Pwm(a).1 == Same && Pwm(b).1 == Same;
    LevelsFirst(a, false, k, false);
    LevelsFirst(b, false, k - 1, false);
    NoLevels(Irq(b));
  }

  // ----- the carrier in every state -----

  /** The carrier is on exactly while a mark is played. */
  predicate InMark(s: Info) {
    !s.highCtrl && s.lowCtrl
  }

  lemma {:induction false} MarkIsLit(s: Info, on: bool)
    requires Playing(s) && on == InMark(s)
    ensures Switched(Pwm(s).1, on) == InMark(Irq(s))
  {}

  lemma {:induction false} LitAfter(s: Info, on: bool, n: nat)
    requires Playing(s) && on == InMark(s) && forall m :: 0 <= m < n ==> After(s, m).running
    ensures LevelAfter(s, on, n) == InMark(After(s, n))
    decreases n
  {
    if n > 0 {
      var now, r := Switched(Pwm(s).1, on), Irq(s);
      MarkIsLit(s, on);
      LevelsFirst(s, on, n, now);
      if n > 1 {
        assert After(s, 1) == After(r, 0) == r && After(s, 1).running;
        PlaysOrEnds(s);
        forall m | 0 <= m < n - 1 ensures After(r, m).running {
          assert After(s, m + 1) == After(r, m);
        }
        LitAfter(r, now, n - 1);
        assert Levels(s, on, n)[n - 1] == Levels(r, now, n - 1)[n - 2];
      }
    }
  }

  /** Whatever is being sent when repeating is stopped, the carrier is off when the transmitter comes to rest. */
  lemma {:induction false} RestIsDark(s: Info, on: bool)
    requires Playing(s) && !s.repeatOn && on == InMark(s)
    ensures !LevelAfter(s, on, ToRest(s))
  {
    ComesToRest(s);
    LitAfter(s, on, ToRest(s));
  }
}
