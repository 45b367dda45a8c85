/**
  The NEC infrared receiver, an interrupt handler that classifies the time
  between two edges, and the round trip through transmitter and receiver.
 */
module IrDecoder {
  import opened IrEncoder
  import WordBits

  const NEC_HEADER_TIME := 24 * TICK_US
  const NEC_BIT_0_TIME := 2 * TICK_US
  const NEC_BIT_1_TIME := 4 * TICK_US
  const NEC_REPEAT_TIME := 20 * TICK_US
  const NEC_TIME_DEVIATION := 10
  const NEC_TIMEOUT_MS := 150

  const NONE: u32 := 0xFFFF_FFFF

  datatype Kind = NecError | NecHead | NecBit1 | NecBit0 | NecRepeat

  /** `is_time_within` */
  predicate IsTimeWithin(t: u32, center: nat, deviation: nat) {
    (if t > center then t - center else center - t) < center * deviation / 100
  }

  /** `ir_decoder_pulse_check` */
  function PulseCheck(us: u32): Kind {
    if IsTimeWithin(us, NEC_HEADER_TIME, NEC_TIME_DEVIATION) then NecHead
    else if IsTimeWithin(us, NEC_BIT_0_TIME, NEC_TIME_DEVIATION) then NecBit0
    else if IsTimeWithin(us, NEC_BIT_1_TIME, NEC_TIME_DEVIATION) then NecBit1
    else if IsTimeWithin(us, NEC_REPEAT_TIME, NEC_TIME_DEVIATION) then NecRepeat
    else NecError
  }

  /** `ticks` transmitter ticks to less than a tenth, in microseconds. */
  predicate Near(us: u32, ticks: nat) {
    var time := ticks * 563;
    time - time / 10 < us < time + time / 10
  }

  /** Which times are recognized as what; all others are none. */
  lemma {:induction false} KindIff(us: u32)
    ensures PulseCheck(us) == NecHead <==> 12161 < us < 14863
    ensures PulseCheck(us) == NecBit0 <==> 1014 < us < 1238
    ensures PulseCheck(us) == NecBit1 <==> 2027 < us < 2477
    ensures PulseCheck(us) == NecRepeat <==> 10134 < us <= 12161
  {}

  /**
    The repeat window reaches into the header window: a time near a repeat code
    is taken for one if and only if it is at most 12161.
   */
  lemma {:induction false} RepeatRecognized(us: u32)
    requires Near(us, 20)
    ensures PulseCheck(us) == NecRepeat <==> us <= 12161
    ensures us > 12161 ==> PulseCheck(us) == NecHead
  {}

  /** `struct ir_decode_t`, without the timer number and the time of the last edge. */
  datatype Received = Received(data: u32, bitCount: byte, commandCount: byte)

  /** The signed 32-bit difference of two tick counts, with the code's correction of a negative one. */
  function JiffiesDiff(now: u32, before: u32): int {
    var d := (now - before) % 0x1_0000_0000;
    if d < 0x8000_0000 then d else d - 0x1_0000_0000 - 1
  }

  predicate TimedOut(now: u32, before: u32, unit: byte) {
    JiffiesDiff(now, before) * unit >= NEC_TIMEOUT_MS
  }

  function Counted(s: Received): Received {
    if s.bitCount == 32 then s.(commandCount := (s.commandCount + 1) % 256) else s
  }

  /** What one edge does, by the kind of the interval it ends. */
  function Take(s: Received, kind: Kind): Received {
    match kind
    case NecHead => s.(bitCount := 0, commandCount := 0)
    case NecBit1 => Counted(s.(data := s.data / 2 + 0x8000_0000, bitCount := (s.bitCount + 1) % 256))
    case NecBit0 => Counted(s.(data := s.data / 2, bitCount := (s.bitCount + 1) % 256))
    case NecRepeat => Counted(s)
    case NecError => s
  }

  /** An edge: the interval measured before it, and whether it came too late to count. */
  datatype Edge = Edge(us: u32, late: bool)

  function Capture(s: Received, e: Edge): Received {
    if e.late then s else Take(s, PulseCheck(e.us))
  }

  class Decoder {
    var info: Received
    var jiffies: u32
    const unit: byte  // milliseconds in a system tick

    constructor (unit: byte, now: u32)
      ensures info == Received(0, 0, 0) && jiffies == now && this.unit == unit
    {
      this.unit := unit;
      info := Received(0, 0, 0);
      jiffies := now;
    }

    method JiffiesTimeoutCheck(now: u32) returns (out: bool)
      modifies this`jiffies
      ensures jiffies == now && out == TimedOut(now, old(jiffies), unit)
    {
      var diff := (now - jiffies) % 0x1_0000_0000;
      if diff >= 0x8000_0000 {
        diff := diff - 0x1_0000_0000;
      }
      jiffies := now;
      if diff < 0 {
        diff := diff - 1;
      }
      out := diff * unit >= NEC_TIMEOUT_MS;
    }

    method BitCountCheck()
      modifies this`info
      ensures info == Counted(old(info))
    {
      if info.bitCount == 32 {
        info := info.(commandCount := (info.commandCount + 1) % 256);
      }
    }

    /** `ir_decode_irq`, `us` being the captured interval and `now` the system tick. */
    method CaptureIrq(us: u32, now: u32)
      modifies this
      ensures info == Capture(old(info), Edge(us, TimedOut(now, old(jiffies), unit))) && jiffies == now
    {
      var out := JiffiesTimeoutCheck(now);
      if out {
        return;
      }
      match PulseCheck(us)
      case NecHead =>
        info := info.(bitCount := 0);
        info := info.(commandCount := 0);
      case NecBit1 =>
        info := info.(data := info.data / 2);
        info := info.(data := info.data + 0x8000_0000);
        info := info.(bitCount := (info.bitCount + 1) % 256);
        BitCountCheck();
      case NecBit0 =>
        info := info.(data := info.data / 2);
        info := info.(bitCount := (info.bitCount + 1) % 256);
        BitCountCheck();
      case NecRepeat => BitCountCheck();
      case NecError =>
    }

    /** `ir_decoder_get_data` */
    method GetData() returns (data: u32)
      modifies this`info
      ensures data == if old(info).commandCount > 0 then old(info).data else NONE
      ensures info == if old(info).commandCount > 0
                      then old(info).(commandCount := old(info).commandCount - 1) else old(info)
    {
      data := NONE;
      if info.commandCount != 0 {
        info := info.(commandCount := info.commandCount - 1);
        data := info.data;
      }
    }

    /** `ir_decoder_get_command_value`: the command byte if its complement agrees, else 255. */
    method GetCommandValue() returns (value: u32)
      modifies this`info
      ensures forall addr: byte, cmd: byte ::
                old(info).commandCount > 0 && old(info).data == Frame(addr, cmd) ==> value == cmd
      ensures var d := old(info).data;
              value == if old(info).commandCount == 0 || d == NONE then NONE
                       else if d / 0x1_0000 % 0x100 + d / 0x100_0000 % 0x100 == 255 then d / 0x1_0000 % 0x100 else 255
      ensures info == old(info).(commandCount := if old(info).commandCount > 0 then old(info).commandCount - 1 else 0)
    {
      FrameParts();
      var data := GetData();
      if data == NONE {
        return NONE;
      }
      var cmd, cmdNot := data / 0x1_0000 % 0x100, data / 0x100_0000 % 0x100;
      // the exclusive or of two bytes is 0xff exactly when they add up to 0xff
      value := if cmd + cmdNot == 255 then cmd else 255;
    }

    /** `ir_decoder_get_address_value`: the address byte if its complement agrees, else 255. */
    method GetAddressValue() returns (value: u32)
      modifies this`info
      ensures forall addr: byte, cmd: byte ::
                old(info).commandCount > 0 && old(info).data == Frame(addr, cmd) ==> value == addr
      ensures var d := old(info).data;
              value == if old(info).commandCount == 0 || d == NONE then NONE
                       else if d % 0x100 + d / 0x100 % 0x100 == 255 then d % 0x100 else 255
      ensures info == old(info).(commandCount := if old(info).commandCount > 0 then old(info).commandCount - 1 else 0)
    {
      FrameParts();
      var data := GetData();
      if data == NONE {
        return NONE;
      }
      var addr, addrNot := data % 0x100, data / 0x100 % 0x100;
      value := if addr + addrNot == 255 then addr else 255;
    }
  }

  lemma {:induction false} FrameParts()
    ensures forall addr: byte, cmd: byte :: var d := Frame(addr, cmd);
              d != NONE && d % 0x100 == addr && d / 0x100 % 0x100 == 255 - addr
              && d / 0x1_0000 % 0x100 == cmd && d / 0x100_0000 % 0x100 == 255 - cmd
  {
    forall addr: byte, cmd: byte
      ensures var d := Frame(addr, cmd);
              d != NONE && d % 0x100 == addr && d / 0x100 % 0x100 == 255 - addr
              && d / 0x1_0000 % 0x100 == cmd && d / 0x100_0000 % 0x100 == 255 - cmd
    {
      FourBytes(255 - cmd, cmd, 255 - addr, addr);
    }
  }

  lemma {:induction false} FourBytes(a: byte, b: byte, c: byte, e: byte)
    ensures var d := a * 0x100_0000 + b * 0x1_0000 + c * 0x100 + e;
            d % 0x100 == e && d / 0x100 % 0x100 == c && d / 0x1_0000 % 0x100 == b && d / 0x100_0000 % 0x100 == a
  {
    var d := a * 0x100_0000 + b * 0x1_0000 + c * 0x100 + e;
    assert d / 0x100 == a * 0x1_0000 + b * 0x100 + c;
    assert d / 0x1_0000 == a * 0x100 + b;
    assert d / 0x100_0000 == a;
  }

  // ----- the receiver over a run of edges -----

  function CaptureAll(s: Received, edges: seq<Edge>): Received
    decreases edges
  {
    if edges == [] then s else CaptureAll(Capture(s, edges[0]), edges[1..])
  }

  /** A measurement of `ticks` timer periods: in time, within a tenth, and a repeat code below the header window. */
  predicate Measures(e: Edge, ticks: nat) {
    !e.late && Times(e.us, ticks)
  }

  predicate Times(us: u32, ticks: nat) {
    Near(us, ticks) && (ticks == 20 ==> us <= 12161)
  }

  predicate AllMeasure(edges: seq<Edge>, ticks: seq<nat>) {
    |edges| == |ticks| && forall i :: 0 <= i < |edges| ==> Measures(edges[i], ticks[i])
  }

  function KindOf(ticks: nat): Kind {
    match ticks
    case 24 => NecHead
    case 4 => NecBit1
    case 2 => NecBit0
    case 20 => NecRepeat
    case _ => NecError
  }

  /** Every interval a transmitter sends is recognized from any measurement of it. */
  lemma {:induction false} Recognized(us: u32, ticks: nat)
    requires Times(us, ticks) && ticks in {2, 4, 20, 24, 76, 176}
    ensures PulseCheck(us) == KindOf(ticks)
  {}

  /** The bits of a word, least significant first, and back. */
  function BitsOfWord(d: nat, n: nat): (r: seq<bool>)
    ensures |r| == n
    decreases n
  {
    if n == 0 then [] else [d % 2 == 1] + BitsOfWord(d / 2, n - 1)
  }

  function WordOf(bits: seq<bool>): nat {
    if bits == [] then 0 else (if bits[0] then 1 else 0) + 2 * WordOf(bits[1..])
  }

  lemma {:induction false} WordOfBits(d: nat, n: nat)
    requires d < WordBits.Pow2(n)
    ensures WordOf(BitsOfWord(d, n)) == d
    decreases n
  {
    if n > 0 {
      WordOfBits(d / 2, n - 1);
      assert BitsOfWord(d, n)[1..] == BitsOfWord(d / 2, n - 1);
    }
  }

  lemma {:induction false} WordAppend(bits: seq<bool>, b: bool)
    ensures WordOf(bits + [b]) == WordOf(bits) + (if b then WordBits.Pow2(|bits|) else 0)
  {
    if bits != [] {
      WordAppend(bits[1..], b);
      assert (bits + [b])[1..] == bits[1..] + [b];
    }
  }

  /** Shifting a word right and putting a bit on top, on its bits. */
  lemma {:induction false} ShiftIn(bits: seq<bool>, b: bool)
    requires |bits| == 32
    ensures WordOf(bits[1..] + [b]) == WordOf(bits) / 2 + (if b then 0x8000_0000 else 0)
  {
    WordAppend(bits[1..], b);
    WordBits.Pow2Of32();
  }

  /** The last 32 bits of those held and those received. */
  function Window(bits: seq<bool>, incoming: seq<bool>): seq<bool>
    requires |bits| == 32
  {
    (bits + incoming)[|incoming|..]
  }

  lemma {:induction false} FirstOfBits(s: Received, edges: seq<Edge>, d: nat, n: nat)
    requires n > 0 && edges != []
    ensures CaptureAll(s, edges) == CaptureAll(Capture(s, edges[0]), edges[1..])
    ensures BitsOfWord(d, n) == [d % 2 == 1] + BitsOfWord(d / 2, n - 1)
  {
    hide Capture;
  }

  /** `n` measured bits shift in the bits of `d`; only the 32nd completes a command. */
  lemma {:induction false} BitsTaken(s: Received, edges: seq<Edge>, d: nat, n: nat, bits: seq<bool>)
    requires |bits| == 32 && s.data == WordOf(bits) && s.bitCount + n <= 32
    requires AllMeasure(edges, BitLengths(d, n))
    ensures var t := CaptureAll(s, edges);
            && t.data == WordOf(Window(bits, BitsOfWord(d, n)))
            && t.bitCount == s.bitCount + n
            && t.commandCount == (if n > 0 && s.bitCount + n == 32 then (s.commandCount + 1) % 256 else s.commandCount)
    decreases n
  {
    if n == 0 {
      hide WordOf, Capture, Measures;
      assert Window(bits, []) == bits;
    } else {
      var b := d % 2 == 1;
      hide WordOf, Window, Capture, AllMeasure, Measures, BitLengths;
      TailMeasures(edges, d, n);
      BitTaken(s, edges[0], b, bits);
      FirstOfBits(s, edges, d, n);
      hide CaptureAll, BitsOfWord;
      BitsTaken(Capture(s, edges[0]), edges[1..], d / 2, n - 1, bits[1..] + [b]);
      WindowStep(bits, b, BitsOfWord(d / 2, n - 1));
    }
  }

  /** One measured bit: it is shifted in, and the 32nd completes a command. */
  lemma {:induction false} BitTaken(s: Received, e: Edge, b: bool, bits: seq<bool>)
    requires |bits| == 32 && s.data == WordOf(bits) && s.bitCount < 32
    requires Measures(e, if b then 4 else 2)
    ensures var t := Capture(s, e);
            && t.data == WordOf(bits[1..] + [b]) && t.bitCount == s.bitCount + 1
            && t.commandCount == if s.bitCount == 31 then (s.commandCount + 1) % 256 else s.commandCount
  {
    Recognized(e.us, if b then 4 else 2);
    ShiftIn(bits, b);
  }

  lemma {:induction false} TailMeasures(edges: seq<Edge>, d: nat, n: nat)
    requires n > 0 && AllMeasure(edges, BitLengths(d, n))
    ensures edges != [] && Measures(edges[0], if d % 2 == 1 then 4 else 2)
    ensures AllMeasure(edges[1..], BitLengths(d / 2, n - 1))
  {
    var ticks := BitLengths(d, n);
    assert ticks[0] == if d % 2 == 1 then 4 else 2;
    assert ticks[1..] == BitLengths(d / 2, n - 1);
    forall i | 0 <= i < |edges| - 1 ensures Measures(edges[1..][i], ticks[1..][i]) {
      assert Measures(edges[i + 1], ticks[i + 1]);
    }
  }

  lemma {:induction false} WholeWindow(bits: seq<bool>, incoming: seq<bool>)
    requires |bits| == 32 && |incoming| == 32
    ensures Window(bits, incoming) == incoming
  {}

  lemma {:induction false} WindowStep(bits: seq<bool>, b: bool, more: seq<bool>)
    requires |bits| == 32
    ensures Window(bits, [b] + more) == Window(bits[1..] + [b], more)
  {}

  lemma {:induction false} CountOn(count: byte, r: nat)
    ensures ((count + 1) % 256 + r) % 256 == (count + (r + 1)) % 256
  {}

  lemma {:induction false} RepeatsTaken(s: Received, edges: seq<Edge>, r: nat, first: bool)
    requires s.bitCount == 32 && AllMeasure(edges, RepeatLengths(r, first))
    ensures var t := CaptureAll(s, edges);
            t.data == s.data && t.bitCount == 32 && t.commandCount == (s.commandCount + r) % 256
    decreases r
  {
    if r > 0 {
      RepeatMeasures(edges, r, first);
      TwoEdges(s, edges);
      RepeatTaken(s, edges[0], edges[1], if first then 76 else 176);
      var t := s.(commandCount := (s.commandCount + 1) % 256);
      RepeatsTaken(t, edges[2..], r - 1, false);
      CountOn(s.commandCount, r - 1);
    } else {
      assert CaptureAll(s, edges) == s;
    }
  }

  lemma {:induction false} RepeatMeasures(edges: seq<Edge>, r: nat, first: bool)
    requires r > 0 && AllMeasure(edges, RepeatLengths(r, first))
    ensures |edges| >= 2 && Measures(edges[0], if first then 76 else 176) && Measures(edges[1], 20)
    ensures AllMeasure(edges[2..], RepeatLengths(r - 1, false))
  {
    var pair := [if first then 76 else 176, 20];
    SplitMeasures(edges, pair, RepeatLengths(r - 1, false));
    assert Measures(edges[..2][0], pair[0]) && Measures(edges[..2][1], pair[1]);
  }

  lemma {:induction false} TwoEdges(s: Received, edges: seq<Edge>)
    requires |edges| >= 2
    ensures CaptureAll(s, edges) == CaptureAll(Capture(Capture(s, edges[0]), edges[1]), edges[2..])
  {
    assert edges[1..][1..] == edges[2..] && edges[1..][0] == edges[1];
  }

  lemma {:induction false} RepeatTaken(s: Received, pause: Edge, code: Edge, ticks: nat)
    requires s.bitCount == 32 && ticks in {76, 176} && Measures(pause, ticks) && Measures(code, 20)
    ensures Capture(Capture(s, pause), code)
         == s.(commandCount := (s.commandCount + 1) % 256)
  {
    Recognized(pause.us, ticks);
    Recognized(code.us, 20);
  }

  lemma {:induction false} CaptureSplit(s: Received, a: seq<Edge>, b: seq<Edge>)
    ensures CaptureAll(s, a + b) == CaptureAll(CaptureAll(s, a), b)
    decreases a
  {
    if a == [] {
      assert a + b == b;
    } else {
      assert (a + b)[1..] == a[1..] + b;
      CaptureSplit(Capture(s, a[0]), a[1..], b);
    }
  }

  /** A header edge, whatever was received before. */
  lemma {:induction false} HeadTaken(s: Received, e: Edge)
    requires Measures(e, 24)
    ensures Capture(s, e) == Received(s.data, 0, 0)
  {
    Recognized(e.us, 24);
  }

  /** A word, then repeats, after a header. */
  lemma {:induction false} WordTaken(s: Received, edges: seq<Edge>, d: u32, r: nat)
    requires s.bitCount == 0 && s.commandCount == 0
    requires AllMeasure(edges, BitLengths(d, 32) + RepeatLengths(r, true))
    ensures var t := CaptureAll(s, edges);
            t.data == d && t.bitCount == 32 && t.commandCount == (1 + r) % 256
  {
    BitLengthsSize(d, 32);
    SplitMeasures(edges, BitLengths(d, 32), RepeatLengths(r, true));
    var word, repeats := edges[..32], edges[32..];
    assert word + repeats == edges;
    CaptureSplit(s, word, repeats);
    ThirtyTwoBits(s, word, d);
    RepeatsTaken(CaptureAll(s, word), repeats, r, true);
  }

  lemma {:induction false} ThirtyTwoBits(s: Received, word: seq<Edge>, d: u32)
    requires s.bitCount == 0 && s.commandCount == 0
    requires AllMeasure(word, BitLengths(d, 32))
    ensures var t := CaptureAll(s, word); t.data == d && t.bitCount == 32 && t.commandCount == 1
  {
    WordBits.Pow2Of32();
    WordOfBits(s.data, 32);
    WordOfBits(d, 32);
    BitsTaken(s, word, d, 32, BitsOfWord(s.data, 32));
    WholeWindow(BitsOfWord(s.data, 32), BitsOfWord(d, 32));
  }

  lemma {:induction false} BitLengthsSize(d: nat, n: nat)
    ensures |BitLengths(d, n)| == n
    decreases n
  {
    if n > 0 {
      BitLengthsSize(d / 2, n - 1);
    }
  }

  lemma {:induction false} SplitMeasures(edges: seq<Edge>, a: seq<nat>, b: seq<nat>)
    requires AllMeasure(edges, a + b)
    ensures AllMeasure(edges[..|a|], a) && AllMeasure(edges[|a|..], b)
  {
    forall i | 0 <= i < |a| ensures Measures(edges[..|a|][i], a[i]) {
      assert Measures(edges[i], (a + b)[i]);
    }
    forall i | 0 <= i < |b| ensures Measures(edges[|a|..][i], b[i]) {
      assert Measures(edges[i + |a|], (a + b)[i + |a|]);
    }
  }

  lemma {:induction false} HeadMeasured(edges: seq<Edge>, rest: seq<nat>)
    requires AllMeasure(edges, [24] + rest)
    ensures |edges| > 0 && Measures(edges[0], 24) && AllMeasure(edges[1..], rest)
  {
    SplitMeasures(edges, [24], rest);
    assert Measures(edges[..1][0], [24][0]);
  }

  /** The first edge only starts the time measurement; the second ends a header. */
  lemma {:induction false} HeadFollows(s: Received, first: Edge, edges: seq<Edge>)
    requires |edges| > 0 && Measures(edges[0], 24)
    ensures var t := Received(Capture(s, first).data, 0, 0);
            CaptureAll(s, [first] + edges) == CaptureAll(t, edges[1..])
  {
    var all := [first] + edges;
    TwoEdges(s, all);
    assert all[0] == first && all[1] == edges[0] && all[2..] == edges[1..];
    HeadTaken(Capture(s, first), edges[0]);
  }

  /**
    From any receiver state and any first edge: the frame arrives whole, and
    each repeat makes one more command available until the count wraps.
   */
  lemma {:induction false} FrameIsReceived(s: Received, first: Edge, edges: seq<Edge>, d: u32, r: nat)
    requires AllMeasure(edges, Sent(d, r))
    ensures var t := CaptureAll(s, [first] + edges);
            t.data == d && t.bitCount == 32 && t.commandCount == (1 + r) % 256
  {
    var bits, reps := BitLengths(d, 32), RepeatLengths(r, true);
    assert Sent(d, r) == [24] + (bits + reps);
    HeadMeasured(edges, bits + reps);
    HeadFollows(s, first, edges);
    WordTaken(Received(Capture(s, first).data, 0, 0), edges[1..], d, r);
  }

  // ----- edges that do not count -----

  /** An edge that came too late, or after a time in no window. */
  predicate Noise(e: Edge) {
    e.late || !(1014 < e.us < 1238 || 2027 < e.us < 2477 || 10134 < e.us < 14863)
  }

  function Clean(edges: seq<Edge>): seq<Edge>
    decreases edges
  {
    if edges == [] then []
    else if Noise(edges[0]) then Clean(edges[1..])
    else [edges[0]] + Clean(edges[1..])
  }

  /** Such edges leave no trace. */
  lemma {:induction false} NoiseIgnored(s: Received, edges: seq<Edge>)
    ensures CaptureAll(s, edges) == CaptureAll(s, Clean(edges))
    decreases edges
  {
    if edges != [] {
      KindIff(edges[0].us);
      NoiseIgnored(Capture(s, edges[0]), edges[1..]);
      assert ([edges[0]] + Clean(edges[1..]))[1..] == Clean(edges[1..]);
    }
  }

  /** The frame arrives through any such edges between those of the transmission. */
  lemma {:induction false} FrameThroughNoise(s: Received, first: Edge, edges: seq<Edge>, sent: seq<Edge>, d: u32,
                                             r: nat)
    requires AllMeasure(sent, Sent(d, r)) && Clean(edges) == Clean(sent)
    ensures var t := CaptureAll(s, [first] + edges);
            t.data == d && t.bitCount == 32 && t.commandCount == (1 + r) % 256
  {
    hide Capture, Clean, AllMeasure, Sent;
    FrameIsReceived(s, first, sent, d, r);
    NoiseIgnored(Capture(s, first), edges);
    NoiseIgnored(Capture(s, first), sent);
    assert ([first] + edges)[1..] == edges && ([first] + sent)[1..] == sent;
  }

  // ----- interrupts in time -----

  /** A capture interrupt: the interval measured, and the system tick when the handler runs. */
  datatype Interrupt = Interrupt(us: u32, now: u32)

  /** What a run of interrupts leaves, the last edge before them at tick `jiffies`. */
  function InterruptAll(s: Received, jiffies: u32, unit: byte, irqs: seq<Interrupt>): Received
    decreases irqs
  {
    if irqs == [] then s
    else
      var late := TimedOut(irqs[0].now, jiffies, unit);
      InterruptAll(Capture(s, Edge(irqs[0].us, late)), irqs[0].now, unit, irqs[1..])
  }

  /** The handler, called for each interrupt. */
  method Receive(d: Decoder, irqs: seq<Interrupt>)
    modifies d
    ensures d.info == InterruptAll(old(d.info), old(d.jiffies), d.unit, irqs)
    ensures d.jiffies == if irqs == [] then old(d.jiffies) else irqs[|irqs| - 1].now
  {
    var i := 0;
    assert irqs[0..] == irqs;
    while i < |irqs|
      invariant i <= |irqs|
      invariant d.jiffies == if i == 0 then old(d.jiffies) else irqs[i - 1].now
      invariant InterruptAll(d.info, d.jiffies, d.unit, irqs[i..])
                == InterruptAll(old(d.info), old(d.jiffies), d.unit, irqs)
    {
      assert irqs[i..][1..] == irqs[i + 1..];
      d.CaptureIrq(irqs[i].us, irqs[i].now);
      i := i + 1;
    }
  }

  /** The system tick at a time in microseconds, for ticks of `unit` milliseconds. */
  function Tick(time: nat, unit: byte): u32
    requires 0 < unit
  {
    time / (1000 * unit) % 0x1_0000_0000
  }

  /** The ticks advance by the intervals measured, the edge before them being at `time`. */
  predicate Clocked(irqs: seq<Interrupt>, time: nat, unit: byte)
    requires 0 < unit
    decreases irqs
  {
    irqs == [] || (irqs[0].now == Tick(time + irqs[0].us, unit) && Clocked(irqs[1..], time + irqs[0].us, unit))
  }

  lemma {:induction false} TicksBetween(time: nat, us: nat, p: nat)
    requires 0 < p
    ensures time / p <= (time + us) / p && ((time + us) / p - time / p) * p <= us + p - 1
  {
    var a, b := time / p, (time + us) / p;
    assert p * a <= time < p * a + p && p * b <= time + us < p * b + p;
    Distributes(b - a, b, a, p);
    if b < a {
      Ordered(p, b, a);
    }
  }

  lemma {:induction false} Distributes(d: int, b: nat, a: nat, p: nat)
    requires d == b - a
    ensures d * p == p * b - p * a
  {}

  lemma {:induction false} Ordered(p: nat, b: nat, a: nat)
    requires b < a
    ensures p * b + p <= p * a
  {
    assert p * (b + 1) <= p * a;
  }

  /** The difference of two ticks less than 2 to the 31 apart does not see that they are cut to 32 bits. */
  lemma {:induction false} DiffIsExact(a: nat, d: nat)
    requires d < 0x8000_0000
    ensures JiffiesDiff((a + d) % 0x1_0000_0000, a % 0x1_0000_0000) == d
  {}

  /** An edge `d` ticks after the last is late if and only if they make 150 ms; one before it never is. */
  lemma {:induction false} LateIff(a: nat, d: nat, unit: byte)
    requires d < 0x8000_0000
    ensures TimedOut((a + d) % 0x1_0000_0000, a % 0x1_0000_0000, unit) <==> d * unit >= 150
    ensures d > 0 ==> !TimedOut(a % 0x1_0000_0000, (a + d) % 0x1_0000_0000, unit)
  {
    DiffIsExact(a, d);
    if d > 0 {
      DiffIsNegative(a, d);
      NegativeTimes(JiffiesDiff(a % 0x1_0000_0000, (a + d) % 0x1_0000_0000), unit);
    }
    hide JiffiesDiff;
  }

  lemma {:induction false} DiffIsNegative(a: nat, d: nat)
    requires 0 < d < 0x8000_0000
    ensures JiffiesDiff(a % 0x1_0000_0000, (a + d) % 0x1_0000_0000) < 0
  {}

  lemma {:induction false} NegativeTimes(d: int, unit: nat)
    requires d < 0
    ensures d * unit <= 0
  {}

  lemma {:induction false} TicksOf(time: nat, us: nat, unit: byte) returns (a: nat, d: nat)
    requires 0 < unit
    ensures Tick(time, unit) == a % 0x1_0000_0000 && Tick(time + us, unit) == (a + d) % 0x1_0000_0000
    ensures d * (1000 * unit) <= us + 1000 * unit - 1
  {
    var p: nat := 1000 * unit;
    TicksBetween(time, us, p);
    a := time / p;
    d := (time + us) / p - a;
    assert a + d == (time + us) / p;
  }

  lemma {:induction false} FewTicks(d: nat, unit: nat, us: nat)
    requires 0 < unit <= 41 && us <= 108_996 && d * (1000 * unit) <= us + 1000 * unit - 1
    ensures d * unit < NEC_TIMEOUT_MS && d <= d * unit
  {
    assert d * (1000 * unit) == 1000 * (d * unit);
  }

  lemma {:induction false} ShortInterval(us: u32, ticks: nat)
    requires ticks <= 176 && Times(us, ticks)
    ensures us <= 108_996
  {}

  /** No interval of a transmission can time out, however its edges fall between ticks of at most 41 milliseconds. */
  lemma {:induction false} InTime(time: nat, us: u32, unit: byte, ticks: nat)
    requires 0 < unit <= 41 && ticks <= 176 && Times(us, ticks)
    ensures !TimedOut(Tick(time + us, unit), Tick(time, unit), unit)
  {
    hide *;
    ShortInterval(us, ticks);
    var a, d := TicksOf(time, us, unit);
    FewTicks(d, unit, us);
    LateIff(a, d, unit);
  }

  /** Every interval is a measurement of the time it stands for. */
  predicate AllTime(irqs: seq<Interrupt>, ticks: seq<nat>) {
    |irqs| == |ticks| && forall i :: 0 <= i < |irqs| ==> Times(irqs[i].us, ticks[i])
  }

  predicate AllShort(ticks: seq<nat>) {
    forall i :: 0 <= i < |ticks| ==> ticks[i] <= 176
  }

  /** The edges as the handler sees them. */
  function Edges(jiffies: u32, unit: byte, irqs: seq<Interrupt>): (r: seq<Edge>)
    ensures |r| == |irqs|
    decreases irqs
  {
    if irqs == [] then []
    else [Edge(irqs[0].us, TimedOut(irqs[0].now, jiffies, unit))] + Edges(irqs[0].now, unit, irqs[1..])
  }

  lemma {:induction false} InterruptsAreEdges(s: Received, jiffies: u32, unit: byte, irqs: seq<Interrupt>)
    ensures InterruptAll(s, jiffies, unit, irqs) == CaptureAll(s, Edges(jiffies, unit, irqs))
    decreases irqs
  {
    if irqs != [] {
      var e := Edge(irqs[0].us, TimedOut(irqs[0].now, jiffies, unit));
      InterruptsAreEdges(Capture(s, e), irqs[0].now, unit, irqs[1..]);
      assert Edges(jiffies, unit, irqs)[1..] == Edges(irqs[0].now, unit, irqs[1..]);
    }
  }

  lemma {:induction false} ClockedMeasures(irqs: seq<Interrupt>, time: nat, unit: byte, ticks: seq<nat>)
    requires 0 < unit <= 41 && Clocked(irqs, time, unit) && AllTime(irqs, ticks) && AllShort(ticks)
    ensures AllMeasure(Edges(Tick(time, unit), unit, irqs), ticks)
    decreases irqs
  {
    if irqs != [] {
      var us := irqs[0].us;
      InTime(time, us, unit, ticks[0]);
      assert AllTime(irqs[1..], ticks[1..]) && AllShort(ticks[1..]);
      ClockedMeasures(irqs[1..], time + us, unit, ticks[1..]);
      OneMoreMeasure(Edge(us, false), Edges(irqs[0].now, unit, irqs[1..]), ticks);
    }
  }

  lemma {:induction false} OneMoreMeasure(e: Edge, edges: seq<Edge>, ticks: seq<nat>)
    requires ticks != [] && Measures(e, ticks[0]) && AllMeasure(edges, ticks[1..])
    ensures AllMeasure([e] + edges, ticks)
  {
    forall i | 0 <= i < |ticks| ensures Measures(([e] + edges)[i], ticks[i]) {
      if i > 0 {
        assert Measures(edges[i - 1], ticks[1..][i - 1]);
      }
    }
  }

  lemma {:induction false} BitLengthsShort(d: nat, n: nat)
    ensures AllShort(BitLengths(d, n))
    decreases n
  {
    if n > 0 {
      BitLengthsShort(d / 2, n - 1);
    }
  }

  lemma {:induction false} RepeatLengthsShort(r: nat, first: bool)
    ensures AllShort(RepeatLengths(r, first))
    decreases r
  {
    if r > 0 {
      RepeatLengthsShort(r - 1, false);
    }
  }

  /** Every interval of a frame with its repeats is short. */
  lemma {:induction false} SentIsShort(d: nat, r: nat)
    ensures AllShort(Sent(d, r))
  {
    BitLengthsShort(d, 32);
    RepeatLengthsShort(r, true);
  }

  /**
    Through transmitter, jitter, clock and receiver: what `ir_encoder_tx` was
    asked to send is what the handler leaves, from any state and whatever the
    first interrupt brings, if the others measure the transmitter's intervals
    and the clock runs on by what they measure.
   */
  lemma {:induction false} RoundTrip(tx: IrEncoder.Info, addr: byte, cmd: byte, r: nat, t: nat, s: Received,
                                     jiffies: u32, unit: byte, time: nat, us: u32, irqs: seq<Interrupt>,
                                     ticks: seq<nat>)
    requires AtRest(tx) && 0 < unit <= 41
    requires ticks == Gaps(OnTicks(tx.(data := Frame(addr, cmd), repeatOn := r > 0, running := true), t,
                                   Duration(tx, Frame(addr, cmd), r)))
    requires AllTime(irqs, ticks) && Clocked(irqs, time, unit)
    ensures var rx := InterruptAll(s, jiffies, unit, [Interrupt(us, Tick(time, unit))] + irqs);
            rx.data == Frame(addr, cmd) && rx.commandCount == (1 + r) % 256
  {
    var d, all := Frame(addr, cmd), [Interrupt(us, Tick(time, unit))] + irqs;
    FrameIsSent(tx, d, r, t);
    assert ticks == Sent(d, r);
    hide *;
    SentIsShort(d, r);
    FirstEdge(jiffies, unit, all[0], irqs);
    InterruptsAreEdges(s, jiffies, unit, all);
    ClockedMeasures(irqs, time, unit, ticks);
    FrameIsReceived(s, Edges(jiffies, unit, all)[0], Edges(Tick(time, unit), unit, irqs), d, r);
  }

  lemma {:induction false} FirstEdge(jiffies: u32, unit: byte, first: Interrupt, irqs: seq<Interrupt>)
    ensures var edges := Edges(jiffies, unit, [first] + irqs);
            |edges| == 1 + |irqs| && edges == [edges[0]] + Edges(first.now, unit, irqs)
  {
    assert ([first] + irqs)[1..] == irqs;
  }
}
