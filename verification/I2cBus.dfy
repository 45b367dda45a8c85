/**
  The two I2C wires, a reference receiver that decodes their trace (sections
  3.1.3 to 3.1.6 of NXP UM10204), and any slave that keeps to the protocol.
 */
module I2cBus {
  import opened WordBits

  type byte = b: int | 0 <= b < 256

  datatype Line = Line(scl: bool, sda: bool)

  const IDLE := Line(true, true)

  /** What the receiver reports; `Broken` is a condition in the middle of a byte. */
  datatype Event = Start | Stop | Byte(value: byte, acked: bool) | Broken(bits: seq<bool>)

  /** Who may drive SDA next: nobody, the master (an address, then data), or the slave. */
  datatype Phase = Free | Address | Receive | Transmit | Ignore

  /** `condition` is set from a START or STOP to the end of that clock pulse, which carries no bit. */
  datatype Receiver = Receiver(phase: Phase, condition: bool, bits: seq<bool>, count: nat, events: seq<Event>)

  const LISTENING := Receiver(Free, false, [], 0, [])

  /** The number the bits stand for, most significant bit first. */
  function Value(bits: seq<bool>): nat {
    if bits == [] then 0 else 2 * Value(bits[..|bits| - 1]) + (if bits[|bits| - 1] then 1 else 0)
  }

  lemma {:induction false} ValueBound(bits: seq<bool>)
    ensures Value(bits) < Pow2(|bits|)
  {
    if bits != [] {
      ValueBound(bits[..|bits| - 1]);
    }
  }

  /** After the byte's acknowledge bit: a slave that is addressed to be read transmits until it is not acknowledged. */
  function NextPhase(phase: Phase, value: byte, acked: bool): Phase {
    if !acked then Ignore
    else if phase.Address? then (if value % 2 == 1 then Transmit else Receive)
    else phase
  }

  function ByteDone(r: Receiver, value: byte, acked: bool): Receiver {
    Receiver(NextPhase(r.phase, value, acked), false, [], r.count + 1, r.events + [Byte(value, acked)])
  }

  /** The bit of a clock pulse counts when SCL falls. */
  function Clock(r: Receiver, bit: bool): Receiver
    requires |r.bits| <= 8
  {
    if r.condition || r.phase.Free? then r.(condition := false)
    else if |r.bits| < 8 then r.(bits := r.bits + [bit])
    else
      ValueBound(r.bits);
      assert Pow2(8) == 256;
      ByteDone(r, Value(r.bits), !bit)
  }

  function Condition(r: Receiver, event: Event, phase: Phase): Receiver {
    Receiver(phase, true, [], r.count, r.events + (if r.bits == [] then [] else [Broken(r.bits)]) + [event])
  }

  /** One change of the wires. */
  function Observe(r: Receiver, before: Line, now: Line): (s: Receiver)
    requires |r.bits| <= 8
    ensures |s.bits| <= 8
  {
    if before.scl && now.scl then
      if before.sda && !now.sda then Condition(r, Start, Address)
      else if !before.sda && now.sda then Condition(r, Stop, Free)
      else r
    else if before.scl && !now.scl then Clock(r, before.sda)
    else r
  }

  /** The receiver after a whole trace that starts from the idle bus. */
  function Decode(trace: seq<Line>): (r: Receiver)
    ensures |r.bits| <= 8
  {
    if trace == [] then LISTENING
    else
      var before := trace[..|trace| - 1];
      Observe(Decode(before), if before == [] then IDLE else before[|before| - 1], trace[|trace| - 1])
  }

  /**
    A slave: which bytes it acknowledges, what it transmits, by the number of
    the byte on the bus, and how it pulls SDA about while SCL is low.
   */
  datatype Slave = Slave(ack: nat -> bool, data: nat -> byte, wiggle: nat -> bool)

  /** Bit `i` of a byte, most significant first. */
  predicate Bit(b: byte, i: nat)
    requires i < 8
  {
    Shr(b, 7 - i) % 2 == 1
  }

  /** Whether the slave holds SDA low through the next clock pulse. */
  predicate Holds(slave: Slave, r: Receiver)
  {
    match r.phase
    case Address => |r.bits| == 8 && slave.ack(r.count)
    case Receive => |r.bits| == 8 && slave.ack(r.count)
    case Transmit => |r.bits| < 8 && !Bit(slave.data(r.count), |r.bits|)
    case _ => false
  }

  /** What the master releases, what the slave holds, the level on the wires, and all that was seen. */
  datatype Wires = Wires(scl: bool, sda: bool, hold: bool, line: Line, rx: Receiver, trace: seq<Line>)

  const QUIET := Wires(true, true, false, IDLE, LISTENING, [])

  /** The master sets its two outputs; a wire is high when nobody pulls it low. */
  function Move(w: Wires, slave: Slave, scl: bool, sda: bool): Wires
    requires |w.rx.bits| <= 8
  {
    var line := Line(scl, sda && (if scl then !w.hold else !slave.wiggle(|w.trace|)));
    var rx := Observe(w.rx, w.line, line);
    Wires(scl, sda, if w.scl && !scl then Holds(slave, rx) else w.hold, line, rx, w.trace + [line])
  }

  /** Asks for what `Decoded` says of a trace. */
  ghost predicate Recall(trace: seq<Line>) {
    true
  }

  /** The receiver is where decoding the whole trace puts it. */
  ghost predicate Decoded(rx: Receiver, trace: seq<Line>) {
    forall t: seq<Line> {:trigger Recall(t)} :: Recall(t) && t == trace ==> rx == Decode(t)
  }

  /** The receiver has seen the trace, and the last line of it is on the wires. */
  ghost predicate Consistent(w: Wires) {
    && Decoded(w.rx, w.trace) && |w.rx.bits| <= 8
    && w.line == (if w.trace == [] then IDLE else w.trace[|w.trace| - 1])
    && w.line.scl == w.scl
    && (w.scl ==> w.line.sda == (w.sda && !w.hold))
  }

  /** All that was seen before was seen first. */
  ghost predicate Extends(before: Wires, after: Wires) {
    before.trace <= after.trace
  }

  lemma {:induction false} MoveConsistent(w: Wires, slave: Slave, scl: bool, sda: bool)
    requires Consistent(w)
    ensures Consistent(Move(w, slave, scl, sda)) && Extends(w, Move(w, slave, scl, sda))
  {
    var t := w.trace;
    var line := Move(w, slave, scl, sda).line;
    assert Recall(t);
    assert (t + [line])[..|t + [line]| - 1] == t;
  }

  // ----- SDA is stable while SCL is high (section 3.1.3) -----

  /** How often SDA changed from one line to the next with SCL high in both. */
  function HighChanges(trace: seq<Line>): nat {
    if trace == [] then 0
    else
      var before := trace[..|trace| - 1];
      var last := if before == [] then IDLE else before[|before| - 1];
      var now := trace[|trace| - 1];
      HighChanges(before) + (if last.scl && now.scl && last.sda != now.sda then 1 else 0)
  }

  /** How many START and STOP conditions there are. */
  function Conditions(events: seq<Event>): nat {
    if events == [] then 0
    else
      Conditions(events[..|events| - 1]) + (if events[|events| - 1].Start? || events[|events| - 1].Stop? then 1 else 0)
  }

  lemma {:induction false} ConditionsAdd(a: seq<Event>, b: seq<Event>)
    ensures Conditions(a + b) == Conditions(a) + Conditions(b)
  {
    if b == [] {
      assert a + b == a;
    } else {
      var c := b[..|b| - 1];
      ConditionsAdd(a, c);
      assert (a + b)[..|a + b| - 1] == a + c;
    }
  }

  /** Every change of SDA while SCL is high is a START or a STOP the receiver reports. */
  lemma {:induction false} ChangesAreConditions(trace: seq<Line>)
    ensures HighChanges(trace) == Conditions(Decode(trace).events)
    decreases |trace|
  {
    if trace != [] {
      var before, now := trace[..|trace| - 1], trace[|trace| - 1];
      var r, last := Decode(before), if before == [] then IDLE else before[|before| - 1];
      ChangesAreConditions(before);
      DecodeLast(trace, before, r, last, now);
      OneChange(r, last, now);
    }
  }

  lemma {:induction false} DecodeLast(trace: seq<Line>, before: seq<Line>, r: Receiver, last: Line, now: Line)
    requires trace == before + [now] && r == Decode(before) &&
             last == if before == [] then IDLE else before[|before| - 1]
    ensures Decode(trace) == Observe(r, last, now)
    ensures HighChanges(trace) == HighChanges(before) + (if last.scl && now.scl && last.sda != now.sda then 1 else 0)
  {
    assert trace[..|trace| - 1] == before;
  }

  lemma {:induction false} OneMore(events: seq<Event>, e: Event)
    ensures Conditions(events + [e]) == Conditions(events) + (if e.Start? || e.Stop? then 1 else 0)
  {
    assert (events + [e])[..|events|] == events;
  }

  lemma {:induction false} ConditionCounts(r: Receiver, event: Event, phase: Phase)
    requires event.Start? || event.Stop?
    ensures Conditions(Condition(r, event, phase).events) == Conditions(r.events) + 1
  {
    if r.bits == [] {
      assert r.events + [] == r.events;
      OneMore(r.events, event);
    } else {
      OneMore(r.events, Broken(r.bits));
      OneMore(r.events + [Broken(r.bits)], event);
    }
  }

  lemma {:induction false} ClockCounts(r: Receiver, bit: bool)
    requires |r.bits| <= 8
    ensures Conditions(Clock(r, bit).events) == Conditions(r.events)
  {
    if |r.bits| == 8 {
      ValueBound(r.bits);
      assert Pow2(8) == 256;
      OneMore(r.events, Byte(Value(r.bits), !bit));
    }
  }

  lemma {:induction false} OneChange(r: Receiver, last: Line, now: Line)
    requires |r.bits| <= 8
    ensures Conditions(Observe(r, last, now).events)
         == Conditions(r.events) + (if last.scl && now.scl && last.sda != now.sda then 1 else 0)
  {
    if last.scl && now.scl && last.sda != now.sda {
      ConditionCounts(r, if last.sda then Start else Stop, if last.sda then Address else Free);
    } else if last.scl && !now.scl {
      ClockCounts(r, last.sda);
    }
  }

  // ----- bytes -----

  /** The bits of a byte, most significant first. */
  function BitsOf(b: byte): (r: seq<bool>)
    ensures |r| == 8
  {
    seq(8, i requires 0 <= i < 8 => Bit(b, i))
  }

  lemma {:induction false} ShrHalves(x: nat, k: nat)
    ensures Shr(x, k + 1) == Shr(x, k) / 2
  {
    if k > 0 {
      ShrHalves(x / 2, k - 1);
    }
  }

  lemma {:induction false} ShrClears(x: nat, k: nat)
    requires x < Pow2(k)
    ensures Shr(x, k) == 0
  {
    if k > 0 {
      ShrClears(x / 2, k - 1);
    }
  }

  /** The first bits of a byte stand for the byte shifted right. */
  lemma {:induction false} ValueOfBits(b: byte, k: nat)
    requires k <= 8
    ensures Value(BitsOf(b)[..k]) == Shr(b, 8 - k)
  {
    if k == 0 {
      assert Pow2(8) == 256;
      ShrClears(b, 8);
    } else {
      ValueOfBits(b, k - 1);
      assert BitsOf(b)[..k][..k - 1] == BitsOf(b)[..k - 1];
      ShrHalves(b, 8 - k);
    }
  }

  /** A byte is the number its eight bits stand for. */
  lemma {:induction false} ByteOfBits(b: byte)
    ensures Value(BitsOf(b)) == b
  {
    ValueOfBits(b, 8);
    assert BitsOf(b)[..8] == BitsOf(b);
  }
}
