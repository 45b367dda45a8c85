/**
  The bit-banged I2C master: its wire operations, and the register write and
  read transactions built from them.
 */
module SoftIic {
  import opened I2cBus
  import opened WordBits

  const IIC_OK := 0
  const IIC_ERROR_BUSY := -5
  const IIC_ERROR_PARAM_ERROR := -6
  const IIC_ERROR_DEV_ADDR_ACK_ERROR := -7
  const IIC_ERROR_REG_ADDR_ACK_ERROR := -8

  class Master {
    const slave: Slave
    var w: Wires

    /** The driver's state byte; its low nibble is the busy count. */
    var state: byte

    constructor (slave: Slave, state: byte)
      ensures this.slave == slave && this.state == state && w == QUIET && Idle()
    {
      this.slave := slave;
      this.state := state;
      w := QUIET;
    }

    /** Both wires are released and nobody is addressed. */
    ghost predicate Idle()
      reads this
    {
      Consistent(w) && w.scl && w.sda && !w.hold && w.rx.phase.Free? && w.rx.bits == []
    }

    /** Inside a transaction with SCL low, and the slave settled for the next clock pulse. */
    ghost predicate Low()
      reads this
    {
      && Consistent(w) && !w.scl && !w.rx.condition
      && !w.rx.phase.Free?
      && w.hold == Holds(slave, w.rx)
    }

    // ----- wires -----

    method Scl(high: bool)
      requires Consistent(w)
      modifies this`w
      ensures Extends(old(w), w)
      ensures Consistent(w) && w == Move(old(w), slave, high, old(w).sda)
    {
      MoveConsistent(w, slave, high, w.sda);
      w := Move(w, slave, high, w.sda);
    }

    method Sda(high: bool)
      requires Consistent(w)
      modifies this`w
      ensures Extends(old(w), w)
      ensures Consistent(w) && w == Move(old(w), slave, old(w).scl, high)
    {
      MoveConsistent(w, slave, w.scl, high);
      w := Move(w, slave, w.scl, high);
    }

    /** One clock pulse; the level of SDA while SCL is high is the bit the receiver counts. */
    method Pulse() returns (bit: bool)
      requires Low()
      modifies this`w
      ensures Extends(old(w), w)
      ensures Low() && bit == (w.sda && !old(w).hold) && w.sda == old(w).sda
      ensures w.rx == Clock(old(w).rx, bit)
    {
      Scl(true);
      bit := w.line.sda;
      Scl(false);
    }

    /** SDA may move while SCL is low; the receiver sees nothing. */
    method SetSda(high: bool)
      requires Low()
      modifies this`w
      ensures Extends(old(w), w)
      ensures Low() && w.sda == high && w.rx == old(w).rx && w.hold == old(w).hold
    {
      Sda(high);
    }

    /** `soft_iic_start`: a START, or a repeated START inside a transaction. */
    method SendStart()
      requires Idle() || (Low() && w.rx.bits == [] && !w.hold)
      modifies this`w
      ensures Extends(old(w), w)
      ensures Low() && w.rx == Receiver(Address, false, [], old(w).rx.count, old(w).rx.events + [Start])
      ensures !w.hold
    {
      Sda(true);
      Scl(true);
      Sda(false);
      Scl(false);
    }

    /** `soft_iic_stop`: a STOP unless the slave holds SDA; the busy nibble is cleared either way. */
    method SendStop()
      requires Low() && w.rx.bits == []
      modifies this`w, this`state
      ensures Extends(old(w), w)
      ensures state == old(state) / 16 * 16 && Consistent(w)
      ensures !old(w).hold ==> Idle() && w.rx == Receiver(Free, true, [], old(w).rx.count, old(w).rx.events + [Stop])
      ensures old(w).hold ==> w.rx == old(w).rx && w.line == Line(true, false)
    {
      Sda(false);
      Scl(true);
      Sda(true);
      SetIdle();
    }

    /** `soft_iic_check_busy` */
    method CheckBusy() returns (r: int)
      modifies this`state
      ensures old(state) % 16 != 0 ==> r == IIC_ERROR_BUSY && state == old(state)
      ensures old(state) % 16 == 0 ==> r == IIC_OK && state == old(state) + 1
    {
      if state % 16 != 0 {
        return IIC_ERROR_BUSY;
      }
      state := state + 1;
      r := IIC_OK;
    }

    /** `soft_iic_idle` */
    method SetIdle()
      modifies this`state
      ensures state == old(state) / 16 * 16
    {
      state := state - state % 16;
    }

    // ----- bytes -----

    /** `soft_iic_check_ack`: the ninth pulse, with SDA released. */
    method CheckAck() returns (ack: bool)
      requires Low() && |w.rx.bits| == 8
      modifies this`w
      ensures Extends(old(w), w)
      ensures Low() && ack == old(w).hold && w.rx == Clock(old(w).rx, !ack)
    {
      SetSda(true);
      Scl(false);
      var bit := Pulse();
      ack := !bit;
      SetSda(false);
      SetSda(false);
    }

    /** SDA is set to a bit and clocked. */
    method TxBit(bit: bool)
      requires Low() && |w.rx.bits| < 8 && (w.rx.phase.Address? || w.rx.phase.Receive?)
      modifies this`w
      ensures Extends(old(w), w)
      ensures Low() && w.rx == old(w).rx.(bits := old(w).rx.bits + [bit])
    {
      if bit {
        SetSda(true);
      } else {
        SetSda(false);
      }
      var _ := Pulse();
    }

    /** `soft_iic_tx_byte`: the receiver gets the byte, and its answer is the return value. */
    method TxByte(value: byte) returns (ack: bool)
      requires Low() && w.rx.bits == [] && (w.rx.phase.Address? || w.rx.phase.Receive?)
      modifies this`w
      ensures Extends(old(w), w)
      ensures Low() && ack == slave.ack(old(w).rx.count)
      ensures w.rx == ByteDone(old(w).rx, value, ack)
    {
      Scl(false);
      ByteOfBits(value);
      for i := 0 to 8
        invariant Low() && Extends(old(w), w) && w.rx == old(w).rx.(bits := BitsOf(value)[..i])
      {
        NextBit(value, i);
        TxBit(Bit(value, i));
      }
      assert BitsOf(value)[..8] == BitsOf(value);
      ack := CheckAck();
    }

    /** One bit from the slave, with SDA released. */
    method RxBit(ghost i: nat) returns (bit: bool)
      requires Low() && w.sda && w.rx.phase.Transmit? && i < 8
      requires w.rx.bits == BitsOf(slave.data(w.rx.count))[..i]
      modifies this`w
      ensures Extends(old(w), w)
      ensures Low() && w.sda && bit == Bit(slave.data(old(w).rx.count), i)
      ensures w.rx == old(w).rx.(bits := BitsOf(slave.data(old(w).rx.count))[..i + 1])
    {
      NextBit(slave.data(w.rx.count), i);
      bit := Pulse();
    }

    /** `soft_iic_rx_ack` and `soft_iic_rx_nack` */
    method AnswerByte(ack: bool)
      requires Low() && w.rx.phase.Transmit? && |w.rx.bits| == 8
      modifies this`w
      ensures Extends(old(w), w)
      ensures Low() && w.rx == Clock(old(w).rx, !ack)
    {
      SetSda(!ack);
      var _ := Pulse();
    }

    /** The eight bits of a byte the slave shifts out. */
    method RxBits() returns (value: byte)
      requires Low() && w.sda && w.rx.bits == [] && w.rx.phase.Transmit?
      modifies this`w
      ensures Extends(old(w), w)
      ensures Low() && value == slave.data(old(w).rx.count)
      ensures w.rx == old(w).rx.(bits := BitsOf(value))
    {
      ghost var rx, sent := w.rx, slave.data(w.rx.count);
      value := 0;
      for i := 0 to 8
        invariant Low() && Extends(old(w), w) && w.sda && w.rx == rx.(bits := BitsOf(sent)[..i])
        invariant value == Value(BitsOf(sent)[..i])
      {
        var bit := RxBit(i);
        value := ShiftIn(sent, i, value, bit);
      }
      ByteOfBits(sent);
      assert BitsOf(sent)[..8] == BitsOf(sent);
    }

    /** `soft_iic_rx_byte`: the byte the slave shifts out, then the master's answer. */
    method RxByte(ack: bool) returns (value: byte)
      requires Low() && w.rx.bits == [] && w.rx.phase.Transmit?
      modifies this`w
      ensures Extends(old(w), w)
      ensures Low() && value == slave.data(old(w).rx.count)
      ensures w.rx == ByteDone(old(w).rx, value, ack)
    {
      SetSda(true);
      value := RxBits();
      ByteOfBits(value);
      SetSda(false);
      AnswerByte(ack);
    }

    // ----- transactions -----

    /** `i` bytes of the payload are sent and acknowledged; `all` is what the receiver hears if it goes on. */
    ghost predicate Sending(all: seq<Event>, payload: seq<byte>, base: nat, i: nat)
      reads this
    {
      && i <= |payload|
      && Low() && !w.hold && w.rx.bits == [] && (if i == 0 then w.rx.phase.Address? else w.rx.phase.Receive?)
      && w.rx.count == base + i
      && w.rx.events + Heard(slave, payload[i..], base + i) == all
      && Answers(slave, payload, base) == i + Answers(slave, payload[i..], base + i)
    }

    /** The transaction stopped being answered: the receiver heard everything up to here. */
    ghost predicate Refused(all: seq<Event>, payload: seq<byte>, base: nat, i: nat)
      reads this
    {
      && Low() && !w.hold && w.rx.bits == [] && w.rx.phase.Ignore?
      && w.rx.events == all && Answers(slave, payload, base) == i
    }

    method StartSending(ghost payload: seq<byte>)
      requires Idle()
      modifies this`w
      ensures Extends(old(w), w)
      ensures Sending(old(w).rx.events + [Start] + Heard(slave, payload, old(w).rx.count), payload, old(w).rx.count, 0)
    {
      SendStart();
      assert payload[0..] == payload;
    }

    method TxNext(ghost all: seq<Event>, ghost payload: seq<byte>, ghost base: nat, ghost i: nat, value: byte)
      returns (ack: bool)
      requires i < |payload| && value == payload[i] && payload[0] % 2 == 0
      requires Sending(all, payload, base, i)
      modifies this`w
      ensures Extends(old(w), w)
      ensures ack ==> Sending(all, payload, base, i + 1)
      ensures !ack ==> Refused(all, payload, base, i)
    {
      HeardNext(slave, w.rx.events, payload, base, i);
      ack := TxByte(value);
    }

    /** Sends the register address; `at` counts the bytes acknowledged. */
    method TxRegisters(ghost all: seq<Event>, ghost payload: seq<byte>, ghost base: nat, regs: seq<byte>)
      returns (ack: bool)
      requires |regs| < |payload| && payload[1..|regs| + 1] == regs && payload[0] % 2 == 0
      requires Sending(all, payload, base, 1)
      modifies this`w
      ensures Extends(old(w), w)
      ensures ack ==> Sending(all, payload, base, 1 + |regs|)
      ensures !ack ==> 1 <= Answers(slave, payload, base) < 1 + |regs|
      ensures !ack ==> Refused(all, payload, base, Answers(slave, payload, base))
    {
      ack := true;
      for i := 0 to |regs|
        invariant ack && Extends(old(w), w) && Sending(all, payload, base, 1 + i)
      {
        assert regs[i] == payload[1..|regs| + 1][i];
        ack := TxNext(all, payload, base, 1 + i, regs[i]);
        if !ack {
          return;
        }
      }
    }

    /**
      `soft_i2c_master_write_nbytes_to_device_reg`: on the wires, a START, the
      bytes up to the first one refused, and a STOP.
     */
    method WriteRegister(dev: byte, regs: seq<byte>, data: seq<byte>) returns (res: int)
      requires Idle() && dev % 2 == 0
      modifies this
      ensures Extends(old(w), w)
      ensures old(state) % 16 != 0 ==> res == IIC_ERROR_BUSY && w == old(w) && state == old(state)
      ensures old(state) % 16 == 0 ==>
        var payload, n := [dev] + regs + data, old(w).rx.count;
        && Idle() && state == old(state)
        && w.rx.events == old(w).rx.events + [Start] + Heard(slave, payload, n) + [Stop]
        && res == WriteResult(Answers(slave, payload, n), |regs|)
        && HighChanges(w.trace) == HighChanges(old(w).trace) + 2
    {
      res := CheckBusy();
      if res != IIC_OK {
        return;
      }
      NibbleCleared(old(state));
      res := WriteTaken(dev, regs, data);
    }

    /** A write once the bus is taken. */
    method WriteTaken(dev: byte, regs: seq<byte>, data: seq<byte>) returns (res: int)
      requires Idle() && dev % 2 == 0
      modifies this
      ensures Extends(old(w), w) && Idle() && state == old(state) / 16 * 16
      ensures var payload, n := [dev] + regs + data, old(w).rx.count;
        && w.rx.events == old(w).rx.events + [Start] + Heard(slave, payload, n) + [Stop]
        && res == WriteResult(Answers(slave, payload, n), |regs|)
      ensures HighChanges(w.trace) == HighChanges(old(w).trace) + 2
    {
      ghost var payload, n := [dev] + regs + data, w.rx.count;
      ghost var all := w.rx.events + [Start] + Heard(slave, payload, n);
      StartSending(payload);
      res := TxPayload(all, payload, n, dev, regs, data);
      SendStop();
      WriteKeepsSdaStable(old(w), w, slave, payload);
    }

    method TxPayload(ghost all: seq<Event>, ghost payload: seq<byte>, ghost base: nat,
                     dev: byte, regs: seq<byte>, data: seq<byte>) returns (res: int)
      requires payload == [dev] + regs + data && dev % 2 == 0 && Sending(all, payload, base, 0)
      modifies this`w
      ensures Extends(old(w), w)
      ensures res == WriteResult(Answers(slave, payload, base), |regs|)
      ensures Low() && !w.hold && w.rx.bits == [] && w.rx.events == all
    {
      var ack := TxNext(all, payload, base, 0, dev);
      if !ack {
        return IIC_ERROR_DEV_ADDR_ACK_ERROR;
      }
      assert payload[1..|regs| + 1] == regs && payload[1 + |regs|..] == data;
      ack := TxRegisters(all, payload, base, regs);
      if !ack {
        return IIC_ERROR_REG_ADDR_ACK_ERROR;
      }
      res := TxData(all, payload, base, regs, data);
    }

    method TxData(ghost all: seq<Event>, ghost payload: seq<byte>, ghost base: nat, ghost regs: seq<byte>,
                  data: seq<byte>)
      returns (res: int)
      requires |payload| == 1 + |regs| + |data| && payload[1 + |regs|..] == data && payload[0] % 2 == 0
      requires Sending(all, payload, base, 1 + |regs|)
      modifies this`w
      ensures Extends(old(w), w)
      ensures res == Answers(slave, payload, base) - 1 - |regs| && res >= 0
      ensures Low() && !w.hold && w.rx.bits == [] && w.rx.events == all
    {
      res := 0;
      ghost var at := 1 + |regs|;
      while res < |data|
        invariant 0 <= res <= |data| && at == 1 + |regs| + res && Extends(old(w), w) && Sending(all, payload, base, at)
      {
        TailElement(payload, 1 + |regs|, data, res);
        var ack := TxNext(all, payload, base, at, data[res]);
        if !ack {
          return;
        }
        res, at := res + 1, at + 1;
      }
      assert payload[|payload|..] == [];
    }

    /** The register address before a read: `answers` of its bytes were acknowledged. */
    method TxAddress(ghost all: seq<Event>, ghost payload: seq<byte>, ghost base: nat, dev: byte, regs: seq<byte>)
      returns (ret: int)
      requires payload == [dev] + regs && dev % 2 == 0 && Sending(all, payload, base, 0)
      modifies this`w
      ensures Extends(old(w), w)
      ensures Low() && !w.hold && w.rx.bits == [] && w.rx.events == all
      ensures ret == AddressResult(Answers(slave, payload, base), |regs|)
      ensures ret == 0 ==> w.rx.count == base + |payload|
    {
      var ack := TxNext(all, payload, base, 0, dev);
      if !ack {
        return IIC_ERROR_DEV_ADDR_ACK_ERROR;
      }
      assert payload[1..|regs| + 1] == regs;
      ack := TxRegisters(all, payload, base, regs);
      if !ack {
        return IIC_ERROR_REG_ADDR_ACK_ERROR;
      }
      assert payload[|payload|..] == [];
      ret := 0;
    }

    /** `i` bytes, from byte number `n` on the bus, are stored; all but the last of `len` are acknowledged. */
    ghost predicate Stored(buf: array<byte>, n: nat, i: nat, len: nat, events: seq<Event>)
      reads this, buf
    {
      && i <= len <= buf.Length && 0 < len && Low() && w.rx.bits == [] && w.rx.count == n + i
      && (i < len ==> w.rx.phase.Transmit?) && (i == len ==> !w.hold)
      && w.rx.events == events + Shifted(slave, n, i, len - 1)
      && forall k :: 0 <= k < i ==> buf[k] == slave.data(n + k)
    }

    method StoreNext(buf: array<byte>, i: nat, len: nat, ghost n: nat, ghost events: seq<Event>)
      requires i < len && Stored(buf, n, i, len, events)
      modifies this`w, buf
      ensures Extends(old(w), w) && Stored(buf, n, i + 1, len, events) && buf[len..] == old(buf[len..])
    {
      ShiftedNext(slave, n, i, len - 1);
      buf[i] := RxByte(i < len - 1);
      Regroup(events, Shifted(slave, n, i, len - 1), [Byte(slave.data(n + i), i < len - 1)]);
    }

    /** `soft_iic_read_buf`: stores what the slave shifts out, acknowledging all but the last byte. */
    method ReadBuffer(buf: array?<byte>, len: nat) returns (ret: int)
      requires Low() && w.rx.bits == [] && w.rx.phase.Transmit?
      requires buf != null ==> len <= buf.Length
      modifies this`w, buf
      ensures Extends(old(w), w)
      ensures Low() && w.rx.bits == [] && w.rx.count == old(w).rx.count + (if buf == null then 0 else len)
      ensures buf == null || len == 0 ==> ret == IIC_ERROR_PARAM_ERROR && w == old(w)
      ensures buf != null && len > 0 ==>
        && ret == len && !w.hold
        && w.rx.events == old(w).rx.events + Shifted(slave, old(w).rx.count, len, len - 1)
        && (forall k :: 0 <= k < len ==> buf[k] == slave.data(old(w).rx.count + k))
        && buf[len..] == old(buf[len..])
    {
      if buf == null || len == 0 {
        return IIC_ERROR_PARAM_ERROR;
      }
      ghost var n, events := w.rx.count, w.rx.events;
      assert events + [] == events;
      var i := 0;
      while i < len - 1
        invariant i <= len - 1 && Extends(old(w), w) && Stored(buf, n, i, len, events)
        invariant buf[len..] == old(buf[len..])
      {
        StoreNext(buf, i, len, n, events);
        i := i + 1;
      }
      StoreNext(buf, len - 1, len, n, events);
      ret := len;
    }

    /**
      `soft_i2c_master_read_nbytes_from_device_reg`.  The busy nibble is
      cleared on every path that took it, and a STOP ends the transaction,
      except that a read of nothing stops only if the first bit of the byte
      the slave has begun to send is a one.
     */
    method ReadRegister(dev: byte, regs: seq<byte>, buf: array?<byte>, len: nat) returns (ret: int)
      requires Idle() && dev % 2 == 0
      requires buf != null ==> len <= buf.Length
      modifies this, buf
      ensures Extends(old(w), w)
      ensures old(state) % 16 != 0 ==> ret == IIC_ERROR_BUSY && w == old(w) && state == old(state)
      ensures old(state) % 16 == 0 ==> state == old(state)
      ensures old(state) % 16 == 0 ==>
        ReadDone(old(w), Reading(slave, old(w).rx.count, dev, regs, if buf == null then 0 else len),
                 Begun(slave, old(w).rx.count, dev, regs), ret, buf, len)
    {
      ret := CheckBusy();
      if ret != IIC_OK {
        return;
      }
      NibbleCleared(old(state));
      ghost var r;
      ret, r := ReadTaken(dev, regs, buf, len);
    }

    /**
      What a whole read leaves: its result, what was heard, the bytes stored,
      and SDA moving under a high SCL only at its `begun` STARTs and at the STOP
      if there is one.
     */
    ghost predicate ReadDone(before: Wires, r: ReadOutcome, begun: nat, ret: int, buf: array?<byte>, len: nat)
      reads this, buf
    {
      && ret == r.ret
      && w.rx.events == before.rx.events + r.events + (if r.stopped then [Stop] else [])
      && (r.stopped ==> Idle())
      && (ret > 0 ==> buf != null && len <= buf.Length &&
                      forall k :: 0 <= k < len ==> buf[k] == slave.data(r.first + k))
      && HighChanges(w.trace) == HighChanges(before.trace) + begun + (if r.stopped then 1 else 0)
    }

    /** A read once the bus is taken: the sequence and the STOP. */
    method ReadTaken(dev: byte, regs: seq<byte>, buf: array?<byte>, len: nat) returns (ret: int, ghost r: ReadOutcome)
      requires Idle() && dev % 2 == 0 && (buf != null ==> len <= buf.Length)
      modifies this, buf
      ensures Extends(old(w), w) && state == old(state) / 16 * 16
      ensures r == Reading(slave, old(w).rx.count, dev, regs, if buf == null then 0 else len)
      ensures ReadDone(old(w), r, Begun(slave, old(w).rx.count, dev, regs), ret, buf, len)
    {
      ret, r := ReadSequence(dev, regs, buf, len);
      ghost var events := w.rx.events;
      SendStop();
      assert events + [] == events;
      ReadKeepsSdaStable(old(w), w, slave, dev, regs, if buf == null then 0 else len);
    }

    /** The read came out as `r` says, `events` having been heard before. */
    ghost predicate CameOut(r: ReadOutcome, ret: int, events: seq<Event>, buf: array?<byte>, len: nat)
      reads this, buf
    {
      && ret == r.ret && w.rx.events == events + r.events && w.hold == !r.stopped
      && (ret > 0 ==> buf != null && len <= buf.Length &&
                      forall k :: 0 <= k < len ==> buf[k] == slave.data(r.first + k))
    }

    /** All of a read between taking the busy nibble and the STOP. */
    method ReadSequence(dev: byte, regs: seq<byte>, buf: array?<byte>, len: nat)
      returns (ret: int, ghost r: ReadOutcome)
      requires Idle() && dev % 2 == 0 && (buf != null ==> len <= buf.Length)
      modifies this`w, buf
      ensures Extends(old(w), w)
      ensures Low() && w.rx.bits == []
      ensures r == Reading(slave, old(w).rx.count, dev, regs, if buf == null then 0 else len)
      ensures CameOut(r, ret, old(w).rx.events, buf, len)
    {
      if regs != [] {
        ret, r := ReadAddressed(dev, regs, buf, len);
      } else {
        DirectReading(slave, w.rx.count, dev, if buf == null then 0 else len);
        ret, r := DataPhase(dev, buf, len);
      }
    }

    method ReadAddressed(dev: byte, regs: seq<byte>, buf: array?<byte>, len: nat)
      returns (ret: int, ghost r: ReadOutcome)
      requires Idle() && dev % 2 == 0 && (buf != null ==> len <= buf.Length) && regs != []
      modifies this`w, buf
      ensures Extends(old(w), w)
      ensures Low() && w.rx.bits == []
      ensures r == Reading(slave, old(w).rx.count, dev, regs, if buf == null then 0 else len)
      ensures CameOut(r, ret, old(w).rx.events, buf, len)
    {
      ghost var events, n, asked := w.rx.events, w.rx.count, if buf == null then 0 else len;
      ghost var head := [Start] + Heard(slave, [dev] + regs, n);
      ret := AddressPhase(dev, regs);
      Regroup(events, [Start], Heard(slave, [dev] + regs, n));
      if ret != 0 {
        RefusedReading(slave, n, dev, regs, asked);
        r := ReadOutcome(ret, head, true, 0);
        return;
      }
      AddressedReading(slave, n, dev, regs, asked);
      ret, r := DataPhase(dev, buf, len);
      Regroup(events, head, r.events);
      r := r.(events := head + r.events);
    }

    /** START, the device address for reading, and the bytes read; the wires may be held by the slave after it. */
    method DataPhase(dev: byte, buf: array?<byte>, len: nat) returns (ret: int, ghost r: ReadOutcome)
      requires Idle() || (Low() && w.rx.bits == [] && !w.hold)
      requires dev % 2 == 0 && (buf != null ==> len <= buf.Length)
      modifies this`w, buf
      ensures Extends(old(w), w)
      ensures Low() && w.rx.bits == []
      ensures r == ReadTail(slave, old(w).rx.count, dev, if buf == null then 0 else len)
      ensures CameOut(r, ret, old(w).rx.events, buf, len)
    {
      ghost var events, m := w.rx.events, w.rx.count;
      r := ReadTail(slave, m, dev, if buf == null then 0 else len);
      var ack := BeginRead(dev);
      if !ack {
        return IIC_ERROR_DEV_ADDR_ACK_ERROR, r;
      }
      ret := ReadBuffer(buf, len);
      if len > 0 {
        Regroup(events, [Start, Byte(dev + 1, ack)], Shifted(slave, m + 1, len, len - 1));
      }
    }

    /** START and the device address for reading. */
    method BeginRead(dev: byte) returns (ack: bool)
      requires Idle() || (Low() && w.rx.bits == [] && !w.hold)
      requires dev % 2 == 0
      modifies this`w
      ensures Extends(old(w), w)
      ensures Low() && w.rx.bits == [] && w.rx.count == old(w).rx.count + 1 && ack == slave.ack(old(w).rx.count)
      ensures w.rx.events == old(w).rx.events + [Start, Byte(dev + 1, ack)]
      ensures if ack then w.rx.phase.Transmit? && w.hold == !Bit(slave.data(w.rx.count), 0) else !w.hold
    {
      ghost var events := w.rx.events;
      SendStart();
      ack := TxByte(dev + 1);
      Regroup(events, [Start], [Byte(dev + 1, ack)]);
    }

    /** START, the device address and the register address. */
    method AddressPhase(dev: byte, regs: seq<byte>) returns (ret: int)
      requires Idle() && dev % 2 == 0
      modifies this`w
      ensures Extends(old(w), w)
      ensures var payload, n := [dev] + regs, old(w).rx.count;
              && Low() && !w.hold && w.rx.bits == []
              && w.rx.events == old(w).rx.events + [Start] + Heard(slave, payload, n)
              && ret == AddressResult(Answers(slave, payload, n), |regs|)
              && (ret == 0 ==> w.rx.count == n + |payload|)
    {
      ghost var payload, n := [dev] + regs, w.rx.count;
      ghost var all := w.rx.events + [Start] + Heard(slave, payload, n);
      StartSending(payload);
      ret := TxAddress(all, payload, n, dev, regs);
    }
  }

  // ----- what the receiver hears -----

  /** How many bytes the slave acknowledges before it refuses one, the first being byte number `n` on the bus. */
  function Answers(slave: Slave, payload: seq<byte>, n: nat): nat {
    if payload == [] || !slave.ack(n) then 0 else 1 + Answers(slave, payload[1..], n + 1)
  }

  /** The bytes up to and including the first one refused. */
  function Heard(slave: Slave, payload: seq<byte>, n: nat): seq<Event> {
    if payload == [] then []
    else [Byte(payload[0], slave.ack(n))] + (if slave.ack(n) then Heard(slave, payload[1..], n + 1) else [])
  }

  function WriteResult(answers: nat, regLen: nat): int {
    if answers == 0 then IIC_ERROR_DEV_ADDR_ACK_ERROR
    else if answers < 1 + regLen then IIC_ERROR_REG_ADDR_ACK_ERROR
    else answers - 1 - regLen
  }

  function AddressResult(answers: nat, regLen: nat): int {
    if answers == 0 then IIC_ERROR_DEV_ADDR_ACK_ERROR
    else if answers < 1 + regLen then IIC_ERROR_REG_ADDR_ACK_ERROR
    else 0
  }

  /** `len` bytes the slave shifts out from byte number `n`; the first `acked` of them are acknowledged. */
  function Shifted(slave: Slave, n: nat, len: nat, acked: nat): (r: seq<Event>)
    ensures |r| == len
  {
    seq(len, k requires 0 <= k < len => Byte(slave.data(n + k), k < acked))
  }

  /** A read: its result, what is heard before the STOP, whether that comes, and the number of the first byte read. */
  datatype ReadOutcome = ReadOutcome(ret: int, events: seq<Event>, stopped: bool, first: nat)

  function Reading(slave: Slave, n: nat, dev: byte, regs: seq<byte>, len: nat): ReadOutcome
    requires dev % 2 == 0
  {
    var payload := [dev] + regs;
    var result := if regs == [] then 0 else AddressResult(Answers(slave, payload, n), |regs|);
    var head := if regs == [] then [] else [Start] + Heard(slave, payload, n);
    if result != 0 then ReadOutcome(result, head, true, 0)
    else
      var tail := ReadTail(slave, if regs == [] then n else n + |payload|, dev, len);
      tail.(events := head + tail.events)
  }

  /** The part of a read from the last START on, which is byte number `m` on the bus. */
  function ReadTail(slave: Slave, m: nat, dev: byte, len: nat): ReadOutcome
    requires dev % 2 == 0
  {
    var begun := [Start, Byte(dev + 1, slave.ack(m))];
    if !slave.ack(m) then ReadOutcome(IIC_ERROR_DEV_ADDR_ACK_ERROR, begun, true, 0)
    else if len == 0 then ReadOutcome(IIC_ERROR_PARAM_ERROR, begun, Bit(slave.data(m + 1), 0), m + 1)
    else ReadOutcome(len, begun + Shifted(slave, m + 1, len, len - 1), true, m + 1)
  }

  lemma {:induction false} DirectReading(slave: Slave, n: nat, dev: byte, len: nat)
    requires dev % 2 == 0
    ensures Reading(slave, n, dev, [], len) == ReadTail(slave, n, dev, len)
  {
    assert [] + ReadTail(slave, n, dev, len).events == ReadTail(slave, n, dev, len).events;
  }

  lemma {:induction false} RefusedReading(slave: Slave, n: nat, dev: byte, regs: seq<byte>, len: nat)
    requires dev % 2 == 0 && regs != [] && AddressResult(Answers(slave, [dev] + regs, n), |regs|) != 0
    ensures Reading(slave, n, dev, regs, len)
         == ReadOutcome(AddressResult(Answers(slave, [dev] + regs, n), |regs|),
                         [Start] + Heard(slave, [dev] + regs, n), true, 0)
  {}

  lemma {:induction false} AddressedReading(slave: Slave, n: nat, dev: byte, regs: seq<byte>, len: nat)
    requires dev % 2 == 0 && regs != [] && AddressResult(Answers(slave, [dev] + regs, n), |regs|) == 0
    ensures var tail := ReadTail(slave, n + |[dev] + regs|, dev, len);
            Reading(slave, n, dev, regs, len) == tail.(events := [Start] + Heard(slave, [dev] + regs, n) + tail.events)
  {}

  /** How many STARTs a read makes: a second one only after the register address. */
  function Begun(slave: Slave, n: nat, dev: byte, regs: seq<byte>): nat {
    if regs == [] || Answers(slave, [dev] + regs, n) < 1 + |regs| then 1 else 2
  }

  /** A slave that acknowledges everything and sends zeros. */
  const ZEROS := Slave(_ => true, _ => 0, _ => false)

  lemma {:induction false} AllAnswered(payload: seq<byte>, n: nat)
    ensures Answers(ZEROS, payload, n) == |payload|
  {
    if payload != [] {
      AllAnswered(payload[1..], n + 1);
    }
  }

  /**
    A read ends with a STOP whatever the slave does if and only if it asks for a
    byte; `ZEROS` keeps an empty one from it.
   */
  lemma {:induction false} StopsIff(dev: byte, regs: seq<byte>, len: nat)
    requires dev % 2 == 0
    ensures (forall slave: Slave, n: nat :: Reading(slave, n, dev, regs, len).stopped) <==> len > 0
    ensures !Reading(ZEROS, 0, dev, regs, 0).stopped
  {
    AllAnswered([dev] + regs, 0);
    BitOfZero();
    assert !Reading(ZEROS, 0, dev, regs, 0).stopped;
    if len > 0 {
      forall slave: Slave, n: nat ensures Reading(slave, n, dev, regs, len).stopped {
        var m := if regs == [] then n else n + 1 + |regs|;
        assert ReadTail(slave, m, dev, len).stopped;
      }
    }
  }

  // ----- what a result says -----

  /** The slave acknowledges `k` bytes from byte number `n` on, and refuses the next unless there are no more. */
  predicate Acknowledges(slave: Slave, n: nat, k: nat, all: nat) {
    k <= all && (forall i :: n <= i < n + k ==> slave.ack(i)) && (k < all ==> !slave.ack(n + k))
  }

  lemma {:induction false} AnswersIff(slave: Slave, payload: seq<byte>, n: nat, k: nat)
    ensures Answers(slave, payload, n) == k <==> Acknowledges(slave, n, k, |payload|)
  {
    if payload != [] && slave.ack(n) && k > 0 {
      AnswersIff(slave, payload[1..], n + 1, k - 1);
    }
  }

  /**
    What a write returns: -7 if the device address is refused, -8 if a register
    byte is, else how many data bytes are acknowledged.
   */
  lemma {:induction false} WriteCodes(slave: Slave, n: nat, dev: byte, regs: seq<byte>, data: seq<byte>)
    ensures var r := WriteResult(Answers(slave, [dev] + regs + data, n), |regs|);
            && (r == -7 <==> !slave.ack(n))
            && (r == -8 <==> slave.ack(n) && exists i :: n < i <= n + |regs| && !slave.ack(i))
            && (r >= 0 <==> forall i :: n <= i <= n + |regs| ==> slave.ack(i))
            && (r >= 0 ==> Acknowledges(slave, n + 1 + |regs|, r, |data|))
  {
    var payload := [dev] + regs + data;
    var k := Answers(slave, payload, n);
    AnswersIff(slave, payload, n, k);
    hide Answers;
    if k < 1 + |regs| {
      assert !slave.ack(n + k);
    }
  }

  /**
    What a read returns: -7 if the device address is refused, before or after the
    register bytes; -8 if a register byte is; -6 if no byte is asked for; else
    how many are.
   */
  lemma {:induction false} ReadCodes(slave: Slave, n: nat, dev: byte, regs: seq<byte>, len: nat)
    requires dev % 2 == 0
    ensures var r := Reading(slave, n, dev, regs, len).ret;
            var addressed := forall i :: n <= i <= n + |regs| ==> slave.ack(i);
            var last := if regs == [] then n else n + 1 + |regs|;
            && (r == -7 <==> !slave.ack(n) || (addressed && !slave.ack(last)))
            && (r == -8 <==> slave.ack(n) && exists i :: n < i <= n + |regs| && !slave.ack(i))
            && (addressed && slave.ack(last) ==> r == if len == 0 then -6 else len)
  {
    var payload := [dev] + regs;
    var k := Answers(slave, payload, n);
    AnswersIff(slave, payload, n, k);
    hide Answers, Heard, Shifted;
    if k < 1 + |regs| {
      assert !slave.ack(n + k);
    }
  }

  lemma {:induction false} BitOfZero()
    ensures !Bit(0, 0)
  {
    ShrClears(0, 7);
  }

  lemma {:induction false} HeardIsBytes(slave: Slave, payload: seq<byte>, n: nat)
    ensures Conditions(Heard(slave, payload, n)) == 0
  {
    if payload != [] {
      var rest := if slave.ack(n) then Heard(slave, payload[1..], n + 1) else [];
      HeardIsBytes(slave, payload[1..], n + 1);
      ConditionsAdd([Byte(payload[0], slave.ack(n))], rest);
    }
  }

  lemma {:induction false} ShiftedIsBytes(slave: Slave, n: nat, len: nat, acked: nat)
    ensures Conditions(Shifted(slave, n, len, acked)) == 0
  {
    if len > 0 {
      ShiftedIsBytes(slave, n, len - 1, acked);
      assert Shifted(slave, n, len, acked)[..len - 1] == Shifted(slave, n, len - 1, acked);
    }
  }

  /** In a whole write SDA changes under a high SCL exactly twice more: at the START and at the STOP. */
  lemma {:induction false} WriteKeepsSdaStable(before: Wires, after: Wires, slave: Slave, payload: seq<byte>)
    requires Consistent(before) && Consistent(after)
    requires after.rx.events == before.rx.events + [Start] + Heard(slave, payload, before.rx.count) + [Stop]
    ensures HighChanges(after.trace) == HighChanges(before.trace) + 2
  {
    var e, h := before.rx.events, Heard(slave, payload, before.rx.count);
    assert Recall(before.trace) && Recall(after.trace);
    ChangesAreConditions(before.trace);
    ChangesAreConditions(after.trace);
    HeardIsBytes(slave, payload, before.rx.count);
    ConditionsAdd(e, [Start]);
    ConditionsAdd(e + [Start], h);
    ConditionsAdd(e + [Start] + h, [Stop]);
  }

  /** In a whole read SDA changes under a high SCL once for each START and once if there is a STOP. */
  lemma {:induction false} ReadKeepsSdaStable(before: Wires, after: Wires, slave: Slave, dev: byte, regs: seq<byte>,
                                              len: nat)
    requires Consistent(before) && Consistent(after) && dev % 2 == 0
    requires var r := Reading(slave, before.rx.count, dev, regs, len);
             after.rx.events == before.rx.events + r.events + (if r.stopped then [Stop] else [])
    ensures var r := Reading(slave, before.rx.count, dev, regs, len);
            HighChanges(after.trace)
            == HighChanges(before.trace) + Begun(slave, before.rx.count, dev, regs) + (if r.stopped then 1 else 0)
  {
    var e, r := before.rx.events, Reading(slave, before.rx.count, dev, regs, len);
    assert Recall(before.trace) && Recall(after.trace);
    ChangesAreConditions(before.trace);
    ChangesAreConditions(after.trace);
    ConditionsAdd(e, r.events);
    ConditionsAdd(e + r.events, if r.stopped then [Stop] else []);
    ReadConditions(slave, before.rx.count, dev, regs, len);
  }

  lemma {:induction false} ReadConditions(slave: Slave, n: nat, dev: byte, regs: seq<byte>, len: nat)
    requires dev % 2 == 0
    ensures Conditions(Reading(slave, n, dev, regs, len).events) == Begun(slave, n, dev, regs)
  {
    var payload := [dev] + regs;
    var head := if regs == [] then [] else [Start] + Heard(slave, payload, n);
    HeardIsBytes(slave, payload, n);
    ConditionsAdd([Start], Heard(slave, payload, n));
    var tail := ReadTail(slave, if regs == [] then n else n + |payload|, dev, len);
    TailConditions(slave, if regs == [] then n else n + |payload|, dev, len);
    ConditionsAdd(head, tail.events);
  }

  lemma {:induction false} TailConditions(slave: Slave, m: nat, dev: byte, len: nat)
    requires dev % 2 == 0
    ensures Conditions(ReadTail(slave, m, dev, len).events) == 1
  {
    var begun := [Start, Byte(dev + 1, slave.ack(m))];
    assert begun == [Start] + [Byte(dev + 1, slave.ack(m))];
    ConditionsAdd([Start], [Byte(dev + 1, slave.ack(m))]);
    if len > 0 {
      ShiftedIsBytes(slave, m + 1, len, len - 1);
      ConditionsAdd(begun, Shifted(slave, m + 1, len, len - 1));
    }
  }

  lemma {:induction false} TailElement(s: seq<byte>, n: nat, tail: seq<byte>, i: nat)
    requires n <= |s| && s[n..] == tail && i < |tail|
    ensures n + i < |s| && s[n + i] == tail[i]
  {
    assert s[n..][i] == s[n + i];
  }

  /** Taking the busy nibble and clearing it again. */
  lemma {:induction false} NibbleCleared(state: byte)
    ensures state % 16 == 0 ==> (state + 1) / 16 * 16 == state
  {}

  lemma {:induction false} ShiftedNext(slave: Slave, n: nat, i: nat, acked: nat)
    ensures Shifted(slave, n, i + 1, acked) == Shifted(slave, n, i, acked) + [Byte(slave.data(n + i), i < acked)]
  {}

  lemma {:induction false} Regroup(a: seq<Event>, b: seq<Event>, c: seq<Event>)
    ensures a + b + c == a + (b + c)
  {}

  lemma {:induction false} HeardNext(slave: Slave, events: seq<Event>, payload: seq<byte>, base: nat, i: nat)
    requires i < |payload|
    ensures var b := Byte(payload[i], slave.ack(base + i));
            events + Heard(slave, payload[i..], base + i)
            == events + [b] + (if slave.ack(base + i) then Heard(slave, payload[i + 1..], base + i + 1) else [])
    ensures Answers(slave, payload[i..], base + i)
         == if slave.ack(base + i) then 1 + Answers(slave, payload[i + 1..], base + i + 1) else 0
  {
    assert payload[i..][1..] == payload[i + 1..];
  }

  /** `byte = byte << 1`, then the new bit: one bit more of what is sent. */
  method ShiftIn(ghost sent: byte, ghost i: nat, value: byte, bit: bool) returns (r: byte)
    requires i < 8 && value == Value(BitsOf(sent)[..i]) && bit == Bit(sent, i)
    ensures r == Value(BitsOf(sent)[..i + 1])
  {
    NextBit(sent, i);
    r := value * 2 % 256 + (if bit then 1 else 0);
  }

  lemma {:induction false} NextBit(b: byte, i: nat)
    requires i < 8
    ensures BitsOf(b)[..i + 1] == BitsOf(b)[..i] + [Bit(b, i)]
    ensures Value(BitsOf(b)[..i + 1]) == 2 * Value(BitsOf(b)[..i]) + (if Bit(b, i) then 1 else 0) < 256
  {
    var bits := BitsOf(b)[..i + 1];
    assert bits[..i] == BitsOf(b)[..i];
    ValueBound(bits);
    Pow2Monotonic(i + 1, 8);
    assert Pow2(8) == 256;
  }
}
