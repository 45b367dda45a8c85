/**
  A NOR flash chip as the driver sees it: erasing a sector sets its bytes to
  0xFF, programming can only clear bits, and one program command stays in one
  page, wrapping inside it.
 */
module FlashChip {

  type byte = bv8

  const SECTOR := 4096
  const PAGE := 256

  datatype Command = Erase(addr: nat) | Program(addr: nat, data: seq<byte>)

  /** `f` with `data` in place of the bytes from `addr`. */
  function Patch(f: seq<byte>, addr: nat, data: seq<byte>): (r: seq<byte>)
    requires addr + |data| <= |f|
    ensures |r| == |f|
  {
    f[..addr] + data + f[addr + |data|..]
  }

  function Erased(f: seq<byte>, addr: nat): (r: seq<byte>)
    requires addr / SECTOR * SECTOR + SECTOR <= |f|
    ensures |r| == |f|
  {
    Patch(f, addr / SECTOR * SECTOR, seq(SECTOR, _ => 0xFF))
  }

  /** The page-program command, as the chip executes it. */
  function Programmed(f: seq<byte>, addr: nat, data: seq<byte>): (r: seq<byte>)
    requires |data| <= PAGE
    ensures |r| == |f|
  {
    seq(|f|, i requires 0 <= i < |f| =>
      if i / PAGE == addr / PAGE && (i - addr) % PAGE < |data| then f[i] & data[(i - addr) % PAGE] else f[i])
  }

  /** Programming a range of any length, with no page in the way. */
  function Anded(f: seq<byte>, addr: nat, data: seq<byte>): (r: seq<byte>)
    requires addr + |data| <= |f|
    ensures |r| == |f|
  {
    seq(|f|, i requires 0 <= i < |f| => if addr <= i < addr + |data| then f[i] & data[i - addr] else f[i])
  }

  predicate InOnePage(c: Command) {
    c.Program? && c.addr % PAGE + |c.data| <= PAGE
  }

  /** A program command that stays in its page does not wrap. */
  lemma {:induction false} NoWrap(f: seq<byte>, addr: nat, data: seq<byte>)
    requires addr + |data| <= |f| && InOnePage(Program(addr, data))
    ensures Programmed(f, addr, data) == Anded(f, addr, data)
  {
    forall i | 0 <= i < |f| ensures Programmed(f, addr, data)[i] == Anded(f, addr, data)[i] {
      if i / PAGE == addr / PAGE {
        var d := i - addr;
        assert -PAGE < d < PAGE;
        assert d % PAGE == if d < 0 then d + PAGE else d;
      }
    }
  }

  lemma {:induction false} AndedTwice(f: seq<byte>, addr: nat, a: seq<byte>, b: seq<byte>)
    requires addr + |a| + |b| <= |f|
    ensures Anded(Anded(f, addr, a), addr + |a|, b) == Anded(f, addr, a + b)
  {}

  /** Erasing a sector and programming all of it stores exactly the data there. */
  lemma {:induction false} EraseThenProgram(f: seq<byte>, addr: nat, data: seq<byte>)
    requires addr % SECTOR == 0 && |data| == SECTOR && addr + SECTOR <= |f|
    ensures Anded(Erased(f, addr), addr, data) == Patch(f, addr, data)
  {
    var e := Erased(f, addr);
    forall i | 0 <= i < |f| ensures Anded(e, addr, data)[i] == Patch(f, addr, data)[i] {
      if addr <= i < addr + SECTOR {
        assert e[i] == 0xFF;
        assert 0xFF & data[i - addr] == data[i - addr];
      }
    }
  }

  /** The commands program the range from `addr` once, in order, without gap or overlap. */
  predicate Tiles(cmds: seq<Command>, addr: nat, data: seq<byte>) {
    if cmds == [] then data == []
    else
      && InOnePage(cmds[0]) && cmds[0].addr == addr
      && cmds[0].data <= data
      && Tiles(cmds[1..], addr + |cmds[0].data|, data[|cmds[0].data|..])
  }

  lemma {:induction false} TilesAppend(cmds: seq<Command>, addr: nat, done: seq<byte>, more: seq<byte>)
    requires Tiles(cmds, addr, done) && InOnePage(Program(addr + |done|, more))
    ensures Tiles(cmds + [Program(addr + |done|, more)], addr, done + more)
  {
    var c := Program(addr + |done|, more);
    if cmds == [] {
      assert cmds + [c] == [c];
      assert done + more == more && more[|more|..] == [];
    } else {
      var n := |cmds[0].data|;
      TilesAppend(cmds[1..], addr + n, done[n..], more);
      assert (cmds + [c])[1..] == cmds[1..] + [c];
      assert (done + more)[n..] == done[n..] + more;
    }
  }

  /** Program commands only, each of at most a page. */
  predicate Programs(cmds: seq<Command>) {
    forall i :: 0 <= i < |cmds| ==> cmds[i].Program? && |cmds[i].data| <= PAGE
  }

  /** What the chip holds after the commands. */
  function ExecuteAll(f: seq<byte>, cmds: seq<Command>): (r: seq<byte>)
    requires Programs(cmds)
    ensures |r| == |f|
    decreases |cmds|
  {
    if cmds == [] then f
    else
      var n := |cmds| - 1;
      Programmed(ExecuteAll(f, cmds[..n]), cmds[n].addr, cmds[n].data)
  }

  lemma {:induction false} ExecuteMore(f: seq<byte>, cmds: seq<Command>, c: Command)
    requires Programs(cmds) && c.Program? && |c.data| <= PAGE
    ensures Programs(cmds + [c]) && ExecuteAll(f, cmds + [c]) == Programmed(ExecuteAll(f, cmds), c.addr, c.data)
  {
    assert (cmds + [c])[..|cmds|] == cmds;
  }

  lemma {:induction false} ExecuteFirst(f: seq<byte>, c: Command, cmds: seq<Command>)
    requires Programs(cmds) && c.Program? && |c.data| <= PAGE
    ensures Programs([c] + cmds) && ExecuteAll(f, [c] + cmds) == ExecuteAll(Programmed(f, c.addr, c.data), cmds)
    decreases |cmds|
  {
    if cmds == [] {
      assert [c] + cmds == [] + [c];
      ExecuteMore(f, [], c);
    } else {
      var n := |cmds| - 1;
      var some, last := cmds[..n], cmds[n];
      assert cmds == some + [last];
      ExecuteFirst(f, c, some);
      ExecuteMore(f, [c] + some, last);
      ExecuteMore(Programmed(f, c.addr, c.data), some, last);
      assert [c] + cmds == [c] + some + [last];
    }
  }

  lemma {:induction false} TilesAreInPage(cmds: seq<Command>, addr: nat, data: seq<byte>)
    requires Tiles(cmds, addr, data)
    ensures forall i :: 0 <= i < |cmds| ==> InOnePage(cmds[i])
    ensures Programs(cmds)
    decreases |cmds|
  {
    if cmds != [] {
      TilesAreInPage(cmds[1..], addr + |cmds[0].data|, data[|cmds[0].data|..]);
      assert cmds == [cmds[0]] + cmds[1..];
    }
  }

  /** Commands that tile a range have the effect of programming it at once. */
  lemma {:induction false} TilesProgram(f: seq<byte>, cmds: seq<Command>, addr: nat, data: seq<byte>)
    requires Tiles(cmds, addr, data) && addr + |data| <= |f|
    ensures Programs(cmds) && ExecuteAll(f, cmds) == Anded(f, addr, data)
    decreases |cmds|
  {
    TilesAreInPage(cmds, addr, data);
    if cmds == [] {
      assert Anded(f, addr, data) == f;
    } else {
      var c, rest := cmds[0], cmds[1..];
      var d := c.data;
      NoWrap(f, addr, d);
      assert d <= data && d + data[|d|..] == data;
      TilesProgram(Programmed(f, addr, d), rest, addr + |d|, data[|d|..]);
      AndedTwice(f, addr, d, data[|d|..]);
      ExecuteFirst(f, c, rest);
      assert [c] + rest == cmds;
    }
  }
}
