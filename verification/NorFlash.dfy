/**
  The NOR flash driver: a one-sector write-back cache over the chip, and the
  flat byte image it presents.
 */
module NorFlash {
  import opened FlashChip

  class Driver {
    // the chip
    var flash: seq<byte>
    ghost var commands: seq<Command>

    // the driver
    /** `open_cnt`, a byte. */
    var openCount: nat
    var cacheAddr: nat
    var cacheBuf: array?<byte>
    var dirty: bool
    var timer: bool

    ghost predicate Valid()
      reads this, cacheBuf
    {
      && SECTOR <= |flash| && |flash| % SECTOR == 0 && openCount < 256
      && (cacheBuf == null ==> openCount == 0 && !dirty)
      && (cacheBuf != null ==> Cached() && (!dirty ==> Clean()))
      && (dirty ==> timer)
    }

    /** The cache buffer holds a sector. */
    ghost predicate Cached()
      reads this, cacheBuf
    {
      cacheBuf != null && cacheBuf.Length == SECTOR && cacheAddr % SECTOR == 0 && cacheAddr + SECTOR <= |flash|
    }

    /** The cached sector is as the chip has it. */
    ghost predicate Clean()
      requires Cached()
      reads this, cacheBuf
    {
      flash[cacheAddr..cacheAddr + SECTOR] == cacheBuf[..]
    }

    /** The bytes the driver presents: the chip's, with the cached sector over them. */
    ghost function Image(): (r: seq<byte>)
      requires cacheBuf != null ==> Cached()
      reads this, cacheBuf
      ensures |r| == |flash|
    {
      if cacheBuf == null then flash else Patch(flash, cacheAddr, cacheBuf[..])
    }

    /** A chip of whole sectors, not yet opened; the static fields start at zero. */
    constructor (contents: seq<byte>)
      requires SECTOR <= |contents| && |contents| % SECTOR == 0
      ensures Valid() && openCount == 0 && !dirty && flash == Image() == contents
    {
      flash := contents;
      commands := [];
      openCount, cacheAddr, cacheBuf := 0, 0, null;
      dirty, timer := false, false;
    }

    // ----- chip commands -----

    method SendProgram(addr: nat, data: seq<byte>)
      requires |data| <= PAGE
      modifies this`flash, this`commands
      ensures flash == Programmed(old(flash), addr, data)
      ensures commands == old(commands) + [Program(addr, data)]
    {
      flash := Programmed(flash, addr, data);
      commands := commands + [Program(addr, data)];
    }

    /** The sector case of `_norflash_eraser`. */
    method EraseSector(addr: nat)
      requires addr / SECTOR * SECTOR + SECTOR <= |flash|
      modifies this`flash, this`commands
      ensures flash == Erased(old(flash), addr)
      ensures commands == old(commands) + [Erase(addr / SECTOR * SECTOR)]
    {
      var start := addr / SECTOR * SECTOR;
      flash := Erased(flash, start);
      commands := commands + [Erase(start)];
    }

    /** `_norflash_write_pages`: the commands it sends tile the range and stay in their pages. */
    method WritePages(addr0: nat, buf: seq<byte>) returns (ghost sent: seq<Command>)
      requires addr0 + |buf| <= |flash|
      modifies this`flash, this`commands
      ensures commands == old(commands) + sent && Tiles(sent, addr0, buf)
      ensures flash == Anded(old(flash), addr0, buf)
    {
      var firstPageLen := PAGE - addr0 % PAGE;
      if |buf| <= firstPageLen {
        firstPageLen := |buf|;
      }
      PageEnds(addr0, firstPageLen, |buf|);
      sent := SendPiece(old(flash), old(commands), [], addr0, buf, 0, firstPageLen);
      var at := firstPageLen;
      while at < |buf|
        invariant at <= |buf| && (at < |buf| ==> (addr0 + at) % PAGE == 0)
        invariant Sent(old(flash), old(commands), sent, addr0, buf, at)
      {
        var cnt := if |buf| - at > PAGE then PAGE else |buf| - at;
        PageFollows(addr0, at, cnt, |buf|);
        sent := SendPiece(old(flash), old(commands), sent, addr0, buf, at, cnt);
        at := at + cnt;
      }
      assert buf[..at] == buf;
      TilesProgram(old(flash), sent, addr0, buf);
    }

    /** The commands `sent`, given since the chip held `flash0`, tile the first `at` bytes. */
    ghost predicate Sent(flash0: seq<byte>, commands0: seq<Command>, sent: seq<Command>, addr: nat, buf: seq<byte>,
                         at: nat)
      reads this
    {
      && commands == commands0 + sent && Programs(sent) && flash == ExecuteAll(flash0, sent)
      && at <= |buf| && Tiles(sent, addr, buf[..at])
    }

    /** One more program command, inside its page. */
    method SendPiece(ghost flash0: seq<byte>, ghost commands0: seq<Command>, ghost sent: seq<Command>,
                     addr: nat, buf: seq<byte>, at: nat, cnt: nat)
      returns (ghost now: seq<Command>)
      requires Sent(flash0, commands0, sent, addr, buf, at) && at + cnt <= |buf| && (addr + at) % PAGE + cnt <= PAGE
      modifies this`flash, this`commands
      ensures Sent(flash0, commands0, now, addr, buf, at + cnt)
    {
      ghost var c := Program(addr + at, buf[at..at + cnt]);
      NextPiece(sent, addr, buf, at, cnt);
      ExecuteMore(flash0, sent, c);
      SendProgram(addr + at, buf[at..at + cnt]);
      now := sent + [c];
      assert commands0 + sent + [c] == commands0 + now;
    }

    /** `_norflash_read` without the cache. */
    method ReadChip(addr: nat, buf: array<byte>, at: nat, len: nat)
      requires addr + len <= |flash| && at + len <= buf.Length
      modifies buf
      ensures buf[at..at + len] == flash[addr..addr + len]
      ensures buf[..at] == old(buf[..at]) && buf[at + len..] == old(buf[at + len..])
    {
      forall i | 0 <= i < len {
        buf[at + i] := flash[addr + i];
      }
    }

    // ----- the cache -----

    /** Erases the cached sector and programs the cache buffer into it. */
    method WriteBack()
      requires Cached()
      modifies this`flash, this`commands
      ensures Cached() && Clean() && flash == Patch(old(flash), cacheAddr, cacheBuf[..])
    {
      EraseSector(cacheAddr);
      assert cacheAddr / SECTOR * SECTOR == cacheAddr;
      EraseThenProgram(old(flash), cacheAddr, cacheBuf[..]);
      ghost var _ := WritePages(cacheAddr, cacheBuf[..]);
    }

    /** The dirty branch of the sync timer, of flush, of close and of a write elsewhere. */
    method Sync()
      requires Valid()
      modifies this`flash, this`commands, this`dirty
      ensures Valid() && !dirty && Image() == old(Image()) && flash == Image()
    {
      hide Patch;
      if dirty {
        dirty := false;
        WriteBack();
      }
      if cacheBuf != null {
        CleanPatch(flash, cacheAddr, cacheBuf[..]);
      }
    }

    /** `_norflash_cache_sync_timer` */
    method CacheSyncTimer()
      requires Valid()
      modifies this`flash, this`commands, this`dirty, this`timer
      ensures Valid() && !dirty && !timer && Image() == old(Image()) && flash == Image()
    {
      Sync();
      if timer {
        timer := false;
      }
    }

    /** The flush request. */
    method Flush()
      requires Valid()
      modifies this`flash, this`commands, this`dirty
      ensures Valid() && !dirty && Image() == old(Image()) && flash == Image()
    {
      Sync();
    }

    /**
      `_norflash_open`. The open count is one byte. At zero, even with a buffer
      still there, a new buffer is loaded and the dirty flag left as it is: the
      image becomes the chip's bytes.
     */
    method Open()
      requires Valid()
      modifies this`openCount, this`cacheAddr, this`cacheBuf
      ensures Valid() && openCount == (old(openCount) + 1) % 256
      ensures old(openCount) == 0 ==> fresh(cacheBuf) && cacheAddr == 0 && Image() == flash
      ensures old(openCount) > 0 ==> cacheBuf == old(cacheBuf) && cacheAddr == old(cacheAddr) && Image() == old(Image())
      ensures Image() == old(Image()) <==> old(openCount) > 0 || flash == old(Image())
    {
      if openCount == 0 {
        cacheBuf := new byte[SECTOR];
        cacheAddr := 4096;
        ReadCached(0, cacheBuf, SECTOR);
        cacheAddr := 0;
        assert cacheBuf[..] == cacheBuf[..SECTOR];
        CleanPatch(flash, cacheAddr, cacheBuf[..]);
      }
      openCount := (openCount + 1) % 256;
    }

    /** `_norflash_close`: a close that leaves the count at zero leaves everything in the chip. */
    method Close()
      requires Valid()
      modifies this`openCount, this`flash, this`commands, this`dirty, this`cacheBuf
      ensures Valid() && openCount == (if old(openCount) > 0 then old(openCount) - 1 else 0)
      ensures Image() == old(Image()) && (dirty <==> old(dirty) && old(openCount) > 1)
      ensures flash == if openCount == 0 then Image() else old(flash)
      ensures cacheBuf == if openCount == 0 then null else old(cacheBuf)
    {
      if openCount > 0 {
        openCount := openCount - 1;
      }
      if openCount == 0 {
        Sync();
        cacheBuf := null;
      }
    }

    /** A read that starts below the dirty cached sector and runs into it. */
    predicate Straddles(addr: nat, len: nat)
      reads this
    {
      dirty && addr < cacheAddr < addr + len
    }

    /** `_norflash_read` with the cache, into the first `len` bytes of `buf`. */
    method ReadCached(addr: nat, buf: array<byte>, len: nat)
      requires cacheBuf != null && cacheBuf.Length == SECTOR && cacheAddr % SECTOR == 0
      requires addr + len <= |flash| && len <= buf.Length
      requires buf == cacheBuf ==> addr < cacheAddr
      modifies buf
      ensures buf[..len] == ReadBytes(flash, cacheAddr, old(cacheBuf[..]), addr, len)
    {
      if cacheAddr <= addr < cacheAddr + SECTOR {
        ReadFromCache(addr, buf, len);
      } else {
        ReadChip(addr, buf, 0, len);
        assert buf[..len] == buf[0..0 + len];
      }
    }

    /** A read that starts in the cached sector. */
    method ReadFromCache(addr: nat, buf: array<byte>, len: nat)
      requires cacheBuf != null && cacheBuf.Length == SECTOR && cacheAddr % SECTOR == 0 && buf != cacheBuf
      requires addr + len <= |flash| && len <= buf.Length && cacheAddr <= addr < cacheAddr + SECTOR
      modifies buf
      ensures buf[..len] == ReadBytes(flash, cacheAddr, cacheBuf[..], addr, len)
    {
      SectorOffset(addr, cacheAddr);
      var rLen, o := SECTOR - addr % SECTOR, addr - cacheAddr;
      hide ReadBytes;
      ReadParts(flash, cacheAddr, cacheBuf[..], addr, o, len);
      if len <= rLen {
        CopyCached(buf, o, len);
      } else {
        ReadOver(addr, buf, len, o, rLen);
      }
    }

    /** A read past the end of the cached sector. */
    method ReadOver(addr: nat, buf: array<byte>, len: nat, o: nat, rLen: nat)
      requires cacheBuf != null && cacheBuf.Length == SECTOR == o + rLen && buf != cacheBuf
      requires addr + len <= |flash| && rLen < len <= buf.Length
      modifies buf
      ensures buf[..len] == cacheBuf[..][o..o + rLen] + flash[addr + rLen..addr + rLen + (len - rLen)]
    {
      ghost var head := cacheBuf[..][o..o + rLen];
      CopyCached(buf, o, rLen);
      ReadChip(addr + rLen, buf, rLen, len - rLen);
      Halves(buf[..], head, rLen, len);
    }

    method CopyCached(buf: array<byte>, o: nat, len: nat)
      requires cacheBuf != null && o + len <= cacheBuf.Length && len <= buf.Length && buf != cacheBuf
      modifies buf
      ensures buf[..len] == cacheBuf[..][o..o + len]
    {
      forall i | 0 <= i < len {
        buf[i] := cacheBuf[o + i];
      }
    }

    /** A cached read by a caller: the image, unless it straddles the start of the dirty sector. */
    method Read(addr: nat, buf: array<byte>, len: nat)
      requires Valid() && cacheBuf != null && buf != cacheBuf
      requires addr + len <= |flash| && len <= buf.Length
      modifies buf
      ensures !Straddles(addr, len) ==> buf[..len] == Image()[addr..addr + len]
      ensures Straddles(addr, len) ==> buf[..len] == flash[addr..addr + len]
    {
      if !Straddles(addr, len) {
        ReadIsImage(flash, cacheAddr, cacheBuf[..], addr, len, dirty);
      }
      ReadCached(addr, buf, len);
    }

    /** Copies a piece that stays in the cached sector; at the sector's end it is written through. */
    method PutPiece(addr: nat, piece: seq<byte>)
      requires Valid() && cacheBuf != null && cacheAddr <= addr && addr + |piece| <= cacheAddr + SECTOR
      modifies this`flash, this`commands, this`dirty, this`timer, cacheBuf
      ensures Valid() && Image() == Patch(old(Image()), addr, piece)
      ensures dirty <==> (addr + |piece|) % SECTOR != 0
      ensures flash == if dirty then old(flash) else Image()
    {
      ghost var before := cacheBuf[..];
      var o := addr - cacheAddr;
      PatchInside(flash, cacheAddr, before, o, piece);
      forall i | 0 <= i < |piece| {
        cacheBuf[o + i] := piece[i];
      }
      assert cacheBuf[..] == Patch(before, o, piece);
      if (addr + |piece|) % SECTOR != 0 {
        dirty := true;
        if !timer {
          timer := true;
        }
      } else {
        dirty := false;
        WriteBack();
        CleanPatch(flash, cacheAddr, cacheBuf[..]);
      }
    }

    /** Makes the sector at `sector` the cached one. */
    method Load(sector: nat)
      requires Valid() && cacheBuf != null && !dirty && sector % SECTOR == 0 && sector + SECTOR <= |flash|
      modifies this`cacheAddr, cacheBuf
      ensures Valid() && cacheAddr == sector && Image() == old(Image())
    {
      CleanPatch(flash, cacheAddr, cacheBuf[..]);
      ReadChip(sector, cacheBuf, 0, SECTOR);
      assert cacheBuf[..] == cacheBuf[0..0 + SECTOR];
      cacheAddr := sector;
      CleanPatch(flash, cacheAddr, cacheBuf[..]);
    }

    /**
      `_norflash_write` through the cache: the image changes in exactly the range
      written, the chip as `ChipAfter` says.
     */
    method Write(addr: nat, data: seq<byte>)
      requires Valid() && cacheBuf != null && addr < |flash| && addr + |data| <= |flash|
      modifies this`flash, this`commands, this`dirty, this`timer, this`cacheAddr, cacheBuf
      ensures Valid() && Image() == Patch(old(Image()), addr, data)
      ensures cacheAddr == LastSector(addr, |data|) && (dirty <==> (addr + |data|) % SECTOR != 0)
      ensures flash == ChipAfter(old(flash), old(Image()), old(cacheAddr), addr, data)
    {
      ghost var chip, start, cached := flash, Image(), cacheAddr;
      var alignAddr := addr / SECTOR * SECTOR;
      var alignLen := SECTOR - (addr - alignAddr);
      if |data| <= alignLen {
        alignLen := |data|;
      }
      FirstPiece(addr, |data|, alignAddr, alignLen);
      WriteFirst(addr, alignAddr, data[..alignLen]);
      if alignLen < |data| {
        WriteRest(addr, data, alignLen, start);
        ManySectors(chip, start, cached, addr, data, alignLen);
      } else {
        assert data[..alignLen] == data;
        OneSector(chip, start, cached, addr, data, alignAddr);
      }
    }

    /** What a write leaves after its first sector. */
    method WriteRest(addr: nat, data: seq<byte>, alignLen: nat, ghost start: seq<byte>)
      requires Valid() && cacheBuf != null && !dirty && alignLen < |data| && addr + |data| <= |flash| == |start|
      requires (addr + alignLen) % SECTOR == 0 && Image() == Patch(start, addr, data[..alignLen])
      modifies this`flash, this`commands, this`dirty, this`timer, this`cacheAddr, cacheBuf
      ensures Valid() && Image() == Patch(start, addr, data) && flash == ChipAfter(start, start, 0, addr, data)
      ensures cacheAddr == LastSector(addr, |data|) && (dirty <==> (addr + |data|) % SECTOR != 0)
    {
      PatchJoined(start, addr, data, alignLen);
      LastOfPieces(addr, alignLen, |data| - alignLen);
      ChipJoined(start, addr, data, alignLen);
      WriteSectors(addr + alignLen, data[alignLen..]);
    }

    /** The part of a write in the sector where it starts. */
    method WriteFirst(addr: nat, alignAddr: nat, piece: seq<byte>)
      requires Valid() && cacheBuf != null && addr < |flash|
      requires alignAddr == addr / SECTOR * SECTOR && addr + |piece| <= alignAddr + SECTOR
      modifies this`flash, this`commands, this`dirty, this`timer, this`cacheAddr, cacheBuf
      ensures Valid() && addr + |piece| <= |flash| && Image() == Patch(old(Image()), addr, piece)
      ensures cacheAddr == alignAddr && (dirty <==> (addr + |piece|) % SECTOR != 0)
      ensures flash == if !dirty then Image() else if alignAddr == old(cacheAddr) then old(flash) else old(Image())
    {
      SectorFits(alignAddr, |flash|);
      if alignAddr != cacheAddr {
        Sync();
        Load(alignAddr);
      }
      PutPiece(addr, piece);
    }

    /** The loop of `_norflash_write`, from a sector start, with nothing left dirty before it. */
    method WriteSectors(addr: nat, data: seq<byte>)
      requires Valid() && cacheBuf != null && !dirty && data != [] && addr % SECTOR == 0 && addr + |data| <= |flash|
      modifies this`flash, this`commands, this`dirty, this`timer, this`cacheAddr, cacheBuf
      ensures Valid() && Image() == Patch(old(Image()), addr, data)
      ensures cacheAddr == LastSector(addr, |data|) && (dirty <==> (addr + |data|) % SECTOR != 0)
      ensures flash == ChipAfter(old(Image()), old(Image()), 0, addr, data)
    {
      ghost var start := Image();
      var at: nat := 0;
      CleanPatch(flash, cacheAddr, cacheBuf[..]);
      NothingWritten(start, cacheAddr, addr, data);
      while at < |data|
        invariant Writing(start, addr, data, at)
      {
        at := WriteNext(start, addr, data, at);
      }
      AllWritten(start, Image(), flash, cacheAddr, dirty, addr, data);
    }

    /** The first `at` bytes of `data` are written. */
    ghost predicate Writing(start: seq<byte>, addr: nat, data: seq<byte>, at: nat)
      reads this, cacheBuf
    {
      && Valid() && cacheBuf != null && at <= |data| && addr + |data| <= |flash| == |start|
      && Written(start, Image(), flash, cacheAddr, dirty, addr, data, at)
    }

    /** One turn of the loop. */
    method WriteNext(ghost start: seq<byte>, addr: nat, data: seq<byte>, at: nat) returns (next: nat)
      requires Writing(start, addr, data, at) && at < |data|
      modifies this`flash, this`commands, this`dirty, this`timer, this`cacheAddr, cacheBuf
      ensures Writing(start, addr, data, next) && at < next
    {
      hide Written, Patch;
      var cnt := if |data| - at > SECTOR then SECTOR else |data| - at;
      var piece := data[at..at + cnt];
      ghost var before := Image();
      PieceFits(start, before, flash, cacheAddr, dirty, addr, data, at);
      PutSector(addr + at, piece);
      PieceWritten(start, before, Image(), flash, cacheAddr, dirty, addr, data, at, cnt);
      next := at + cnt;
    }

    /** A piece from the start of another sector: that sector is loaded first. */
    method PutSector(addr: nat, piece: seq<byte>)
      requires Valid() && cacheBuf != null && !dirty
      requires addr % SECTOR == 0 && addr + |piece| <= |flash| && 0 < |piece| <= SECTOR
      modifies this`flash, this`commands, this`dirty, this`timer, this`cacheAddr, cacheBuf
      ensures Valid() && Image() == Patch(old(Image()), addr, piece)
      ensures cacheAddr == addr && (dirty <==> (addr + |piece|) % SECTOR != 0)
      ensures flash == if dirty then old(Image()) else Image()
    {
      SectorFits(addr, |flash|);
      CleanPatch(flash, cacheAddr, cacheBuf[..]);
      Load(addr);
      PutPiece(addr, piece);
    }
  }

  /** The sector where a write of `len` bytes at `addr` ends. */
  function LastSector(addr: nat, len: nat): nat {
    (if len == 0 then addr else addr + len - 1) / SECTOR * SECTOR
  }

  /**
    What the chip holds after a write, from what it held and from the image:
    all of it if the write ends at a sector's end, and else all but the part in
    the last sector, which stays in the cache. The cached sector is written back
    only when another one takes its place.
   */
  function ChipAfter(chip: seq<byte>, image: seq<byte>, cached: nat, addr: nat, data: seq<byte>): (r: seq<byte>)
    requires |chip| == |image| && addr + |data| <= |image|
    ensures |r| == |image|
  {
    var last := LastSector(addr, |data|);
    if (addr + |data|) % SECTOR == 0 then Patch(image, addr, data)
    else if addr < last then Patch(image, addr, data[..last - addr])
    else if last == cached then chip
    else image
  }

  /** A write inside one sector. */
  lemma {:induction false} OneSector(chip: seq<byte>, image: seq<byte>, cached: nat, addr: nat, data: seq<byte>,
                                     sector: nat)
    requires |chip| == |image| && addr + |data| <= |image| && sector == addr / SECTOR * SECTOR &&
             addr + |data| <= sector + SECTOR
    ensures ChipAfter(chip, image, cached, addr, data) ==
            if (addr + |data|) % SECTOR == 0 then Patch(image, addr, data) else if sector == cached then chip else image
  {
    if (addr + |data|) % SECTOR != 0 {
      assert LastSector(addr, |data|) == sector;
    }
  }

  /** Over several sectors it does not matter which one was cached before. */
  lemma {:induction false} ManySectors(chip: seq<byte>, image: seq<byte>, cached: nat, addr: nat, data: seq<byte>,
                                       n: nat)
    requires |chip| == |image| && addr + |data| <= |image| && 0 < n < |data| && (addr + n) % SECTOR == 0
    ensures ChipAfter(chip, image, cached, addr, data) == ChipAfter(image, image, 0, addr, data)
  {
    LastIsLater(addr, n, |data|);
  }

  lemma {:induction false} LastIsLater(addr: nat, n: nat, len: nat)
    requires n < len && (addr + n) % SECTOR == 0
    ensures addr + n <= LastSector(addr, len) <= addr + len
  {}

  /** A write cut at a sector's end. */
  lemma {:induction false} ChipJoined(image: seq<byte>, addr: nat, data: seq<byte>, n: nat)
    requires addr + |data| <= |image| && n < |data| && (addr + n) % SECTOR == 0
    ensures var first := Patch(image, addr, data[..n]);
            ChipAfter(first, first, 0, addr + n, data[n..]) == ChipAfter(image, image, 0, addr, data)
  {
    hide Patch, ChipAfter, LastSector;
    var first, last, tail := Patch(image, addr, data[..n]), LastSector(addr, |data|), data[n..];
    LastIsLater(addr, n, |data|);
    LastOfPieces(addr, n, |tail|);
    ChipFromSector(first, addr + n, tail, last);
    ChipPastSector(image, addr, data, last);
    PatchJoined(image, addr, data, n);
    var k := last - (addr + n);
    PatchMore(image, addr, data, n, k);
    assert tail[..k] == data[n..n + k];
  }

  lemma {:induction false} ChipFromSector(image: seq<byte>, addr: nat, data: seq<byte>, last: nat)
    requires addr + |data| <= |image| && addr % SECTOR == 0 && data != [] && last == LastSector(addr, |data|)
    ensures addr <= last <= addr + |data|
    ensures ChipAfter(image, image, 0, addr, data) ==
            if (addr + |data|) % SECTOR == 0 then Patch(image, addr, data) else Patch(image, addr, data[..last - addr])
  {
    FromSectorStart(image, addr, data);
    hide Patch;
  }

  lemma {:induction false} ChipPastSector(image: seq<byte>, addr: nat, data: seq<byte>, last: nat)
    requires addr + |data| <= |image| && last == LastSector(addr, |data|) && addr <= last
    ensures last - addr <= |data|
    ensures ChipAfter(image, image, 0, addr, data) ==
            if (addr + |data|) % SECTOR == 0 then Patch(image, addr, data) else Patch(image, addr, data[..last - addr])
  {
    if last == addr {
      CleanPatch(image, addr, data[..0]);
    }
    hide Patch;
  }

  /** A write from a sector's start, with nothing dirty before it. */
  lemma {:induction false} FromSectorStart(image: seq<byte>, addr: nat, data: seq<byte>)
    requires addr + |data| <= |image| && addr % SECTOR == 0 && data != []
    ensures var last := LastSector(addr, |data|);
            addr <= last <= addr + |data| &&
            ChipAfter(image, image, 0, addr, data) ==
            Patch(image, addr, if (addr + |data|) % SECTOR == 0 then data else data[..last - addr])
  {
    CleanPatch(image, addr, data[..0]);
  }

  /** The first piece of a write of `n` bytes ends in its sector, and at its end if more is to come. */
  lemma {:induction false} FirstPiece(addr: nat, n: nat, alignAddr: nat, alignLen: nat)
    requires alignAddr == addr / SECTOR * SECTOR
    requires alignLen == if n <= SECTOR - (addr - alignAddr) then n else SECTOR - (addr - alignAddr)
    ensures LastSector(addr, alignLen) == alignAddr && addr + alignLen <= alignAddr + SECTOR
    ensures alignLen < n ==> (addr + alignLen) % SECTOR == 0
  {}

  lemma {:induction false} LastOfPieces(addr: nat, at: nat, cnt: nat)
    requires cnt > 0
    ensures LastSector(addr, at + cnt) == LastSector(addr + at, cnt)
  {}

  lemma {:induction false} PatchJoined(f: seq<byte>, addr: nat, data: seq<byte>, n: nat)
    requires addr + |data| <= |f| && n <= |data|
    ensures Patch(Patch(f, addr, data[..n]), addr + n, data[n..]) == Patch(f, addr, data)
  {
    PatchMore(f, addr, data, n, |data| - n);
    assert data[n..n + (|data| - n)] == data[n..] && data[..n + (|data| - n)] == data;
  }

  lemma {:induction false} Halves(s: seq<byte>, head: seq<byte>, n: nat, len: nat)
    requires n <= len <= |s| && s[..n] == head
    ensures s[..len] == head + s[n..n + (len - n)]
  {}

  lemma {:induction false} SectorFits(sector: nat, size: nat)
    requires sector % SECTOR == 0 && size % SECTOR == 0 && sector < size
    ensures sector + SECTOR <= size
  {}

  lemma {:induction false} SectorOffset(addr: nat, base: nat)
    requires base % SECTOR == 0 && base <= addr < base + SECTOR
    ensures addr % SECTOR == addr - base
  {}

  /** What a cached read gives: from the cache while it starts there, and from the chip otherwise. */
  function ReadBytes(flash: seq<byte>, cacheAddr: nat, cached: seq<byte>, addr: nat, len: nat): seq<byte>
    requires |cached| == SECTOR && addr + len <= |flash|
  {
    if cacheAddr <= addr < cacheAddr + SECTOR then
      var o := addr - cacheAddr;
      if o + len <= SECTOR then cached[o..o + len]
      else cached[o..] + flash[cacheAddr + SECTOR..addr + len]
    else flash[addr..addr + len]
  }

  lemma {:induction false} ReadParts(flash: seq<byte>, cacheAddr: nat, cached: seq<byte>, addr: nat, o: nat, len: nat)
    requires |cached| == SECTOR && addr + len <= |flash| && addr == cacheAddr + o && o < SECTOR
    ensures var n := SECTOR - o;
            ReadBytes(flash, cacheAddr, cached, addr, len) ==
            if len <= n then cached[o..o + len] else cached[o..o + n] + flash[addr + n..addr + n + (len - n)]
  {
    assert cached[o..SECTOR] == cached[o..];
    assert addr + (SECTOR - o) == cacheAddr + SECTOR;
  }

  lemma {:induction false} PatchByte(f: seq<byte>, at: nat, data: seq<byte>, i: nat)
    requires at + |data| <= |f| && i < |f|
    ensures Patch(f, at, data)[i] == if at <= i < at + |data| then data[i - at] else f[i]
  {}

  /** A slice beside the patch is the old one. */
  lemma {:induction false} SliceBeside(f: seq<byte>, at: nat, data: seq<byte>, from: nat, to: nat)
    requires at + |data| <= |f| && from <= to <= |f| && (to <= at || at + |data| <= from)
    ensures Patch(f, at, data)[from..to] == f[from..to]
  {
    var a, b := Patch(f, at, data)[from..to], f[from..to];
    forall i | 0 <= i < to - from ensures a[i] == b[i] {
      PatchByte(f, at, data, from + i);
    }
  }

  /** A slice inside the patch is that of the data. */
  lemma {:induction false} SliceWithin(f: seq<byte>, at: nat, data: seq<byte>, from: nat, to: nat)
    requires at + |data| <= |f| && at <= from <= to <= at + |data|
    ensures Patch(f, at, data)[from..to] == data[from - at..to - at]
  {
    var a, b := Patch(f, at, data)[from..to], data[from - at..to - at];
    forall i | 0 <= i < to - from ensures a[i] == b[i] {
      PatchByte(f, at, data, from + i);
    }
  }

  /** A read that starts in the cached sector. */
  lemma {:induction false} CachedReadIsImage(flash: seq<byte>, cacheAddr: nat, cached: seq<byte>, addr: nat, len: nat)
    requires |cached| == SECTOR && cacheAddr + SECTOR <= |flash| && addr + len <= |flash|
    requires cacheAddr <= addr < cacheAddr + SECTOR
    ensures ReadBytes(flash, cacheAddr, cached, addr, len) == Patch(flash, cacheAddr, cached)[addr..addr + len]
  {
    hide ReadBytes, Patch;
    var image, end, o := Patch(flash, cacheAddr, cached), cacheAddr + SECTOR, addr - cacheAddr;
    ReadParts(flash, cacheAddr, cached, addr, o, len);
    if addr + len <= end {
      SliceWithin(flash, cacheAddr, cached, addr, addr + len);
    } else {
      SliceWithin(flash, cacheAddr, cached, addr, end);
      SliceBeside(flash, cacheAddr, cached, end, addr + len);
      SliceJoined(image, addr, end, addr + len);
    }
  }

  lemma {:induction false} SliceJoined(s: seq<byte>, a: nat, b: nat, c: nat)
    requires a <= b <= c <= |s|
    ensures s[a..c] == s[a..b] + s[b..c]
  {}

  lemma {:induction false} ReadIsImage(flash: seq<byte>, cacheAddr: nat, cached: seq<byte>, addr: nat, len: nat,
                                       dirty: bool)
    requires |cached| == SECTOR && cacheAddr + SECTOR <= |flash| && addr + len <= |flash|
    requires !dirty ==> flash[cacheAddr..cacheAddr + SECTOR] == cached
    requires !(dirty && addr < cacheAddr < addr + len)
    ensures ReadBytes(flash, cacheAddr, cached, addr, len) == Patch(flash, cacheAddr, cached)[addr..addr + len]
  {
    if cacheAddr <= addr < cacheAddr + SECTOR {
      CachedReadIsImage(flash, cacheAddr, cached, addr, len);
    } else if !dirty {
      CleanPatch(flash, cacheAddr, cached);
    } else {
      SliceBeside(flash, cacheAddr, cached, addr, addr + len);
    }
  }

  /**
    Exactly when a read through a dirty cache is right whatever the bytes are:
    when it does not start below the cached sector and run into it.
   */
  lemma {:induction false} ReadRightIff(size: nat, cacheAddr: nat, addr: nat, len: nat)
    requires cacheAddr + SECTOR <= size && addr + len <= size
    ensures !(addr < cacheAddr < addr + len)
       <==> forall flash: seq<byte>, cached: seq<byte> | |flash| == size && |cached| == SECTOR ::
              ReadBytes(flash, cacheAddr, cached, addr, len) == Patch(flash, cacheAddr, cached)[addr..addr + len]
  {
    if !(addr < cacheAddr < addr + len) {
      forall flash: seq<byte>, cached: seq<byte> | |flash| == size && |cached| == SECTOR
        ensures ReadBytes(flash, cacheAddr, cached, addr, len) == Patch(flash, cacheAddr, cached)[addr..addr + len]
      {
        ReadIsImage(flash, cacheAddr, cached, addr, len, true);
      }
    } else {
      var flash: seq<byte>, cached: seq<byte> := seq(size, _ => 0), seq(SECTOR, _ => 1);
      var i := cacheAddr - addr;
      assert ReadBytes(flash, cacheAddr, cached, addr, len)[i] == 0;
      assert Patch(flash, cacheAddr, cached)[addr..addr + len][i] == 1;
    }
  }

  lemma {:induction false} CleanPatch(f: seq<byte>, addr: nat, data: seq<byte>)
    requires addr + |data| <= |f| && f[addr..addr + |data|] == data
    ensures Patch(f, addr, data) == f
  {}

  lemma {:induction false} PatchInside(f: seq<byte>, addr: nat, data: seq<byte>, o: nat, piece: seq<byte>)
    requires addr + |data| <= |f| && o + |piece| <= |data|
    ensures Patch(f, addr, Patch(data, o, piece)) == Patch(Patch(f, addr, data), addr + o, piece)
  {}

  lemma {:induction false} PatchMore(f: seq<byte>, addr: nat, data: seq<byte>, at: nat, cnt: nat)
    requires addr + |data| <= |f| && at + cnt <= |data|
    ensures Patch(Patch(f, addr, data[..at]), addr + at, data[at..at + cnt]) == Patch(f, addr, data[..at + cnt])
  {}

  lemma {:induction false} PageEnds(addr: nat, len: nat, n: nat)
    requires len == if n <= PAGE - addr % PAGE then n else PAGE - addr % PAGE
    ensures addr % PAGE + len <= PAGE && (len < n ==> (addr + len) % PAGE == 0)
  {}

  lemma {:induction false} PageFollows(addr: nat, at: nat, cnt: nat, n: nat)
    requires (addr + at) % PAGE == 0 && cnt == if n - at > PAGE then PAGE else n - at
    ensures at + cnt < n ==> (addr + (at + cnt)) % PAGE == 0
    ensures (addr + at) % PAGE + cnt <= PAGE
  {}

  /** Image and chip once the first `at` bytes of `data` are written, sector by sector. */
  ghost predicate Written(start: seq<byte>, image: seq<byte>, chip: seq<byte>, cached: nat, dirty: bool,
                          addr: nat, data: seq<byte>, at: nat)
    requires at <= |data| && addr + |data| <= |start|
  {
    && image == Patch(start, addr, data[..at])
    && (at < |data| ==> (addr + at) % SECTOR == 0)
    && (dirty <==> (addr + at) % SECTOR != 0)
    && (at > 0 ==> cached == LastSector(addr, at))
    && if dirty then addr <= cached <= addr + at && chip == Patch(start, addr, data[..cached - addr]) else chip == image
  }

  lemma {:induction false} NothingWritten(image: seq<byte>, cached: nat, addr: nat, data: seq<byte>)
    requires addr + |data| <= |image| && addr % SECTOR == 0
    ensures Written(image, image, image, cached, false, addr, data, 0)
  {
    CleanPatch(image, addr, data[..0]);
  }

  lemma {:induction false} PieceFits(start: seq<byte>, image: seq<byte>, chip: seq<byte>, cached: nat, dirty: bool,
                                     addr: nat, data: seq<byte>, at: nat)
    requires at < |data| && addr + |data| <= |start| && Written(start, image, chip, cached, dirty, addr, data, at)
    ensures !dirty && (addr + at) % SECTOR == 0 && image == Patch(start, addr, data[..at])
  {}

  /** A piece from a sector's start that ends in that sector, and at its end if more is to come. */
  lemma {:induction false} PieceWritten(start: seq<byte>, before: seq<byte>, after: seq<byte>, chip: seq<byte>,
                                        cached: nat, dirty: bool, addr: nat, data: seq<byte>, at: nat, cnt: nat)
    requires addr + |data| <= |start| && at < |data| && cnt == if |data| - at > SECTOR then SECTOR else |data| - at
    requires before == Patch(start, addr, data[..at]) && after == Patch(before, addr + at, data[at..at + cnt])
    requires (addr + at) % SECTOR == 0 && cached == addr + at && (dirty <==> (addr + at + cnt) % SECTOR != 0)
    requires chip == if dirty then before else after
    ensures Written(start, after, chip, cached, dirty, addr, data, at + cnt)
  {
    PatchMore(start, addr, data, at, cnt);
  }

  lemma {:induction false} AllWritten(start: seq<byte>, image: seq<byte>, chip: seq<byte>, cached: nat, dirty: bool,
                                      addr: nat, data: seq<byte>)
    requires addr + |data| <= |start| && addr % SECTOR == 0 && data != []
    requires Written(start, image, chip, cached, dirty, addr, data, |data|)
    ensures image == Patch(start, addr, data) && chip == ChipAfter(start, start, 0, addr, data)
    ensures cached == LastSector(addr, |data|) && (dirty <==> (addr + |data|) % SECTOR != 0)
  {
    assert data[..|data|] == data;
    FromSectorStart(start, addr, data);
  }

  /** One more page-sized piece. */
  lemma {:induction false} NextPiece(sent: seq<Command>, addr: nat, buf: seq<byte>, at: nat, cnt: nat)
    requires at + cnt <= |buf| && (addr + at) % PAGE + cnt <= PAGE && Tiles(sent, addr, buf[..at])
    ensures Tiles(sent + [Program(addr + at, buf[at..at + cnt])], addr, buf[..at + cnt])
  {
    var piece := buf[at..at + cnt];
    assert buf[..at] + piece == buf[..at + cnt];
    TilesAppend(sent, addr, buf[..at], piece);
  }
}
