/**
  Runs of the NOR flash driver: what the chip and the image hold after any
  sequence of calls, and when the image is the plain array its callers expect.
 */
module FlashRuns {
  import opened FlashChip
  import opened NorFlash

  datatype Op = DoOpen | DoClose | DoWrite(addr: nat, data: seq<byte>) | DoRead(addr: nat, len: nat) | DoTimer | DoFlush

  /**
    What can be known of the driver without the bytes: its open count, whether it
    has a buffer, what that caches, the dirty flag, and whether bytes written may
    be missing in the chip.
   */
  datatype Cache = Cache(opens: nat, loaded: bool, addr: nat, dirty: bool, pending: bool)

  /** The bytes of the chip, and those the driver presents. */
  datatype Store = Store(chip: seq<byte>, image: seq<byte>)

  /** What the code demands of its callers: a range in the chip, and a driver that was opened. */
  predicate Allowed(c: Cache, op: Op, size: nat) {
    match op
    case DoWrite(addr, data) => c.loaded && addr < size && addr + |data| <= size
    case DoRead(addr, len) => c.loaded && addr + len <= size
    case _ => true
  }

  function CacheStep(c: Cache, op: Op): Cache {
    match op
    case DoOpen =>
      var opens := (c.opens + 1) % 256;
      if c.opens == 0 then Cache(opens, true, 0, c.dirty, false) else c.(opens := opens)
    case DoClose => if c.opens <= 1 then Cache(0, false, c.addr, false, false) else c.(opens := c.opens - 1)
    case DoWrite(addr, data) =>
      var last, dirty := LastSector(addr, |data|), (addr + |data|) % SECTOR != 0;
      Cache(c.opens, c.loaded, last, dirty, dirty && (data != [] || (c.pending && last == c.addr)))
    case DoRead(_, _) => c
    case _ => c.(dirty := false, pending := false)
  }

  /** The two memories after one operation. An open at a count of zero presents the chip. */
  function StoreStep(s: Store, c: Cache, op: Op): (r: Store)
    requires |s.chip| == |s.image|
    ensures |r.chip| == |r.image| == |s.image|
  {
    match op
    case DoOpen => if c.opens == 0 then Store(s.chip, s.chip) else s
    case DoClose => if c.opens <= 1 then Store(s.image, s.image) else s
    case DoWrite(addr, data) =>
      if addr + |data| <= |s.image|
      then Store(ChipAfter(s.chip, s.image, c.addr, addr, data), Patch(s.image, addr, data)) else s
    case DoRead(_, _) => s
    case _ => Store(s.image, s.image)
  }

  /** The plain array a caller expects. */
  function ArrayStep(plain: seq<byte>, op: Op): (r: seq<byte>)
    ensures |r| == |plain|
  {
    if op.DoWrite? && op.addr + |op.data| <= |plain| then Patch(plain, op.addr, op.data) else plain
  }

  function CacheRun(c: Cache, ops: seq<Op>): Cache {
    if ops == [] then c else CacheStep(CacheRun(c, ops[..|ops| - 1]), ops[|ops| - 1])
  }

  function StoreRun(s: Store, c: Cache, ops: seq<Op>): (r: Store)
    requires |s.chip| == |s.image|
    ensures |r.chip| == |r.image| == |s.image|
  {
    if ops == [] then s
    else
      var before := ops[..|ops| - 1];
      StoreStep(StoreRun(s, c, before), CacheRun(c, before), ops[|ops| - 1])
  }

  function ArrayRun(plain: seq<byte>, ops: seq<Op>): (r: seq<byte>)
    ensures |r| == |plain|
  {
    if ops == [] then plain else ArrayStep(ArrayRun(plain, ops[..|ops| - 1]), ops[|ops| - 1])
  }

  lemma {:induction false} RunStep(s: Store, c: Cache, ops: seq<Op>, i: nat)
    requires i < |ops| && |s.chip| == |s.image|
    ensures CacheRun(c, ops[..i + 1]) == CacheStep(CacheRun(c, ops[..i]), ops[i])
    ensures StoreRun(s, c, ops[..i + 1]) == StoreStep(StoreRun(s, c, ops[..i]), CacheRun(c, ops[..i]), ops[i])
    ensures ArrayRun(s.image, ops[..i + 1]) == ArrayStep(ArrayRun(s.image, ops[..i]), ops[i])
  {
    assert ops[..i + 1][..i] == ops[..i];
  }

  lemma {:induction false} RunNothing(s: Store, c: Cache, ops: seq<Op>)
    requires |s.chip| == |s.image|
    ensures CacheRun(c, ops[..0]) == c && StoreRun(s, c, ops[..0]) == s && ArrayRun(s.image, ops[..0]) == s.image
  {
    hide CacheStep, StoreStep, ArrayStep;
    assert ops[..0] == [];
  }

  /** Every operation of the run meets its caller's obligations. */
  predicate AllAllowed(c: Cache, ops: seq<Op>, size: nat) {
    forall i :: 0 <= i < |ops| ==> Allowed(CacheRun(c, ops[..i]), ops[i], size)
  }

  // ----- the driver refines the two memories -----

  /** A read that starts below the dirty cached sector and runs into it. */
  predicate StaleRead(c: Cache, op: Op) {
    op.DoRead? && c.dirty && op.addr < c.addr < op.addr + op.len
  }

  /** What a read gives: the image, or the chip when it is stale. */
  ghost predicate ReadGives(s: Store, c: Cache, op: Op, out: seq<byte>) {
    op.DoRead? ==>
      var source := if StaleRead(c, op) then s.chip else s.image;
      op.addr + op.len <= |source| && out == source[op.addr..op.addr + op.len]
  }

  /** The state of a driver as `Cache` and `Store` describe it. */
  ghost predicate Describes(c: Cache, s: Store, d: Driver)
    requires d.cacheBuf != null ==> d.Cached()
    reads d, d.cacheBuf
  {
    && c.opens == d.openCount && c.addr == d.cacheAddr && c.dirty == d.dirty
    && (c.loaded <==> d.cacheBuf != null)
    && s == Store(d.flash, d.Image())
  }

  /** One operation on the driver is that operation on the two memories. */
  method Perform(d: Driver, op: Op, ghost c: Cache, ghost s: Store) returns (out: seq<byte>)
    requires d.Valid() && Describes(c, s, d) && Allowed(c, op, |d.flash|)
    modifies d, d.cacheBuf
    ensures d.Valid() && Describes(CacheStep(c, op), StoreStep(s, c, op), d)
    ensures d.cacheBuf == old(d.cacheBuf) || d.cacheBuf == null || fresh(d.cacheBuf)
    ensures ReadGives(s, c, op, out)
  {
    hide ChipAfter, Patch, LastSector;
    out := [];
    match op
    case DoOpen => d.Open();
    case DoClose => d.Close();
    case DoWrite(addr, data) => d.Write(addr, data);
    case DoTimer => d.CacheSyncTimer();
    case DoFlush => d.Flush();
    case DoRead(addr, len) => out := PerformRead(d, addr, len);
  }

  method PerformRead(d: Driver, addr: nat, len: nat) returns (out: seq<byte>)
    requires d.Valid() && d.cacheBuf != null && addr + len <= |d.flash|
    ensures out == (if d.Straddles(addr, len) then d.flash else d.Image())[addr..addr + len]
  {
    var buf := new byte[len];
    d.Read(addr, buf, len);
    assert buf[..] == buf[..len];
    out := buf[..];
  }

  /** Every read of a run so far gave what `ReadGives` says. */
  ghost predicate ReadsGive(s: Store, c: Cache, ops: seq<Op>, outs: seq<seq<byte>>)
    requires |s.chip| == |s.image|
  {
    && |outs| <= |ops|
    && forall i :: 0 <= i < |outs| ==> ReadGives(StoreRun(s, c, ops[..i]), CacheRun(c, ops[..i]), ops[i], outs[i])
  }

  lemma {:induction false} NothingRead(s: Store, c: Cache, ops: seq<Op>)
    requires |s.chip| == |s.image|
    ensures ReadsGive(s, c, ops, [])
  {}

  lemma {:induction false} ReadsOneMore(s: Store, c: Cache, ops: seq<Op>, outs: seq<seq<byte>>, out: seq<byte>)
    requires |s.chip| == |s.image| && ReadsGive(s, c, ops, outs) && |outs| < |ops|
    requires ReadGives(StoreRun(s, c, ops[..|outs|]), CacheRun(c, ops[..|outs|]), ops[|outs|], out)
    ensures ReadsGive(s, c, ops, outs + [out])
  {
    hide ReadGives, StoreRun, CacheRun;
  }

  /** Over every run, however often it opens, the driver is the two memories. */
  method Run(d: Driver, ops: seq<Op>, ghost c: Cache, ghost s: Store) returns (outs: seq<seq<byte>>)
    requires d.Valid() && Describes(c, s, d) && AllAllowed(c, ops, |d.flash|)
    modifies d, d.cacheBuf
    ensures d.Valid() && Describes(CacheRun(c, ops), StoreRun(s, c, ops), d)
    ensures |outs| == |ops| && ReadsGive(s, c, ops, outs)
    ensures Agrees(c, s) && NothingLost(c, ops) ==> d.Image() == ArrayRun(old(d.Image()), ops)
  {
    hide CacheStep, StoreStep, ArrayStep, CacheRun, StoreRun, ArrayRun, ReadGives, ReadsGive, NothingLost, Agrees;
    ghost var size, buf := |d.flash|, d.cacheBuf;
    outs := [];
    RunNothing(s, c, ops);
    NothingRead(s, c, ops);
    var i := 0;
    while i < |ops|
      invariant i <= |ops| && d.Valid() && |outs| == i && |s.chip| == |s.image| == size
      invariant d.cacheBuf == buf || d.cacheBuf == null || fresh(d.cacheBuf)
      invariant Describes(CacheRun(c, ops[..i]), StoreRun(s, c, ops[..i]), d)
      invariant ReadsGive(s, c, ops, outs)
    {
      RunStep(s, c, ops, i);
      assert Allowed(CacheRun(c, ops[..i]), ops[i], size);
      var out := Perform(d, ops[i], CacheRun(c, ops[..i]), StoreRun(s, c, ops[..i]));
      ReadsOneMore(s, c, ops, outs, out);
      outs := outs + [out];
      i := i + 1;
    }
    assert ops[..i] == ops;
    if Agrees(c, s) && NothingLost(c, ops) {
      KeptUpTo(c, s, size, ops, i);
    }
  }

  // ----- when the image is the plain array -----

  /** The states a driver can be in. */
  predicate Proper(c: Cache, size: nat) {
    && c.opens < 256 && (c.opens > 0 ==> c.loaded) && (c.pending ==> c.dirty) && (c.dirty ==> c.loaded)
    && (c.loaded ==> c.addr % SECTOR == 0 && c.addr + SECTOR <= size)
  }

  /** The chip lacks nothing that is not pending. */
  predicate Agrees(c: Cache, s: Store) {
    |s.chip| == |s.image| && (!c.pending ==> s.chip == s.image)
  }

  /** The chip lacks nothing but pending bytes of the cached sector. */
  predicate Fits(c: Cache, s: Store, size: nat)
    requires Proper(c, size)
  {
    && |s.chip| == size && Agrees(c, s)
    && (c.pending ==> s.image == Patch(s.chip, c.addr, s.image[c.addr..c.addr + SECTOR]))
  }

  /** Any driver is in such a state, with its dirty flag for what is pending. */
  lemma {:induction false} DriverFits(d: Driver, c: Cache, s: Store)
    requires d.Valid() && Describes(c, s, d) && c.pending == c.dirty
    ensures Proper(c, |d.flash|) && Fits(c, s, |d.flash|)
  {
    if d.cacheBuf != null {
      if d.dirty {
        SliceWithin(d.flash, d.cacheAddr, d.cacheBuf[..], d.cacheAddr, d.cacheAddr + SECTOR);
        assert d.cacheBuf[..][0..SECTOR] == d.cacheBuf[..];
      } else {
        CleanPatch(d.flash, d.cacheAddr, d.cacheBuf[..]);
      }
    }
  }

  /** An open that finds the count at zero while bytes are pending. */
  predicate Loses(c: Cache, op: Op) {
    op.DoOpen? && c.opens == 0 && c.pending
  }

  predicate NothingLost(c: Cache, ops: seq<Op>) {
    forall i :: 0 <= i < |ops| ==> !Loses(CacheRun(c, ops[..i]), ops[i])
  }

  /** The image is the plain array after every operation of the run. */
  predicate Kept(s: Store, c: Cache, ops: seq<Op>)
    requires |s.chip| == |s.image|
  {
    forall k :: 0 <= k <= |ops| ==> StoreRun(s, c, ops[..k]).image == ArrayRun(s.image, ops[..k])
  }

  predicate SameCall(op: Op, other: Op) {
    if op.DoWrite? then other.DoWrite? && op.addr == other.addr && |op.data| == |other.data| else op == other
  }

  /** The same calls, with other bytes written. */
  predicate SameCalls(ops: seq<Op>, other: seq<Op>) {
    |ops| == |other| && forall i :: 0 <= i < |ops| ==> SameCall(ops[i], other[i])
  }

  lemma {:induction false} SameCache(c: Cache, ops: seq<Op>, other: seq<Op>)
    requires SameCalls(ops, other)
    ensures CacheRun(c, ops) == CacheRun(c, other)
    decreases |ops|
  {
    if ops != [] {
      var n := |ops| - 1;
      SameCache(c, ops[..n], other[..n]);
      assert SameCall(ops[n], other[n]);
    }
  }

  /** Neither what callers must keep to nor what is lost depends on the bytes. */
  lemma {:induction false} SameObligations(c: Cache, ops: seq<Op>, other: seq<Op>, size: nat)
    requires SameCalls(ops, other)
    ensures AllAllowed(c, ops, size) ==> AllAllowed(c, other, size)
    ensures NothingLost(c, ops) ==> NothingLost(c, other)
  {
    forall i | 0 <= i < |ops| ensures CacheRun(c, ops[..i]) == CacheRun(c, other[..i]) && SameCall(ops[i], other[i]) {
      SameCache(c, ops[..i], other[..i]);
    }
  }

  lemma {:induction false} AgreesOn(c: Cache, s: Store, op: Op)
    requires Agrees(c, s) && Allowed(c, op, |s.image|)
    ensures Agrees(CacheStep(c, op), StoreStep(s, c, op))
  {
    if op.DoWrite? && op.data == [] {
      CleanPatch(s.image, op.addr, op.data);
    }
  }

  lemma {:induction false} AllowedBefore(c: Cache, ops: seq<Op>, size: nat, n: nat)
    requires AllAllowed(c, ops, size) && n <= |ops|
    ensures AllAllowed(c, ops[..n], size)
  {
    forall i | 0 <= i < n ensures Allowed(CacheRun(c, ops[..n][..i]), ops[..n][i], size) {
      assert ops[..n][..i] == ops[..i];
    }
  }

  lemma {:induction false} AgreesAfter(c: Cache, s: Store, ops: seq<Op>)
    requires Agrees(c, s) && AllAllowed(c, ops, |s.image|)
    ensures Agrees(CacheRun(c, ops), StoreRun(s, c, ops))
    decreases |ops|
  {
    if ops != [] {
      var n := |ops| - 1;
      AllowedBefore(c, ops, |s.image|, n);
      AgreesAfter(c, s, ops[..n]);
      assert ops[..n] == ops[..|ops| - 1] && Allowed(CacheRun(c, ops[..n]), ops[n], |s.image|);
      AgreesOn(CacheRun(c, ops[..n]), StoreRun(s, c, ops[..n]), ops[n]);
    }
  }

  /** Where nothing is lost the image is the plain array, up to any point. */
  lemma {:induction false} KeptUpTo(c: Cache, s: Store, size: nat, ops: seq<Op>, k: nat)
    requires Agrees(c, s) && |s.chip| == size == |s.image| && AllAllowed(c, ops, size) && NothingLost(c, ops) &&
             k <= |ops|
    ensures StoreRun(s, c, ops[..k]).image == ArrayRun(s.image, ops[..k])
  {
    hide *;
    if k == 0 {
      RunNothing(s, c, ops);
    } else {
      var before: seq<Op> := ops[..k - 1];
      KeptUpTo(c, s, size, ops, k - 1);
      RunStep(s, c, ops, k - 1);
      AllowedBefore(c, ops, size, k - 1);
      AgreesAfter(c, s, before);
      NotLost(c, ops, k - 1);
      KeptStep(CacheRun(c, before), StoreRun(s, c, before), ops[k - 1]);
    }
  }

  lemma {:induction false} NotLost(c: Cache, ops: seq<Op>, i: nat)
    requires NothingLost(c, ops) && i < |ops|
    ensures !Loses(CacheRun(c, ops[..i]), ops[i])
  {}

  lemma {:induction false} KeptStep(c: Cache, s: Store, op: Op)
    requires Agrees(c, s) && !Loses(c, op)
    ensures StoreStep(s, c, op).image == ArrayStep(s.image, op)
  {
    hide Patch, ChipAfter;
  }

  /** What is pending after a call that writes no byte was so before, and is still missing in the chip. */
  lemma {:induction false} StillPending(c: Cache, s: Store, op: Op)
    requires |s.chip| == |s.image| && CacheStep(c, op).pending &&
             (op.DoWrite? ==> op.data == [] && op.addr <= |s.image|)
    ensures c.pending && StoreStep(s, c, op) == s
  {
    if op.DoWrite? {
      CleanPatch(s.image, op.addr, op.data);
    }
  }

  /** A write that leaves its last byte in the cache can leave another one in the chip. */
  lemma {:induction false} WriteCanDiffer(s: Store, cached: nat, addr: nat, n: nat) returns (data: seq<byte>)
    requires |s.chip| == |s.image| && 0 < n && addr + n <= |s.image| && (addr + n) % SECTOR != 0
    ensures |data| == n && ChipAfter(s.chip, s.image, cached, addr, data) != Patch(s.image, addr, data)
  {
    var last, p := LastSector(addr, n), addr + n - 1;
    var b := if addr < last || last != cached then s.image[p] else s.chip[p];
    data := seq(n, _ => b ^ 1);
    assert ChipAfter(s.chip, s.image, cached, addr, data)[p] == b;
    PatchByte(s.image, addr, data, p);
    assert b != b ^ 1;
  }

  /** Whatever is pending may be missing in the chip: some bytes make the difference. */
  lemma {:induction false} PendingCanDiffer(c: Cache, size: nat, ops: seq<Op>) returns (s: Store, other: seq<Op>)
    requires Proper(c, size) && AllAllowed(c, ops, size) && CacheRun(c, ops).pending
    ensures SameCalls(ops, other) && Fits(c, s, size)
    ensures StoreRun(s, c, other).chip != StoreRun(s, c, other).image
    decreases |ops|
  {
    if ops == [] {
      s := PatchedOnes(c, size);
      other := [];
    } else {
      hide Fits, StoreStep, CacheStep, Proper;
      var n := |ops| - 1;
      AllowedBefore(c, ops, size, n);
      if ops[n].DoWrite? && ops[n].data != [] {
        s, other := WrittenLast(c, size, ops);
      } else {
        var before: seq<Op>;
        StillPending(CacheRun(c, ops[..n]), Zeros(c, size), ops[n]);
        s, before := PendingCanDiffer(c, size, ops[..n]);
        other := PendingLast(c, s, ops, before);
      }
    }
  }

  function Zeros(c: Cache, size: nat): (s: Store)
    requires Proper(c, size)
    ensures Fits(c, s, size)
  {
    var zeros: seq<byte> := seq(size, _ => 0);
    assert c.pending ==> Patch(zeros, c.addr, zeros[c.addr..c.addr + SECTOR]) == zeros;
    Store(zeros, zeros)
  }

  lemma {:induction false} PatchedOnes(c: Cache, size: nat) returns (s: Store)
    requires Proper(c, size) && c.pending
    ensures Fits(c, s, size) && s.chip != s.image
  {
    var zeros, ones: seq<byte> := seq(size, _ => 0), seq(SECTOR, _ => 1);
    PatchShows(zeros, c.addr, ones);
    s := Store(zeros, Patch(zeros, c.addr, ones));
  }

  lemma {:induction false} PatchShows(f: seq<byte>, at: nat, data: seq<byte>)
    requires at + |data| <= |f| && data != []
    ensures Patch(f, at, data)[at..at + |data|] == data
    ensures data[0] != f[at] ==> Patch(f, at, data) != f
  {
    SliceWithin(f, at, data, at, at + |data|);
    assert data[0..|data|] == data;
    PatchByte(f, at, data, at);
  }

  /** The last call wrote bytes that are pending. */
  lemma {:induction false} WrittenLast(c: Cache, size: nat, ops: seq<Op>) returns (s: Store, other: seq<Op>)
    requires Proper(c, size) && AllAllowed(c, ops, size) && CacheRun(c, ops).pending
    requires var n := |ops| - 1; ops != [] && ops[n].DoWrite? && ops[n].data != []
    ensures SameCalls(ops, other) && Fits(c, s, size)
    ensures StoreRun(s, c, other).chip != StoreRun(s, c, other).image
  {
    hide ChipAfter, Patch, LastSector, Fits, Proper;
    s := Zeros(c, size);
    var n := |ops| - 1;
    var op, now := ops[n], CacheRun(c, ops[..n]);
    assert Allowed(now, op, size);
    var data := WriteCanDiffer(StoreRun(s, c, ops[..n]), now.addr, op.addr, |op.data|);
    other := ops[..n] + [DoWrite(op.addr, data)];
    assert other[..n] == ops[..n];
  }

  /** The last call wrote nothing, and left pending what already was. */
  lemma {:induction false} PendingLast(c: Cache, s: Store, ops: seq<Op>, before: seq<Op>) returns (other: seq<Op>)
    requires ops != [] && |s.chip| == |s.image| && SameCalls(ops[..|ops| - 1], before) && CacheRun(c, ops).pending
    requires var op := ops[|ops| - 1]; op.DoWrite? ==> op.data == [] && op.addr <= |s.image|
    requires StoreRun(s, c, before).chip != StoreRun(s, c, before).image
    ensures SameCalls(ops, other)
    ensures StoreRun(s, c, other).chip != StoreRun(s, c, other).image
  {
    hide StoreStep, CacheStep;
    var n := |ops| - 1;
    other := before + [ops[n]];
    assert other[..n] == before;
    SameCache(c, ops[..n], before);
    StillPending(CacheRun(c, before), StoreRun(s, c, before), ops[n]);
  }

  /**
    Exactly when the driver is a plain array whatever the bytes are: when no open
    finds the count at zero while bytes are pending.
   */
  lemma {:induction false} KeptIff(c: Cache, size: nat, ops: seq<Op>)
    requires Proper(c, size) && AllAllowed(c, ops, size)
    ensures NothingLost(c, ops) <==>
            forall s: Store, other: seq<Op> :: Fits(c, s, size) && SameCalls(ops, other) ==> Kept(s, c, other)
  {
    if NothingLost(c, ops) {
      forall s: Store, other: seq<Op> | Fits(c, s, size) && SameCalls(ops, other) ensures Kept(s, c, other) {
        SameObligations(c, ops, other, size);
        forall k | 0 <= k <= |other| ensures StoreRun(s, c, other[..k]).image == ArrayRun(s.image, other[..k]) {
          KeptUpTo(c, s, size, other, k);
        }
      }
    } else {
      var i :| 0 <= i < |ops| && Loses(CacheRun(c, ops[..i]), ops[i]);
      var s, other := LossShows(c, size, ops, i);
    }
  }

  /** The bytes that show a loss. */
  lemma {:induction false} LossShows(c: Cache, size: nat, ops: seq<Op>, i: nat) returns (s: Store, other: seq<Op>)
    requires Proper(c, size) && AllAllowed(c, ops, size) && i < |ops| && Loses(CacheRun(c, ops[..i]), ops[i])
    ensures Fits(c, s, size) && SameCalls(ops, other) && !Kept(s, c, other)
  {
    AllowedBefore(c, ops, size, i);
    var before: seq<Op>;
    s, before := PendingCanDiffer(c, size, ops[..i]);
    other := before + ops[i..];
    assert other[..i] == before;
    SameCache(c, ops[..i], before);
    RunStep(s, c, other, i);
    var now, next := StoreRun(s, c, other[..i]), StoreRun(s, c, other[..i + 1]);
    assert next.image == now.chip;
    assert ArrayRun(s.image, other[..i + 1]) == ArrayRun(s.image, other[..i]);
  }

  // ----- the wrapped count -----

  lemma {:induction false} RunJoined(s: Store, c: Cache, a: seq<Op>, b: seq<Op>)
    requires |s.chip| == |s.image|
    ensures CacheRun(c, a + b) == CacheRun(CacheRun(c, a), b)
    ensures StoreRun(s, c, a + b) == StoreRun(StoreRun(s, c, a), CacheRun(c, a), b)
    ensures ArrayRun(s.image, a + b) == ArrayRun(ArrayRun(s.image, a), b)
    decreases |b|
  {
    hide CacheStep, StoreStep, ArrayStep;
    if b == [] {
      assert a + b == a;
    } else {
      var n := |b| - 1;
      RunJoined(s, c, a, b[..n]);
      assert (a + b)[..|a + b| - 1] == a + b[..n];
    }
  }

  function Opens(n: nat): seq<Op> {
    seq(n, _ => DoOpen)
  }

  lemma {:induction false} OpenCounts(s: Store, c: Cache, op: Op)
    requires op == DoOpen && 0 < c.opens && |s.chip| == |s.image|
    ensures CacheStep(c, op) == c.(opens := (c.opens + 1) % 256) && StoreStep(s, c, op) == s &&
            ArrayStep(s.image, op) == s.image
  {}

  lemma {:induction false} OpensBefore(n: nat, k: nat)
    requires k <= n
    ensures |Opens(n)| == n && Opens(n)[..k] == Opens(k) && (k < n ==> Opens(n)[k] == DoOpen)
  {}

  /** Opens on top of others do nothing but count, up to the one that makes the count zero. */
  lemma {:induction false} NestedOpens(s: Store, c: Cache, n: nat)
    requires 0 < c.opens < 256 && c.opens + n <= 256 && |s.chip| == |s.image|
    ensures CacheRun(c, Opens(n)) == c.(opens := (c.opens + n) % 256)
    ensures StoreRun(s, c, Opens(n)) == s && ArrayRun(s.image, Opens(n)) == s.image
  {
    hide *;
    OpensBefore(n, n);
    if n == 0 {
      RunNothing(s, c, Opens(n));
    } else {
      NestedOpens(s, c, n - 1);
      OpensBefore(n, n - 1);
      RunStep(s, c, Opens(n), n - 1);
      OpenCounts(s, c.(opens := c.opens + (n - 1)), Opens(n)[n - 1]);
    }
  }

  const CLOSED := Cache(0, false, 0, false, false)

  function OneByte(b: byte): seq<Op> {
    [DoOpen, DoWrite(0, [b])]
  }

  /** One byte written, then opens up to the one that makes the count zero. */
  function Wrapping(b: byte): seq<Op> {
    OneByte(b) + Opens(255)
  }

  lemma {:induction false} FirstByte(chip: seq<byte>, b: byte)
    requires SECTOR <= |chip|
    ensures var s := Store(chip, chip);
            && CacheRun(CLOSED, OneByte(b)) == Cache(1, true, 0, true, true)
            && StoreRun(s, CLOSED, OneByte(b)) == Store(chip, Patch(chip, 0, [b]))
            && ArrayRun(chip, OneByte(b)) == Patch(chip, 0, [b])
  {
    hide Patch;
    var s, first := Store(chip, chip), OneByte(b);
    assert first[..0] == [];
    RunStep(s, CLOSED, first, 0);
    RunStep(s, CLOSED, first, 1);
    assert first[..2] == first;
  }

  /** A byte is written, and opens make the count zero. */
  lemma {:induction false} WrappedOpen(chip: seq<byte>, b: byte)
    requires SECTOR <= |chip|
    ensures CacheRun(CLOSED, Wrapping(b)) == Cache(0, true, 0, true, true)
    ensures StoreRun(Store(chip, chip), CLOSED, Wrapping(b)) == Store(chip, Patch(chip, 0, [b]))
    ensures ArrayRun(chip, Wrapping(b)) == Patch(chip, 0, [b])
  {
    hide Patch, CacheStep, StoreStep, ArrayStep, CacheRun, StoreRun, ArrayRun, Opens, OneByte;
    var s, first := Store(chip, chip), OneByte(b);
    FirstByte(chip, b);
    RunJoined(s, CLOSED, first, Opens(255));
    NestedOpens(StoreRun(s, CLOSED, first), CacheRun(CLOSED, first), 255);
    NestedOpens(Store(chip, ArrayRun(chip, first)), CacheRun(CLOSED, first), 255);
  }

  /** After the wrap a close still stores the byte, and an open forgets it. */
  lemma {:induction false} LostByte(chip: seq<byte>, b: byte)
    requires SECTOR <= |chip|
    ensures var s, plain := Store(chip, chip), Patch(chip, 0, [b]);
            && ArrayRun(chip, Wrapping(b) + [DoClose]) == ArrayRun(chip, Wrapping(b) + [DoOpen]) == plain
            && StoreRun(s, CLOSED, Wrapping(b) + [DoClose]) == Store(plain, plain)
            && StoreRun(s, CLOSED, Wrapping(b) + [DoOpen]) == s
  {
    WrappedOpen(chip, b);
    hide Patch, Wrapping;
    var n := |Wrapping(b)|;
    assert (Wrapping(b) + [DoClose])[..n] == Wrapping(b) == (Wrapping(b) + [DoOpen])[..n];
  }
}
