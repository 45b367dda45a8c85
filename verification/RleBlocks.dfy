/**
  The run-length code itself: blocks, how they are written, and what they stand
  for.  Decoding undoes the writing, and every stream that can be decoded is
  written so.
 */
module RleBlocks {
  import opened Options
  import opened Rle

  type Pixel = seq<byte>

  /** At most 127 equal pixels, or at most 127 pixels of any kind. */
  datatype Block = Run(pixel: Pixel, count: nat) | Literal(pixels: seq<Pixel>)

  predicate AllOfSize(pixels: seq<Pixel>, ps: PixelSize) {
    forall i :: 0 <= i < |pixels| ==> |pixels[i]| == ps
  }

  predicate Valid(b: Block, ps: PixelSize) {
    match b
    case Run(pixel, count) => |pixel| == ps && count < 128
    case Literal(pixels) => AllOfSize(pixels, ps) && |pixels| < 128
  }

  predicate AllValid(bs: seq<Block>, ps: PixelSize) {
    forall i :: 0 <= i < |bs| ==> Valid(bs[i], ps)
  }

  /** The pixels a block stands for. */
  function PixelsOf(b: Block): seq<Pixel> {
    match b
    case Run(pixel, count) => seq(count, _ => pixel)
    case Literal(pixels) => pixels
  }

  /** The bytes of pixels one after the other. */
  function Bytes(pixels: seq<Pixel>): seq<byte> {
    if pixels == [] then [] else pixels[0] + Bytes(pixels[1..])
  }

  function AllBytes(bs: seq<Block>): seq<byte> {
    if bs == [] then [] else Bytes(PixelsOf(bs[0])) + AllBytes(bs[1..])
  }

  /** A block as it is written: the count, marked by 128 for a run, and the pixel or pixels. */
  function Encode(b: Block, ps: PixelSize): seq<byte>
    requires Valid(b, ps)
  {
    match b
    case Run(pixel, count) => [128 + count] + pixel
    case Literal(pixels) => [|pixels|] + Bytes(pixels)
  }

  function EncodeAll(bs: seq<Block>, ps: PixelSize): seq<byte>
    requires AllValid(bs, ps)
  {
    if bs == [] then [] else Encode(bs[0], ps) + EncodeAll(bs[1..], ps)
  }

  lemma {:induction false} BytesSize(pixels: seq<Pixel>, ps: PixelSize)
    requires AllOfSize(pixels, ps)
    ensures |Bytes(pixels)| == Times(|pixels|, ps)
  {
    if pixels != [] {
      BytesSize(pixels[1..], ps);
    }
  }

  /** Equal pixels one after the other. */
  lemma {:induction false} RunBytes(pixel: Pixel, count: nat)
    requires |pixel| in {1, 2}
    ensures Bytes(PixelsOf(Run(pixel, count))) == Repeat(pixel, count)
  {
    if count > 0 {
      assert PixelsOf(Run(pixel, count))[1..] == PixelsOf(Run(pixel, count - 1));
      RunBytes(pixel, count - 1);
    }
  }

  /** A block at the start of a stream. */
  lemma {:induction false} EncodedBlock(b: Block, ps: PixelSize, rest: seq<byte>)
    requires Valid(b, ps)
    ensures var s := Encode(b, ps) + rest;
            && s != [] && 1 + Body(s[0], ps) <= |s| && s[1 + Body(s[0], ps)..] == rest
            && Rle.Block(s, ps) == Bytes(PixelsOf(b)) && Size(s[0], ps) == |Bytes(PixelsOf(b))|
  {
    match b
    case Run(_, _) => EncodedRun(b, ps, rest);
    case Literal(_) => EncodedLiteral(b, ps, rest);
  }

  lemma {:induction false} EncodedRun(b: Block, ps: PixelSize, rest: seq<byte>)
    requires Valid(b, ps) && b.Run?
    ensures var s := Encode(b, ps) + rest;
            && s != [] && 1 + Body(s[0], ps) <= |s| && s[1 + Body(s[0], ps)..] == rest
            && Rle.Block(s, ps) == Bytes(PixelsOf(b)) && Size(s[0], ps) == |Bytes(PixelsOf(b))|
  {
    RunBytes(b.pixel, b.count);
    hide Bytes, PixelsOf, Repeat;
    var s := Encode(b, ps) + rest;
    assert s[0] == 128 + b.count && s[1..1 + ps] == b.pixel;
  }

  lemma {:induction false} EncodedLiteral(b: Block, ps: PixelSize, rest: seq<byte>)
    requires Valid(b, ps) && b.Literal?
    ensures var s := Encode(b, ps) + rest;
            && s != [] && 1 + Body(s[0], ps) <= |s| && s[1 + Body(s[0], ps)..] == rest
            && Rle.Block(s, ps) == Bytes(PixelsOf(b)) && Size(s[0], ps) == |Bytes(PixelsOf(b))|
  {
    BytesSize(b.pixels, ps);
    hide Bytes;
    var s := Encode(b, ps) + rest;
    assert s[0] == |b.pixels| && s[1..1 + Size(s[0], ps)] == Bytes(b.pixels);
  }

  /** Decoding undoes encoding. */
  lemma {:induction false} EncodedDecodes(bs: seq<Block>, ps: PixelSize)
    requires AllValid(bs, ps)
    ensures WellFormed(EncodeAll(bs, ps), ps) && Decoded(EncodeAll(bs, ps), ps) == AllBytes(bs)
  {
    if bs != [] {
      EncodedBlock(bs[0], ps, EncodeAll(bs[1..], ps));
      EncodedDecodes(bs[1..], ps);
    }
  }

  /** Bytes cut into pixels. */
  lemma {:induction false} PixelsIn(s: seq<byte>, n: nat, ps: PixelSize) returns (pixels: seq<Pixel>)
    requires |s| == Times(n, ps)
    ensures |pixels| == n && AllOfSize(pixels, ps) && Bytes(pixels) == s
    decreases n
  {
    if n == 0 {
      pixels := [];
    } else {
      var rest := PixelsIn(s[ps..], n - 1, ps);
      pixels := [s[..ps]] + rest;
      assert pixels[1..] == rest && s[..ps] + s[ps..] == s;
    }
  }

  /** The block at the start of a stream. */
  lemma {:induction false} BlockAt(s: seq<byte>, ps: PixelSize) returns (b: Block)
    requires s != [] && 1 + Body(s[0], ps) <= |s|
    ensures Valid(b, ps) && s == Encode(b, ps) + s[1 + Body(s[0], ps)..]
  {
    var n := Body(s[0], ps);
    if s[0] >= 128 {
      b := Run(s[1..1 + n], s[0] - 128);
    } else {
      var pixels := PixelsIn(s[1..1 + n], s[0], ps);
      b := Literal(pixels);
    }
    assert s == [s[0]] + s[1..1 + n] + s[1 + n..];
  }

  /** Every well-formed stream encodes blocks. */
  lemma {:induction false} BlocksOf(s: seq<byte>, ps: PixelSize) returns (bs: seq<Block>)
    requires WellFormed(s, ps)
    ensures AllValid(bs, ps) && s == EncodeAll(bs, ps)
    decreases |s|
  {
    if s == [] {
      bs := [];
    } else {
      var b := BlockAt(s, ps);
      var rest := BlocksOf(s[1 + Body(s[0], ps)..], ps);
      bs := [b] + rest;
      assert bs[1..] == rest;
    }
  }

  /** The window ends in block `k`. */
  predicate EndsIn(bs: seq<Block>, k: nat, need: nat) {
    k < |bs| && |AllBytes(bs[..k])| < need <= |AllBytes(bs[..k + 1])|
  }

  lemma {:induction false} BytesFirst(bs: seq<Block>, k: nat)
    requires 0 < k <= |bs|
    ensures AllBytes(bs[..k]) == Bytes(PixelsOf(bs[0])) + AllBytes(bs[1..][..k - 1])
  {
    assert bs[..k][1..] == bs[1..][..k - 1];
  }

  lemma {:induction false} BytesTotal(bs: seq<Block>, k: nat)
    requires k == |bs|
    ensures bs[..k] == bs
  {}

  /** The first block of a stream, or the others, as the search for the window's end sees them. */
  lemma {:induction false} FirstBlock(bs: seq<Block>, ps: PixelSize, need: nat, dec: nat)
    requires bs != [] && AllValid(bs, ps) && WellFormed(EncodeAll(bs, ps), ps)
    ensures var s, rest, size := EncodeAll(bs, ps), EncodeAll(bs[1..], ps), dec + |Bytes(PixelsOf(bs[0]))|;
            && AllValid(bs[1..], ps) && WellFormed(rest, ps)
            && if size >= need then Reach(s, ps, need, dec) == Some(size) && Start(s, ps, need, dec) == dec
               else
                 && Reach(s, ps, need, dec) == Reach(rest, ps, need, size)
                 && Start(s, ps, need, dec) == Start(rest, ps, need, size)
    ensures AllBytes(bs[..0]) == [] && AllBytes(bs[..1]) == Bytes(PixelsOf(bs[0]))
    ensures dec < need <= dec + |Bytes(PixelsOf(bs[0]))| ==> EndsIn(bs, 0, need - dec)
    ensures |AllBytes(bs)| == |Bytes(PixelsOf(bs[0]))| + |AllBytes(bs[1..])|
  {
    hide Encode, Body, Size, Rle.Block, PixelsOf, Bytes, Valid;
    var rest := EncodeAll(bs[1..], ps);
    EncodedBlock(bs[0], ps, rest);
    assert bs[..1] == [bs[0]] && bs[..1][1..] == [];
  }

  /** The blocks where the window ends, in the stream and in its rest. */
  lemma {:induction false} EndsLater(bs: seq<Block>, k: nat, need: nat)
    requires bs != [] && EndsIn(bs[1..], k, need)
    ensures var size := |Bytes(PixelsOf(bs[0]))|;
            && EndsIn(bs, k + 1, need + size) && k + 1 < |bs|
            && |AllBytes(bs[..k + 1])| == size + |AllBytes(bs[1..][..k])|
            && |AllBytes(bs[..k + 2])| == size + |AllBytes(bs[1..][..k + 1])|
  {
    BytesFirst(bs, k + 1);
    BytesFirst(bs, k + 2);
  }

  lemma {:induction false} NoBlocks(ps: PixelSize, need: nat, dec: nat)
    ensures Reach(EncodeAll([], ps), ps, need, dec) == None && AllBytes([]) == []
  {}

  /** Where the block in which the window ends starts and ends, in blocks. */
  lemma {:induction false} ReachIsBlock(bs: seq<Block>, ps: PixelSize, need: nat, dec: nat) returns (k: nat)
    requires AllValid(bs, ps) && WellFormed(EncodeAll(bs, ps), ps) && dec < need
    ensures var s := EncodeAll(bs, ps);
            if Reach(s, ps, need, dec).Some? then
              && EndsIn(bs, k, need - dec)
              && Reach(s, ps, need, dec).value == dec + |AllBytes(bs[..k + 1])|
              && Start(s, ps, need, dec) == dec + |AllBytes(bs[..k])|
            else dec + |AllBytes(bs)| < need
    decreases |bs|
  {
    hide *;
    k := 0;
    if bs == [] {
      NoBlocks(ps, need, dec);
    } else {
      FirstBlock(bs, ps, need, dec);
      var rest, size := EncodeAll(bs[1..], ps), dec + |Bytes(PixelsOf(bs[0]))|;
      if size < need {
        var j := ReachIsBlock(bs[1..], ps, need, size);
        if Reach(rest, ps, need, size).Some? {
          k := j + 1;
          EndsLater(bs, j, need - size);
        }
      }
    }
  }

  lemma {:induction false} BytesGrow(bs: seq<Block>, j: nat, k: nat)
    requires j <= k <= |bs|
    ensures |AllBytes(bs[..j])| <= |AllBytes(bs[..k])|
    decreases k
  {
    if j > 0 {
      BytesFirst(bs, j);
      BytesFirst(bs, k);
      BytesGrow(bs[1..], j - 1, k - 1);
    }
  }

  /** A window ends in one block only. */
  lemma {:induction false} OneEnd(bs: seq<Block>, j: nat, k: nat, need: nat)
    requires EndsIn(bs, j, need) && EndsIn(bs, k, need)
    ensures j == k
  {
    if j < k {
      BytesGrow(bs, j + 1, k);
    } else if k < j {
      BytesGrow(bs, k + 1, j);
    }
  }

  /**
    What decoding a window of encoded blocks returns: where the block starts in
    which the window ends, if the size limit covers it.
   */
  lemma {:induction false} ReturnsBlockStart(bs: seq<Block>, ps: PixelSize, limit: int, need: nat, len: nat, k: nat)
    requires AllValid(bs, ps) && WellFormed(EncodeAll(bs, ps), ps) && EndsIn(bs, k, need)
    ensures Returned(EncodeAll(bs, ps), ps, limit, need, len) ==
            if |AllBytes(bs[..k + 1])| <= limit then |AllBytes(bs[..k])| else -1
  {
    var j := ReachIsBlock(bs, ps, need, 0);
    BytesGrow(bs, k + 1, |bs|);
    BytesTotal(bs, |bs|);
    OneEnd(bs, j, k, need);
  }

  /** A window that ends in no block fails, unless it is empty: then all is decoded. */
  lemma {:induction false} ReturnsWithoutEnd(bs: seq<Block>, ps: PixelSize, limit: int, need: nat, len: nat)
    requires AllValid(bs, ps) && WellFormed(EncodeAll(bs, ps), ps) && (need == 0 || |AllBytes(bs)| < need)
    ensures Returned(EncodeAll(bs, ps), ps, limit, need, len) ==
            if len == 0 && (bs == [] || |AllBytes(bs)| <= limit) then |AllBytes(bs)| else -1
  {
    EncodedDecodes(bs, ps);
    if bs != [] {
      EncodedBlock(bs[0], ps, EncodeAll(bs[1..], ps));
    }
    if need > 0 {
      hide EncodeAll, Decoded, AllBytes, WellFormed;
      var j := ReachIsBlock(bs, ps, need, 0);
      BytesTotal(bs, |bs|);
      BytesGrow(bs, if j < |bs| then j + 1 else |bs|, |bs|);
    }
  }
}
