/**
  Decoding a window of a run-length encoded stream.  A block starts with a
  byte whose low seven bits count pixels; with the high bit set one pixel
  follows, to be repeated, and otherwise that many pixels follow.
 */
module Rle {
  import opened Options

  type byte = b: int | 0 <= b < 256

  /** Bytes in a pixel; other sizes trip an assertion in the code. */
  type PixelSize = n: nat | 1 <= n <= 2 witness 1

  function Times(count: nat, ps: PixelSize): nat {
    if ps == 2 then count * 2 else count
  }

  /** `x` is a whole number of pixels. */
  predicate Aligned(x: int, ps: PixelSize) {
    ps == 2 ==> x % 2 == 0
  }

  function Repeat(pixel: seq<byte>, count: nat): (r: seq<byte>)
    requires |pixel| in {1, 2}
    ensures |r| == Times(count, |pixel|)
  {
    if count == 0 then [] else pixel + Repeat(pixel, count - 1)
  }

  /** The number of bytes a block decodes to. */
  function Size(sign: byte, ps: PixelSize): (n: nat)
    ensures Aligned(n, ps)
  {
    Times(sign % 128, ps)
  }

  /** The number of bytes a block takes after its first. */
  function Body(sign: byte, ps: PixelSize): nat {
    if sign >= 128 then ps else Size(sign, ps)
  }

  /** What the block at the start of the stream decodes to. */
  function Block(s: seq<byte>, ps: PixelSize): (r: seq<byte>)
    requires s != [] && 1 + Body(s[0], ps) <= |s|
    ensures |r| == Size(s[0], ps)
  {
    if s[0] >= 128 then Repeat(s[1..1 + ps], s[0] % 128)
    else s[1..1 + Size(s[0], ps)]
  }

  predicate WellFormed(s: seq<byte>, ps: PixelSize)
    decreases |s|
  {
    s == [] || (1 + Body(s[0], ps) <= |s| && WellFormed(s[1 + Body(s[0], ps)..], ps))
  }

  /** The whole stream decoded. */
  function Decoded(s: seq<byte>, ps: PixelSize): seq<byte>
    requires WellFormed(s, ps)
    decreases |s|
  {
    if s == [] then [] else Block(s, ps) + Decoded(s[1 + Body(s[0], ps)..], ps)
  }

  /** Where the first block that reaches `need` bytes ends, `dec` bytes having been decoded before. */
  function Reach(s: seq<byte>, ps: PixelSize, need: nat, dec: nat): Option<nat>
    requires WellFormed(s, ps)
    decreases |s|
  {
    if s == [] then None
    else if dec + Size(s[0], ps) >= need then Some(dec + Size(s[0], ps))
    else Reach(s[1 + Body(s[0], ps)..], ps, need, dec + Size(s[0], ps))
  }

  /** Where that block starts. */
  function Start(s: seq<byte>, ps: PixelSize, need: nat, dec: nat): nat
    requires WellFormed(s, ps)
    decreases |s|
  {
    if s == [] || dec + Size(s[0], ps) >= need then dec
    else Start(s[1 + Body(s[0], ps)..], ps, need, dec + Size(s[0], ps))
  }

  /** A block reaches `need` exactly if that much is decoded at all. */
  lemma {:induction false} ReachExists(s: seq<byte>, ps: PixelSize, need: nat, dec: nat)
    requires WellFormed(s, ps) && need > dec
    ensures Reach(s, ps, need, dec).Some? <==> need <= dec + |Decoded(s, ps)|
    decreases |s|
  {
    if s != [] {
      var rest := s[1 + Body(s[0], ps)..];
      if dec + Size(s[0], ps) < need {
        ReachExists(rest, ps, need, dec + Size(s[0], ps));
      }
    }
  }

  /** Byte `k` of a repeated pixel. */
  function PixelByte(pixel: seq<byte>, k: nat): byte
    requires |pixel| in {1, 2}
  {
    if |pixel| == 2 then pixel[k % 2] else pixel[0]
  }

  lemma {:induction false} RepeatAt(pixel: seq<byte>, count: nat, k: nat)
    requires |pixel| in {1, 2} && k < |Repeat(pixel, count)|
    ensures Repeat(pixel, count)[k] == PixelByte(pixel, k)
  {
    if count > 0 && k >= |pixel| {
      assert Repeat(pixel, count) == pixel + Repeat(pixel, count - 1);
      RepeatAt(pixel, count - 1, k - |pixel|);
    }
  }

  /** Writes `copylen` bytes of a repeated pixel: `memset` where its bytes agree, else pixel by pixel. */
  method FillRun(out: array<byte>, pos: nat, pixel: seq<byte>, copylen: nat)
    requires |pixel| in {1, 2} && Aligned(copylen, |pixel|) && pos + copylen <= out.Length
    modifies out
    ensures forall k :: 0 <= k < copylen ==> out[pos..pos + copylen][k] == PixelByte(pixel, k)
    ensures out[..pos] == old(out[..pos]) && out[pos + copylen..] == old(out[pos + copylen..])
  {
    if |pixel| == 1 || pixel[0] == pixel[1] {
      forall k | 0 <= k < copylen {
        out[pos + k] := pixel[0];
      }
    } else {
      var t := 0;
      while t < copylen / 2
        invariant t <= copylen / 2
        invariant forall k :: 0 <= k < 2 * t ==> out[pos..pos + copylen][k] == PixelByte(pixel, k)
        invariant out[..pos] == old(out[..pos]) && out[pos + copylen..] == old(out[pos + copylen..])
      {
        out[pos + t * 2], out[pos + t * 2 + 1] := pixel[0], pixel[1];
        t := t + 1;
      }
    }
  }

  /** Copies bytes `o` to `o + n` of a block, whose first byte is `s[0]`. */
  method PutPart(out: array<byte>, pos: nat, s: seq<byte>, ps: PixelSize, o: nat, n: nat)
    requires s != [] && 1 + Body(s[0], ps) <= |s|
    requires Aligned(o, ps) && Aligned(n, ps) && o + n <= Size(s[0], ps) && pos + n <= out.Length
    modifies out
    ensures out[pos..pos + n] == Block(s, ps)[o..o + n]
    ensures out[..pos] == old(out[..pos]) && out[pos + n..] == old(out[pos + n..])
  {
    if s[0] >= 128 {
      FillRun(out, pos, s[1..1 + ps], n);
      RunPart(out[pos..pos + n], s[1..1 + ps], s[0] % 128, o, n);
    } else {
      forall k | 0 <= k < n {
        out[pos + k] := s[1 + o + k];
      }
      SliceSlice(s, 1, 1 + Size(s[0], ps), o, o + n);
      assert out[pos..pos + n] == s[1 + o..1 + o + n];
    }
  }

  lemma {:induction false} RunPart(part: seq<byte>, pixel: seq<byte>, count: nat, o: nat, n: nat)
    requires |pixel| in {1, 2} && Aligned(o, |pixel|) && o + n <= Times(count, |pixel|) && |part| == n
    requires forall k :: 0 <= k < n ==> part[k] == PixelByte(pixel, k)
    ensures part == Repeat(pixel, count)[o..o + n]
  {
    forall k | 0 <= k < n ensures part[k] == Repeat(pixel, count)[o..o + n][k] {
      RepeatAt(pixel, count, o + k);
    }
  }

  lemma {:induction false} SliceSlice(s: seq<byte>, a: nat, b: nat, c: nat, d: nat)
    requires a <= b <= |s| && c <= d <= b - a
    ensures s[a..b][c..d] == s[a + c..a + d]
  {
    forall i | 0 <= i < d - c ensures s[a..b][c..d][i] == s[a + c..a + d][i] {
      assert s[a..b][c + i] == s[a + c + i];
    }
  }

  /** How much of the window is filled once `dec` bytes are decoded. */
  function Filled(dec: nat, offset: nat, len: nat): nat {
    if dec <= offset then 0 else if dec - offset < len then dec - offset else len
  }

  /** The output holds the window as far as `dec` decoded bytes fill it. */
  ghost predicate Holds(out: array<byte>, full: seq<byte>, dec: nat, offset: nat, len: nat)
    reads out
  {
    var pos := Filled(dec, offset, len);
    len <= out.Length && (pos > 0 ==> offset + pos <= |full| && out[..pos] == full[offset..offset + pos])
  }

  /** Bytes `o` to `o + n` of a block continue the window. */
  method ExtendWindow(out: array<byte>, ghost full: seq<byte>, s: seq<byte>, ps: PixelSize, ghost dec: nat,
                      ghost offset: nat,
                      pos: nat, o: nat, n: nat)
    requires s != [] && 1 + Body(s[0], ps) <= |s|
    requires Aligned(o, ps) && Aligned(n, ps) && o + n <= Size(s[0], ps) && pos + n <= out.Length
    requires dec + Size(s[0], ps) <= |full| && full[dec..dec + Size(s[0], ps)] == Block(s, ps)
    requires dec + o == offset + pos && out[..pos] == full[offset..offset + pos]
    modifies out
    ensures out[..pos + n] == full[offset..offset + pos + n] && out[pos + n..] == old(out[pos + n..])
  {
    PutPart(out, pos, s, ps, o, n);
    SliceSlice(full, dec, dec + Size(s[0], ps), o, o + n);
    Joined(out[..], full, offset, pos, n);
  }

  lemma {:induction false} Joined(out: seq<byte>, full: seq<byte>, offset: nat, pos: nat, n: nat)
    requires pos + n <= |out| && offset + pos + n <= |full|
    requires out[..pos] == full[offset..offset + pos] && out[pos..pos + n] == full[offset + pos..offset + pos + n]
    ensures out[..pos + n] == full[offset..offset + pos + n]
  {
    assert out[..pos + n] == out[..pos] + out[pos..pos + n];
  }

  /** One block: the part of it in the window is copied, whichever edge of the window it straddles. */
  method TakeBlock(out: array<byte>, ghost full: seq<byte>, s: seq<byte>, ps: PixelSize, dec: nat, offset: nat,
                   len: nat, pos0: nat)
    returns (pos: nat)
    requires s != [] && 1 + Body(s[0], ps) <= |s|
    requires Aligned(dec, ps) && Aligned(offset, ps) && Aligned(len, ps)
    requires dec + Size(s[0], ps) <= |full| && full[dec..dec + Size(s[0], ps)] == Block(s, ps)
    requires pos0 == Filled(dec, offset, len) && Holds(out, full, dec, offset, len)
    modifies out
    ensures pos == Filled(dec + Size(s[0], ps), offset, len)
    ensures Holds(out, full, dec + Size(s[0], ps), offset, len)
    ensures out[len..] == old(out[len..])
  {
    if dec < offset {
      pos := TakeFirst(out, full, s, ps, dec, offset, len);
    } else {
      pos := TakeNext(out, full, s, ps, dec, offset, len, pos0);
    }
  }

  /** A block that starts below the window. */
  method TakeFirst(out: array<byte>, ghost full: seq<byte>, s: seq<byte>, ps: PixelSize, dec: nat, offset: nat,
                   len: nat)
    returns (pos: nat)
    requires s != [] && 1 + Body(s[0], ps) <= |s| && dec < offset && len <= out.Length
    requires Aligned(dec, ps) && Aligned(offset, ps) && Aligned(len, ps)
    requires dec + Size(s[0], ps) <= |full| && full[dec..dec + Size(s[0], ps)] == Block(s, ps)
    modifies out
    ensures pos == Filled(dec + Size(s[0], ps), offset, len)
    ensures Holds(out, full, dec + Size(s[0], ps), offset, len)
    ensures out[len..] == old(out[len..])
  {
    var size := Size(s[0], ps);
    pos := 0;
    if dec + size >= offset {
      var copylen := if dec + size - offset > len - pos then len - pos else dec + size - offset;
      assert out[..0] == full[offset..offset + 0];
      ghost var was := out[..];
      ExtendWindow(out, full, s, ps, dec, offset, pos, offset - dec, copylen);
      SameFrom(out[..], was, copylen, len);
      pos := pos + copylen;
    }
  }

  /** A block that starts in the window or behind it. */
  method TakeNext(out: array<byte>, ghost full: seq<byte>, s: seq<byte>, ps: PixelSize, dec: nat, offset: nat,
                  len: nat, pos0: nat)
    returns (pos: nat)
    requires s != [] && 1 + Body(s[0], ps) <= |s| && offset <= dec
    requires Aligned(dec, ps) && Aligned(offset, ps) && Aligned(len, ps)
    requires dec + Size(s[0], ps) <= |full| && full[dec..dec + Size(s[0], ps)] == Block(s, ps)
    requires pos0 == Filled(dec, offset, len) && Holds(out, full, dec, offset, len)
    modifies out
    ensures pos == Filled(dec + Size(s[0], ps), offset, len)
    ensures Holds(out, full, dec + Size(s[0], ps), offset, len)
    ensures out[len..] == old(out[len..])
  {
    var size := Size(s[0], ps);
    pos := pos0;
    var copylen := if size > len - pos then len - pos else size;
    if copylen > 0 {
      assert pos == 0 ==> out[..pos] == full[offset..offset + pos];
      ghost var was := out[..];
      ExtendWindow(out, full, s, ps, dec, offset, pos, 0, copylen);
      SameFrom(out[..], was, pos + copylen, len);
      pos := pos + copylen;
    }
  }

  lemma {:induction false} SameFrom(a: seq<byte>, b: seq<byte>, m: nat, n: nat)
    requires |a| == |b| && m <= n <= |a| && a[m..] == b[m..]
    ensures a[n..] == b[n..]
  {
    assert a[n..] == a[m..][n - m..] && b[n..] == b[m..][n - m..];
  }

  /** The blocks up to the one that reaches `need` bytes fit the size limit; there must be such a block. */
  predicate Covered(s: seq<byte>, ps: PixelSize, need: nat, limit: int)
    requires WellFormed(s, ps)
  {
    var r := Reach(s, ps, need, 0);
    r.Some? && r.value <= limit
  }

  /** With room for everything, that is every window inside the decoded stream. */
  lemma {:induction false} CoveredIffInside(s: seq<byte>, ps: PixelSize, need: nat)
    requires WellFormed(s, ps) && need > 0
    ensures Covered(s, ps, need, |Decoded(s, ps)|) <==> need <= |Decoded(s, ps)|
  {
    ReachExists(s, ps, need, 0);
    ReachBounded(s, ps, need, 0);
  }

  lemma {:induction false} ReachBounded(s: seq<byte>, ps: PixelSize, need: nat, dec: nat)
    requires WellFormed(s, ps)
    ensures Reach(s, ps, need, dec).Some? ==> Reach(s, ps, need, dec).value <= dec + |Decoded(s, ps)|
    decreases |s|
  {
    if s != [] {
      ReachBounded(s[1 + Body(s[0], ps)..], ps, need, dec + Size(s[0], ps));
    }
  }

  /** A stream without blocks, or one that fits the size limit as a whole. */
  predicate AllFit(s: seq<byte>, ps: PixelSize, limit: int)
    requires WellFormed(s, ps)
  {
    s == [] || |Decoded(s, ps)| <= limit
  }

  /**
    What `Rle_Decode` returns: where the block starts in which the window ends.
    A window of no bytes that ends in no block is never complete, and the
    number of all bytes is returned.
   */
  function Returned(s: seq<byte>, ps: PixelSize, limit: int, need: nat, len: nat): int
    requires WellFormed(s, ps)
  {
    if need > 0 && Reach(s, ps, need, 0).Some? then
      if Reach(s, ps, need, 0).value <= limit then Start(s, ps, need, 0) else -1
    else if len == 0 && AllFit(s, ps, limit) then |Decoded(s, ps)|
    else -1
  }

  /**
    `Rle_Decode`: it succeeds exactly when the window lies in the decoded
    stream and the size limit covers the blocks up to the window's end, and
    then the output is that window.  The read pointer is the stream from there.
   */
  method RleDecode(inbuf: seq<byte>, out: array<byte>, limit: int, offset: nat, len: nat, ps: PixelSize)
    returns (ret: int)
    requires WellFormed(inbuf, ps)
    requires Aligned(offset, ps) && Aligned(len, ps) && len <= out.Length
    modifies out
    ensures out[len..] == old(out[len..])
    ensures ret == Returned(inbuf, ps, limit, offset + len, len)
    ensures len > 0 ==> (ret >= 0 <==> Covered(inbuf, ps, offset + len, limit))
    ensures len > 0 && ret >= 0 ==> offset + len <= |Decoded(inbuf, ps)|
    ensures len > 0 && ret >= 0 ==> out[..len] == Decoded(inbuf, ps)[offset..offset + len]
  {
    var src, dec: nat, pos: nat := inbuf, 0, 0;
    ghost var full, target := Decoded(inbuf, ps), Reach(inbuf, ps, offset + len, 0);
    ghost var start0 := Start(inbuf, ps, offset + len, 0);
    assert full[0..] == full;
    while src != []
      invariant Running(out, full, target, start0, src, ps, dec, offset, len, pos)
      invariant out[len..] == old(out[len..]) && (src == inbuf || dec <= limit)
      decreases |src|
    {
      var turn;
      var start := dec;
      src, dec, pos, turn := Turn(out, full, target, start0, src, ps, limit, dec, offset, len, pos);
      if turn.Over? {
        return -1;
      }
      if turn.Complete? {
        return start;
      }
    }
    ret := if pos != len then -1 else dec;
  }

  /** The state of the loop; `target` and `start` are where the block that completes the window ends and starts. */
  ghost predicate Running(out: array<byte>, full: seq<byte>, target: Option<nat>, start: nat, src: seq<byte>,
                          ps: PixelSize, dec: nat, offset: nat, len: nat, pos: nat)
    reads out
  {
    && Decoding(src, ps, full, dec) && Progress(out, full, dec, offset, len, pos)
    && (offset + len > 0 ==>
          && dec < offset + len
          && target == Reach(src, ps, offset + len, dec) && start == Start(src, ps, offset + len, dec))
  }

  /** How a turn of the loop ends: over the size limit, with the window complete, or going on. */
  datatype Turned = Over | Complete | Further

  method Turn(out: array<byte>, ghost full: seq<byte>, ghost target: Option<nat>, ghost start: nat, src: seq<byte>,
              ps: PixelSize, limit: int, dec: nat, offset: nat, len: nat, pos0: nat)
    returns (next: seq<byte>, size: nat, pos: nat, turn: Turned)
    requires src != [] && Aligned(offset, ps) && Aligned(len, ps)
    requires Running(out, full, target, start, src, ps, dec, offset, len, pos0)
    modifies out
    ensures out[len..] == old(out[len..]) && |next| < |src|
    ensures turn.Over? ==> |full| > limit && (offset + len > 0 && target.Some? ==> target.value > limit)
    ensures turn.Complete? ==> offset + len > 0 && target.Some? && target.value <= limit && start == dec
    ensures turn.Complete? && len > 0 ==> offset + len <= |full| && out[..len] == full[offset..offset + len]
    ensures turn.Further? ==> Running(out, full, target, start, next, ps, size, offset, len, pos) && size <= limit
  {
    pos := pos0;
    NextBlock(src, ps, full, dec);
    next, size := src[1 + Body(src[0], ps)..], dec + Size(src[0], ps);
    ReachStep(src, next, ps, offset + len, dec);
    hide Decoded, Block, Reach, Start, WellFormed;
    if size > limit {
      turn := Over;
    } else {
      pos := TakeBlock(out, full, src, ps, dec, offset, len, pos0);
      var complete := pos == len && (len > 0 || (dec < offset && size >= offset));
      turn := if complete then Complete else Further;
    }
  }

  ghost predicate Progress(out: array<byte>, full: seq<byte>, dec: nat, offset: nat, len: nat, pos: nat)
    reads out
  {
    pos == Filled(dec, offset, len) && (pos < len || len == 0) && Holds(out, full, dec, offset, len)
  }

  /** `dec` bytes are decoded, and the rest of the output is in the rest of the stream. */
  ghost predicate Decoding(rest: seq<byte>, ps: PixelSize, full: seq<byte>, dec: nat) {
    WellFormed(rest, ps) && Aligned(dec, ps) && dec <= |full| && full[dec..] == Decoded(rest, ps)
  }

  lemma {:induction false} ReachStep(s: seq<byte>, next: seq<byte>, ps: PixelSize, need: nat, dec: nat)
    requires s != [] && WellFormed(s, ps) && next == s[1 + Body(s[0], ps)..]
    ensures var size := dec + Size(s[0], ps);
            if size >= need then Reach(s, ps, need, dec) == Some(size) && Start(s, ps, need, dec) == dec
            else
              && Reach(s, ps, need, dec) == Reach(next, ps, need, size)
              && Start(s, ps, need, dec) == Start(next, ps, need, size)
    ensures Reach(s, ps, need, dec).Some? ==> Reach(s, ps, need, dec).value >= dec + Size(s[0], ps)
  {
    ReachBeyond(s, ps, need, dec);
  }

  lemma {:induction false} NextBlock(s: seq<byte>, ps: PixelSize, full: seq<byte>, dec: nat)
    requires s != [] && Decoding(s, ps, full, dec)
    ensures 1 + Body(s[0], ps) <= |s| && dec + Size(s[0], ps) <= |full|
    ensures full[dec..dec + Size(s[0], ps)] == Block(s, ps)
    ensures Decoding(s[1 + Body(s[0], ps)..], ps, full, dec + Size(s[0], ps))
  {
    TailSplit(full, dec, Block(s, ps), Decoded(s[1 + Body(s[0], ps)..], ps));
  }

  lemma {:induction false} TailSplit(full: seq<byte>, dec: nat, a: seq<byte>, b: seq<byte>)
    requires dec <= |full| && full[dec..] == a + b
    ensures dec + |a| <= |full| && full[dec..dec + |a|] == a && full[dec + |a|..] == b
  {
    assert |full| - dec == |a| + |b|;
    assert full[dec..dec + |a|] == full[dec..][..|a|];
    assert full[dec + |a|..] == full[dec..][|a|..];
  }

  /** What is reached later is no less than the end of the next block. */
  lemma {:induction false} ReachBeyond(s: seq<byte>, ps: PixelSize, need: nat, dec: nat)
    requires WellFormed(s, ps) && s != []
    ensures Reach(s, ps, need, dec).Some? ==> Reach(s, ps, need, dec).value >= dec + Size(s[0], ps)
    decreases |s|
  {
    var rest := s[1 + Body(s[0], ps)..];
    if dec + Size(s[0], ps) < need && rest != [] {
      ReachBeyond(rest, ps, need, dec + Size(s[0], ps));
    }
  }
}
