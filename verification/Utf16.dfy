/**
  The conversion of UTF-8 text to the pairs of bytes the text renderer reads.
 */
module Utf16 {

  import opened BitMasks
  import opened Unicode
  import opened WordBits

  type u16 = n: int | 0 <= n < 0x1_0000

  /** How many bytes the character that starts with `b` takes; 0 if none does. */
  function Width(b: byte): (n: nat)
    ensures n <= 4
  {
    if 0xF0 <= b <= 0xF7 then 4
    else if 0xE0 <= b <= 0xEF then 3
    else if 0xC0 <= b <= 0xDF then 2
    else if b <= 0x7F then 1
    else 0
  }

  /** The text starts with a whole character. */
  predicate Starts(s: seq<byte>) {
    s != [] && 0 < Width(s[0]) <= |s|
  }

  /** The unit of the first character: the bits its bytes carry, put together. */
  function Unit(s: seq<byte>): u16
    requires Starts(s)
  {
    match Width(s[0])
    case 1 => s[0]
    case 2 => s[0] % 32 * 64 + Low6(s[1])
    case 3 => s[0] % 16 * 4096 + Low6(s[1]) * 64 + Low6(s[2])
    case _ => 0xFFFF
  }

  /** The units of the characters up to the first one that is cut short or starts badly. */
  function Units(s: seq<byte>): (us: seq<u16>)
    ensures |us| <= |s|
    decreases |s|
  {
    if Starts(s) then [Unit(s)] + Units(s[Width(s[0])..]) else []
  }

  function Pair(u: u16, bigendian: bool): (p: seq<byte>)
    ensures |p| == 2
  {
    if bigendian then [u / 256, u % 256] else [u % 256, u / 256]
  }

  function Pairs(us: seq<u16>, bigendian: bool): (p: seq<byte>)
    ensures |p| == 2 * |us|
  {
    if us == [] then [] else Pair(us[0], bigendian) + Pairs(us[1..], bigendian)
  }

  /** The unit the renderer reads at byte `i`. */
  function ReadUnit(str: seq<byte>, bigendian: bool, i: nat): u16
    requires i + 1 < |str|
  {
    var low: nat, high: nat := if bigendian then str[i + 1] else str[i], if bigendian then str[i] else str[i + 1];
    low + high * 256
  }

  /** Every unit the renderer finds in the text. */
  function ReadAll(str: seq<byte>, bigendian: bool): seq<u16>
    requires |str| % 2 == 0
  {
    if str == [] then [] else [ReadUnit(str, bigendian, 0)] + ReadAll(str[2..], bigendian)
  }

  lemma {:induction false} PairsAppend(us: seq<u16>, u: u16, bigendian: bool)
    ensures Pairs(us + [u], bigendian) == Pairs(us, bigendian) + Pair(u, bigendian)
    decreases |us|
  {
    if us == [] {
      assert ([] + [u])[1..] == [];
      assert Pairs([u], bigendian) == Pair(u, bigendian) + [];
    } else {
      assert (us + [u])[1..] == us[1..] + [u];
      PairsAppend(us[1..], u, bigendian);
    }
  }

  /** Asks for what `Stored` and `Converting` say of some bytes. */
  ghost predicate Recall(s: seq<byte>) {
    true
  }

  /** The buffer holds the units `done`, and is as it was after them. */
  ghost predicate Stored(buffer: seq<byte>, was: seq<byte>, at: nat, done: seq<u16>, bigendian: bool) {
    && at == 2 * |done| && at <= |buffer| == |was|
    && forall b: seq<byte> {:trigger Recall(b)} :: Recall(b) && b == buffer ==>
         b[..at] == Pairs(done, bigendian) && b[at..] == was[at..]
  }

  lemma {:induction false} StoredNext(buffer: seq<byte>, was: seq<byte>, at: nat, done: seq<u16>, u: u16,
                                      bigendian: bool)
    requires Stored(buffer, was, at, done, bigendian) && at + 2 <= |buffer|
    ensures var p := Pair(u, bigendian);
            Stored(buffer[at := p[0]][at + 1 := p[1]], was, at + 2, done + [u], bigendian)
  {
    var p := Pair(u, bigendian);
    var next := buffer[at := p[0]][at + 1 := p[1]];
    assert Recall(buffer);
    PairsAppend(done, u, bigendian);
    assert next[..at + 2] == buffer[..at] + p;
    assert next[at + 2..] == buffer[at..][2..] && was[at..][2..] == was[at + 2..];
  }

  /** The two stores of one unit. */
  method Store(dst: array<byte>, at: nat, u: u16, bigendian: bool, ghost was: seq<byte>, ghost done: seq<u16>)
    requires at + 2 <= dst.Length && Stored(dst[..], was, at, done, bigendian)
    modifies dst
    ensures Stored(dst[..], was, at + 2, done + [u], bigendian)
  {
    StoredNext(dst[..], was, at, done, u, bigendian);
    if bigendian {
      dst[at], dst[at + 1] := u / 256, u % 256;
    } else {
      dst[at], dst[at + 1] := u % 256, u / 256;
    }
  }

  function Cut16(n: nat): u16 {
    n % 0x1_0000
  }

  lemma {:induction false} CutNext(n: nat)
    ensures Cut16(Cut16(n) + 2) == Cut16(n + 2)
  {
    var q, r := n / 0x1_0000, n % 0x1_0000;
    assert n + 2 == if r + 2 < 0x1_0000 then q * 0x1_0000 + (r + 2) else (q + 1) * 0x1_0000 + (r + 2 - 0x1_0000);
  }

  /** The loop state: `done` units are stored, those of `s[from..]` are to come. */
  ghost predicate Converting(s: seq<byte>, from: nat, done: seq<u16>) {
    && |done| <= from <= |s|
    && forall t: seq<byte> {:trigger Recall(t)} :: Recall(t) && t == s ==> Units(t) == done + Units(t[from..])
  }

  lemma {:induction false} UnitsFirst(s: seq<byte>)
    requires Starts(s)
    ensures Units(s) == [Unit(s)] + Units(s[Width(s[0])..])
  {}

  lemma {:induction false} Converted(s: seq<byte>, from: nat, done: seq<u16>, u: u16, w: nat)
    requires Converting(s, from, done) && Starts(s[from..]) && w == Width(s[from]) && u == Unit(s[from..])
    ensures Converting(s, from + w, done + [u]) && 2 * |done| + 2 <= 2 * |s|
  {
    var rest := s[from..];
    UnitsFirst(rest);
    hide Units, Unit, Width;
    assert Recall(s);
    assert rest[w..] == s[from + w..];
    assert done + ([u] + Units(rest[w..])) == done + [u] + Units(rest[w..]);
  }

  /** The masks and shifts of a character of two and of three bytes. */
  lemma {:induction false} UnitBits(a: byte, b: byte, c: byte)
    ensures Or(Shl(And(a, 0x1F), 6), And(b, 0x3F)) == a % 32 * 64 + Low6(b)
    ensures Or(Or(Shl(And(a, 0x0F), 12), Shl(And(b, 0x3F), 6)), And(c, 0x3F)) == a % 16 * 4096 + Low6(b) * 64 + Low6(c)
  {
    LowFive(a);
    LowFour(a);
    LowSix(b);
    LowSix(c);
    TwoSixes(a % 32, b % 64);
    ThreeSixes(a % 16, b % 64, c % 64);
  }

  /** The branches of the loop: the unit at `utf8` and its width, or 0 where the source stops. */
  method NextUnit(src: seq<byte>, utf8: nat) returns (u: u16, w: nat)
    requires utf8 < |src|
    ensures w == if Starts(src[utf8..]) then Width(src[utf8]) else 0
    ensures w > 0 ==> u == Unit(src[utf8..])
  {
    var left := |src| - utf8;
    var b := src[utf8];
    u, w := 0, 0;
    if 0xF0 <= b <= 0xF7 {
      if left >= 4 {
        u, w := 0xFFFF, 4;
      }
    } else if 0xE0 <= b <= 0xEF {
      if left >= 3 {
        UnitBits(b, src[utf8 + 1], src[utf8 + 2]);
        u := Or(Or(Shl(And(b, 0x0F), 12), Shl(And(src[utf8 + 1], 0x3F), 6)), And(src[utf8 + 2], 0x3F));
        w := 3;
      }
    } else if 0xC0 <= b <= 0xDF {
      if left >= 2 {
        UnitBits(b, src[utf8 + 1], 0);
        u, w := Or(Shl(And(b, 0x1F), 6), And(src[utf8 + 1], 0x3F)), 2;
      }
    } else if b <= 0x7F {
      u, w := b, 1;
    }
  }

  /** The next unit, after the units `done`. */
  method Convert(src: seq<byte>, utf8: nat, ghost done: seq<u16>) returns (u: u16, w: nat)
    requires utf8 < |src| && Converting(src, utf8, done)
    ensures w > 0 ==> Converting(src, utf8 + w, done + [u]) && 2 * |done| + 2 <= 2 * |src|
    ensures w == 0 ==> Units(src[utf8..]) == []
  {
    u, w := NextUnit(src, utf8);
    if w > 0 {
      Converted(src, utf8, done, u, w);
    } else {
      assert Units(src[utf8..]) == [];
    }
  }

  /** The state of the loop. */
  ghost predicate Running(src: seq<byte>, utf8: nat, buffer: seq<byte>, was: seq<byte>, at: nat,
                          done: seq<u16>, bigendian: bool)
  {
    Converting(src, utf8, done) && Stored(buffer, was, at, done, bigendian)
  }

  /** One turn of the loop; `more` is whether it goes on. */
  method Turn(src: seq<byte>, utf8: nat, dst: array<byte>, at: nat, bigendian: bool, ghost was: seq<byte>,
              ghost done: seq<u16>)
    returns (utf8': nat, at': nat, more: bool, ghost done': seq<u16>)
    requires utf8 < |src| && dst.Length >= 2 * |src| && Running(src, utf8, dst[..], was, at, done, bigendian)
    modifies dst
    ensures Running(src, utf8', dst[..], was, at', done', bigendian)
    ensures at' == if more then at + 2 else at
    ensures if more then utf8 < utf8' else utf8' == utf8 && Units(src[utf8'..]) == []
  {
    utf8', at', done' := utf8, at, done;
    var u, w := Convert(src, utf8, done);
    more := w > 0;
    if more {
      Store(dst, at, u, bigendian, was, done);
      utf8', at', done' := utf8 + w, at + 2, done + [u];
    }
  }

  /**
    `__utf8_to_utf16` into a buffer. Twice the length of the text is always
    enough room; the returned length is kept in 16 bits.
   */
  method Utf8ToUtf16(src: seq<byte>, bigendian: bool, dst: array<byte>) returns (utf16Len: u16)
    requires |src| < 0x1_0000 && dst.Length >= 2 * |src|
    modifies dst
    ensures dst[..2 * |Units(src)|] == Pairs(Units(src), bigendian)
    ensures dst[2 * |Units(src)|..] == old(dst[2 * |Units(src)|..])
    ensures utf16Len == 2 * |Units(src)| % 0x1_0000
  {
    var utf8: nat, at: nat, more := 0, 0, true;
    ghost var done: seq<u16>, was := [], dst[..];
    utf16Len := 0;
    assert src[0..] == src && [] + Units(src) == Units(src);
    while more && utf8 < |src|
      invariant Running(src, utf8, dst[..], was, at, done, bigendian) && utf16Len == Cut16(at)
      invariant !more ==> Units(src[utf8..]) == []
      decreases |src| - utf8, more
    {
      CutNext(at);
      utf8, at, more, done := Turn(src, utf8, dst, at, bigendian, was, done);
      if more {
        utf16Len := Cut16(utf16Len + 2);
      }
    }
    assert Recall(src) && Recall(dst[..]) && Units(src[utf8..]) == [] && done + [] == done;
    assert dst[..][..at] == dst[..at] && dst[..][at..] == dst[at..];
  }

  // ----- what the renderer sees -----

  /** A text of code points in UTF-8. */
  function EncodeAll(codes: seq<nat>): seq<byte>
    requires forall i :: 0 <= i < |codes| ==> codes[i] < 0x110000
  {
    if codes == [] then [] else Encode(codes[0]) + EncodeAll(codes[1..])
  }

  /** The unit that stands for a code point: itself in the basic plane, 0xFFFF beyond it. */
  function UnitOf(code: nat): u16 {
    if code < 0x1_0000 then code else 0xFFFF
  }

  function UnitsOf(codes: seq<nat>): (us: seq<u16>)
    ensures |us| == |codes|
  {
    seq(|codes|, i requires 0 <= i < |codes| => UnitOf(codes[i]))
  }

  lemma {:induction false} TwoByteUnit(code: nat, post: seq<byte>)
    requires 0x80 <= code < 0x800
    ensures var s := Encode(code) + post;
            Starts(s) && Width(s[0]) == 2 && Unit(s) == code
  {
    var s := Encode(code) + post;
    assert s[0] == 0xC0 + code / 64 && s[1] == 0x80 + code % 64;
  }

  lemma {:induction false} ThreeByteUnit(code: nat, post: seq<byte>)
    requires 0x800 <= code < 0x1_0000
    ensures var s := Encode(code) + post;
            Starts(s) && Width(s[0]) == 3 && Unit(s) == code
  {
    var s := Encode(code) + post;
    var b, c, d := code / 4096, code / 64 % 64, code % 64;
    Sextets(code, 0, b, c, d);
    assert s[0] == 0xE0 + b && s[1] == 0x80 + c && s[2] == 0x80 + d;
    assert s[0] as int % 16 == b && Low6(s[1]) == c && Low6(s[2]) == d;
  }

  lemma {:induction false} FourByteUnit(code: nat, post: seq<byte>)
    requires 0x1_0000 <= code < 0x110000
    ensures var s := Encode(code) + post;
            Starts(s) && Width(s[0]) == 4 && Unit(s) == 0xFFFF
  {
    var s := Encode(code) + post;
    assert s[0] == 0xF0 + code / 262144;
  }

  /** One encoded character is converted to its unit, whatever follows. */
  lemma {:induction false} EncodedUnit(code: nat, post: seq<byte>)
    requires code < 0x110000
    ensures var s := Encode(code) + post;
            Starts(s) && Width(s[0]) == |Encode(code)| && Unit(s) == UnitOf(code)
  {
    if code < 0x80 {
      assert (Encode(code) + post)[0] == code;
    } else if code < 0x800 {
      TwoByteUnit(code, post);
    } else if code < 0x1_0000 {
      ThreeByteUnit(code, post);
    } else {
      FourByteUnit(code, post);
    }
  }

  /** Nothing left, a byte that starts no character, or a character cut short. */
  predicate Broken(s: seq<byte>) {
    || s == []
    || 0x80 <= s[0] < 0xC0 || s[0] >= 0xF8
    || (s[0] >= 0xC0 && |s| < 2) || (s[0] >= 0xE0 && |s| < 3) || (s[0] >= 0xF0 && |s| < 4)
  }

  /** The conversion goes on until the text is at such a place. */
  lemma {:induction false} EndsIff(s: seq<byte>)
    ensures Units(s) == [] <==> Broken(s)
  {
    if Starts(s) {
      assert Units(s)[0] == Unit(s);
    }
  }

  lemma {:induction false} EncodedFirst(code: nat, rest: seq<byte>)
    requires code < 0x110000
    ensures Units(Encode(code) + rest) == [UnitOf(code)] + Units(rest)
  {
    var s := Encode(code) + rest;
    EncodedUnit(code, rest);
    UnitsFirst(s);
    hide Units, Unit, Width;
    assert s[|Encode(code)|..] == rest;
  }

  lemma {:induction false} CodesFirst(codes: seq<nat>, post: seq<byte>)
    requires codes != [] && forall i :: 0 <= i < |codes| ==> codes[i] < 0x110000
    ensures EncodeAll(codes) + post == Encode(codes[0]) + (EncodeAll(codes[1..]) + post)
    ensures UnitsOf(codes) == [UnitOf(codes[0])] + UnitsOf(codes[1..])
  {
    var first, rest := Encode(codes[0]), EncodeAll(codes[1..]);
    hide Encode;
    assert first + rest + post == first + (rest + post);
  }

  lemma {:induction false} Appended(us: seq<u16>, vs: seq<u16>, ws: seq<u16>)
    ensures us + (vs + ws) == us + vs + ws
  {}

  /** Well-formed text is converted to its units, whatever follows it. */
  lemma {:induction false} EncodedUnits(codes: seq<nat>, post: seq<byte>)
    requires forall i :: 0 <= i < |codes| ==> codes[i] < 0x110000
    ensures Units(EncodeAll(codes) + post) == UnitsOf(codes) + Units(post)
    decreases |codes|
  {
    hide Units, Encode, UnitOf;
    if codes == [] {
      assert EncodeAll(codes) + post == post && UnitsOf(codes) == [];
    } else {
      var rest := EncodeAll(codes[1..]) + post;
      CodesFirst(codes, post);
      EncodedFirst(codes[0], rest);
      EncodedUnits(codes[1..], post);
      Appended([UnitOf(codes[0])], UnitsOf(codes[1..]), Units(post));
    }
  }

  /** Of text that breaks off or goes on badly, just the well-formed part is converted. */
  lemma {:induction false} ConvertedUpTo(codes: seq<nat>, post: seq<byte>)
    requires forall i :: 0 <= i < |codes| ==> codes[i] < 0x110000
    ensures Units(EncodeAll(codes) + post) == UnitsOf(codes) <==> Broken(post)
  {
    EncodedUnits(codes, post);
    EndsIff(post);
  }

  lemma {:induction false} SliceOfRest<T>(s: seq<T>, m: nat, n: nat)
    requires m <= n <= |s|
    ensures s[..n][m..] == s[m..][..n - m]
  {}

  lemma {:induction false} ReadPrefix(us: seq<u16>, n: nat, bigendian: bool)
    requires n <= |us|
    ensures ReadAll(Pairs(us, bigendian)[..2 * n], bigendian) == us[..n]
    decreases n
  {
    var p := Pairs(us, bigendian);
    if n > 0 {
      assert p[0] == Pair(us[0], bigendian)[0] && p[1] == Pair(us[0], bigendian)[1];
      assert p[2..] == Pairs(us[1..], bigendian);
      ReadPrefix(us[1..], n - 1, bigendian);
      SliceOfRest(p, 2, 2 * n);
      assert us[..n] == [us[0]] + us[1..][..n - 1];
    } else {
      assert p[..0] == [];
    }
  }

  lemma {:induction false} CutLength(n: nat)
    ensures 2 * n % 0x1_0000 == 2 * (n % 0x8000) && n % 0x8000 <= n
  {}

  /** What the renderer reads from a buffer that holds the units, up to the 16-bit length. */
  lemma {:induction false} BufferReads(buffer: seq<byte>, us: seq<u16>, bigendian: bool, len: nat)
    requires 2 * |us| <= |buffer| && buffer[..2 * |us|] == Pairs(us, bigendian) && len == 2 * |us| % 0x1_0000
    ensures len <= |buffer| && len % 2 == 0 && ReadAll(buffer[..len], bigendian) == us[..|us| % 0x8000]
  {
    CutLength(|us|);
    ReadPrefix(us, |us| % 0x8000, bigendian);
    assert buffer[..len] == Pairs(us, bigendian)[..len];
  }

  /**
    What the renderer reads from the converted text: the basic-plane text
    itself, exactly when it has at most 32767 characters. A longer one comes
    back cut to its length modulo 32768.
   */
  lemma {:induction false} RendererSees(codes: seq<nat>, bigendian: bool)
    requires forall i :: 0 <= i < |codes| ==> codes[i] < 0x1_0000
    ensures var us := Units(EncodeAll(codes));
            var seen := ReadAll(Pairs(us, bigendian)[..2 * |us| % 0x1_0000], bigendian);
            seen == codes[..|codes| % 0x8000] && (seen == codes <==> |codes| <= 0x7FFF)
  {
    BasicUnits(codes);
    hide Units, EncodeAll, Pairs, ReadAll;
    var us := Units(EncodeAll(codes));
    CutLength(|us|);
    ReadPrefix(us, |us| % 0x8000, bigendian);
  }

  lemma {:induction false} BasicUnits(codes: seq<nat>)
    requires forall i :: 0 <= i < |codes| ==> codes[i] < 0x1_0000
    ensures Units(EncodeAll(codes)) == codes
  {
    EncodedUnits(codes, []);
    hide Units, Encode;
    assert EncodeAll(codes) + [] == EncodeAll(codes);
  }
}
