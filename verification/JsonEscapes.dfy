/**
  String literals as section 7 of RFC 8259 builds them, and what they denote
  in the UTF-8 of section 3 of RFC 3629.
 */
module JsonEscapes {
  import opened JsonText
  import opened JsonGrammar
  import opened Options

  // ----- four hexadecimal digits -----

  type code16 = u: int | 0 <= u < 0x1_0000

  /** `0123456789abcdef` and `0123456789ABCDEF`: a digit's value is its place. */
  const LOWER: CStr := [48, 49, 50, 51, 52, 53, 54, 55, 56, 57, 97, 98, 99, 100, 101, 102]
  const UPPER: CStr := [48, 49, 50, 51, 52, 53, 54, 55, 56, 57, 65, 66, 67, 68, 69, 70]

  function Digit(v: nat, upper: bool): cbyte
    requires v < 16
  {
    if upper then UPPER[v] else LOWER[v]
  }

  /** Which of four digits are written in upper case. */
  datatype Cases = Cases(a: bool, b: bool, c: bool, d: bool)

  function FourDigits(u: code16, k: Cases): (digits: CStr)
    ensures |digits| == 4
  {
    [Digit(u / 4096, k.a), Digit(u / 256 % 16, k.b), Digit(u / 16 % 16, k.c), Digit(u % 16, k.d)]
  }

  /** Every digit is worth its place in either case, and nothing else is a digit. */
  lemma {:induction false} HexDigitReads(v: nat, upper: bool)
    requires v < 16
    ensures HexValue(Digit(v, upper)) == Some(v) && Digit(v, upper) != QUOTE && Digit(v, upper) != BACKSLASH
  {}

  lemma {:induction false} DigitOf(b: byte) returns (upper: bool)
    requires HexValue(b).Some?
    ensures b == Digit(HexValue(b).value, upper)
  {
    upper := b < 97;
  }

  /** The digits of a number, and the number of some digits. */
  lemma {:induction false} Nibbles(u: nat, a: nat, b: nat, c: nat, d: nat)
    requires a < 16 && b < 16 && c < 16 && d < 16
    ensures u == ((a * 16 + b) * 16 + c) * 16 + d
       <==> u / 4096 == a && u / 256 % 16 == b && u / 16 % 16 == c && u % 16 == d
  {
    assert u / 16 / 16 == u / 256 && u / 256 / 16 == u / 4096;
  }

  /** The four digits of any number, in any case, are read as that number. */
  lemma {:induction false} Hex4Reads(u: code16, k: Cases, more: CStr)
    ensures Hex4(FourDigits(u, k) + more) == Some(u as nat) && (FourDigits(u, k) + more)[4..] == more
  {
    HexDigitReads(u / 4096, k.a);
    HexDigitReads(u / 256 % 16, k.b);
    HexDigitReads(u / 16 % 16, k.c);
    HexDigitReads(u % 16, k.d);
    Nibbles(u, u / 4096, u / 256 % 16, u / 16 % 16, u % 16);
    hide Digit, HexValue;
  }

  /** Whatever is read as a number are its four digits. */
  lemma {:induction false} Hex4Of(s: CStr) returns (u: code16, k: Cases)
    requires Hex4(s).Some?
    ensures Hex4(s).value == u && s == FourDigits(u, k) + s[4..]
  {
    var a, b, c, d := HexValue(s[0]), HexValue(s[1]), HexValue(s[2]), HexValue(s[3]);
    u := Hex4(s).value;
    Nibbles(u, a.value, b.value, c.value, d.value);
    var ka := DigitOf(s[0]);
    var kb := DigitOf(s[1]);
    var kc := DigitOf(s[2]);
    var kd := DigitOf(s[3]);
    k := Cases(ka, kb, kc, kd);
    hide Digit, HexValue;
    assert s == [s[0], s[1], s[2], s[3]] + s[4..];
  }

  // ----- pieces -----

  /** A piece of a literal: a plain byte, `\c`, `\uXXXX`, or two of these that form a surrogate pair. */
  datatype Piece =
    | Plain(b: cbyte)
    | Simple(c: cbyte)
    | Code(u: code16, k: Cases)
    | Pair(high: code16, low: code16, highCases: Cases, lowCases: Cases)

  predicate IsHigh(u: code16) {
    0xD800 <= u < 0xDC00
  }

  predicate IsLow(u: code16) {
    0xDC00 <= u < 0xE000
  }

  predicate WellFormed(p: Piece) {
    match p
    case Plain(b) => b != QUOTE && b != BACKSLASH
    case Simple(c) => c in {QUOTE, BACKSLASH, SLASH, 98, 102, 110, 114, 116}
    case Code(u, _) => u != 0 && !IsHigh(u) && !IsLow(u)
    case Pair(high, low, _, _) => IsHigh(high) && IsLow(low)
  }

  function Source(p: Piece): CStr {
    match p
    case Plain(b) => [b]
    case Simple(c) => [BACKSLASH, c]
    case Code(u, k) => [BACKSLASH, 117] + FourDigits(u, k)
    case Pair(high, low, h, l) => [BACKSLASH, 117] + FourDigits(high, h) + [BACKSLASH, 117] + FourDigits(low, l)
  }

  /** The scalar value a `\u` piece denotes. */
  function Scalar(p: Piece): (u: nat)
    requires WellFormed(p) && (p.Code? || p.Pair?)
    ensures 0 < u < 0x110000 && !(0xD800 <= u < 0xE000)
  {
    if p.Code? then p.u else Combine(p.high, p.low)
  }

  /** The surrogates of UTF-16 for a code point beyond the basic plane, ten bits each, are read as that code point. */
  lemma {:induction false} SurrogatesJoin(u: nat, h: Cases, l: Cases)
    requires 0x1_0000 <= u < 0x11_0000
    ensures var high, low := 0xD800 + (u - 0x1_0000) / 0x400, 0xDC00 + (u - 0x1_0000) % 0x400;
            high < 0xDC00 && low < 0xE000 && Scalar(Pair(high, low, h, l)) == u
  {}

  function Meaning(p: Piece): CStr
    requires WellFormed(p)
  {
    match p
    case Plain(b) => [b]
    case Simple(98) => [8]
    case Simple(102) => [12]
    case Simple(110) => [10]
    case Simple(114) => [13]
    case Simple(116) => [9]
    case Simple(c) => [c]
    case _ => Utf8(Scalar(p))
  }

  predicate AllWellFormed(ps: seq<Piece>) {
    forall i :: 0 <= i < |ps| ==> WellFormed(ps[i])
  }

  function SourceAll(ps: seq<Piece>): CStr {
    if ps == [] then [] else Source(ps[0]) + SourceAll(ps[1..])
  }

  function MeaningAll(ps: seq<Piece>): CStr
    requires AllWellFormed(ps)
  {
    if ps == [] then [] else Meaning(ps[0]) + MeaningAll(ps[1..])
  }

  lemma {:induction false} CodeReads(u: code16, k: Cases, more: CStr)
    requires WellFormed(Code(u, k))
    ensures UnicodeEscape(FourDigits(u, k) + more) == Some((Meaning(Code(u, k)), 4))
  {
    Hex4Reads(u, k, more);
    hide Hex4, FourDigits;
  }

  /** The text of two `\u` escapes after the first `u`. */
  function TwoCodes(p: Piece, more: CStr): CStr
    requires p.Pair?
  {
    FourDigits(p.high, p.highCases) + ([BACKSLASH, 117] + (FourDigits(p.low, p.lowCases) + more))
  }

  lemma {:induction false} TwoCodesRead(p: Piece, more: CStr)
    requires p.Pair?
    ensures var s := TwoCodes(p, more);
            && |s| >= 10 && s[4] == BACKSLASH && s[5] == 117 && s[10..] == more
            && Hex4(s) == Some(p.high as nat) && Hex4(s[6..]) == Some(p.low as nat)
  {
    var s, next := TwoCodes(p, more), FourDigits(p.low, p.lowCases) + more;
    Hex4Reads(p.high, p.highCases, [BACKSLASH, 117] + next);
    Hex4Reads(p.low, p.lowCases, more);
    hide Hex4, FourDigits;
    assert s[6..] == next && s[10..] == next[4..];
  }

  lemma {:induction false} PairReads(p: Piece, more: CStr)
    requires WellFormed(p) && p.Pair?
    ensures UnicodeEscape(TwoCodes(p, more)) == Some((Meaning(p), 10))
  {
    TwoCodesRead(p, more);
    hide Hex4, TwoCodes;
    PairEscape(TwoCodes(p, more), p.high, p.low);
  }

  lemma {:induction false} PairEscape(s: CStr, high: nat, low: nat)
    requires |s| >= 6 && s[4] == BACKSLASH && s[5] == 117
    requires Hex4(s) == Some(high) && Hex4(s[6..]) == Some(low)
    requires 0xD800 <= high < 0xDC00 && 0xDC00 <= low < 0xE000
    ensures UnicodeEscape(s) == Some((Utf8(Combine(high, low)), 10))
  {}

  lemma {:induction false} CodePieceReads(u: code16, k: Cases, more: CStr)
    requires WellFormed(Code(u, k))
    ensures Unescape(Source(Code(u, k)) + more) == Prefix(Meaning(Code(u, k)), Unescape(more))
  {
    var s := Source(Code(u, k)) + more;
    assert s[1..][1..] == FourDigits(u, k) + more;
    CodeReads(u, k, more);
    assert s[1..][0] == 117 && s[6..] == more;
  }

  lemma {:induction false} PairSource(p: Piece, more: CStr)
    requires p.Pair?
    ensures var s := Source(p) + more;
            |s| >= 12 && s[0] == BACKSLASH && s[1..][0] == 117 && s[1..][1..] == TwoCodes(p, more) && s[12..] == more
  {
    hide FourDigits;
    var s := Source(p) + more;
    assert s == [BACKSLASH, 117] + TwoCodes(p, more);
  }

  lemma {:induction false} PairPieceReads(p: Piece, more: CStr)
    requires WellFormed(p) && p.Pair?
    ensures Unescape(Source(p) + more) == Prefix(Meaning(p), Unescape(more))
  {
    PairSource(p, more);
    PairReads(p, more);
    hide UnicodeEscape, Source, TwoCodes, Meaning;
  }

  /** One piece is read as its meaning, whatever follows. */
  lemma {:induction false} PieceReads(p: Piece, more: CStr)
    requires WellFormed(p)
    ensures Unescape(Source(p) + more) == Prefix(Meaning(p), Unescape(more))
  {
    var s := Source(p) + more;
    match p
    case Plain(b) => assert s[1..] == more;
    case Simple(c) => assert s[1..][0] == c && s[2..] == more;
    case Code(u, k) => CodePieceReads(u, k, more);
    case Pair(_, _, _, _) => PairPieceReads(p, more);
  }

  lemma {:induction false} PiecesRead(ps: seq<Piece>, post: CStr)
    requires AllWellFormed(ps)
    ensures Unescape(SourceAll(ps) + ([QUOTE] + post)) == Ok(MeaningAll(ps), post)
  {
    if ps == [] {
      assert SourceAll(ps) + ([QUOTE] + post) == [QUOTE] + post;
      assert ([QUOTE] + post)[1..] == post;
    } else {
      var more := SourceAll(ps[1..]) + ([QUOTE] + post);
      assert SourceAll(ps) + ([QUOTE] + post) == Source(ps[0]) + more;
      PieceReads(ps[0], more);
      PiecesRead(ps[1..], post);
    }
  }

  /** Every well-formed literal is read as the UTF-8 text it denotes, up to its closing quote. */
  lemma {:induction false} LiteralReads(ps: seq<Piece>, post: CStr)
    requires AllWellFormed(ps)
    ensures StringLiteral([QUOTE] + SourceAll(ps) + [QUOTE] + post) == Ok(MeaningAll(ps), post)
  {
    PiecesRead(ps, post);
    QuotedRest(SourceAll(ps), post);
    hide Unescape, SourceAll, MeaningAll, AllWellFormed;
  }

  lemma {:induction false} QuotedRest(body: CStr, post: CStr)
    ensures var s := [QUOTE] + body + [QUOTE] + post;
            s[0] == QUOTE && s[1..] == body + ([QUOTE] + post)
  {}

  // ----- the pieces the code prints -----

  lemma {:induction false} PrintedDigit(v: nat)
    requires v < 16
    ensures LowerHex(v) == Digit(v, false)
  {}

  lemma {:induction false} PrintedCode(b: cbyte) returns (p: Piece)
    requires b < 32
    ensures p == Code(b, Cases(false, false, false, false)) && WellFormed(p) && Meaning(p) == [b]
    ensures Source(p) == [BACKSLASH, 117, 48, 48, LowerHex(b / 16), LowerHex(b % 16)]
  {
    p := Code(b, Cases(false, false, false, false));
    PrintedDigit(b / 16);
    PrintedDigit(b % 16);
    assert FourDigits(b, p.k) == [48, 48, Digit(b / 16, false), Digit(b % 16, false)];
    hide Digit, LowerHex;
  }

  /** `\c` means this byte. */
  predicate Stands(c: cbyte, b: cbyte) {
    WellFormed(Simple(c)) && Meaning(Simple(c)) == [b]
  }

  /** Only these bytes have a short escape. */
  lemma {:induction false} ShortEscapes(b: cbyte)
    requires b != SLASH
    ensures (exists c: cbyte :: Stands(c, b)) <==> b in {8, 9, 10, 12, 13, QUOTE, BACKSLASH}
  {
    if b in {8, 9, 10, 12, 13, QUOTE, BACKSLASH} {
      var c: cbyte := if b == 8 then 98 else if b == 9 then 116 else if b == 10 then 110
                      else if b == 12 then 102 else if b == 13 then 114 else b;
      assert Stands(c, b);
    }
  }

  /**
    A byte is printed as itself unless it is a quote, a backslash or a control
    byte; then with its short escape if it has one, and else with `\u` and four
    digits in lower case.
   */
  lemma {:induction false} PrintedPiece(b: cbyte) returns (p: Piece)
    ensures WellFormed(p) && Source(p) == Escaped(b) && Meaning(p) == [b]
    ensures p.Plain? <==> b >= 32 && b != QUOTE && b != BACKSLASH
    ensures !p.Plain? ==> if exists c: cbyte :: Stands(c, b) then p.Simple? else p.Code?
    ensures p.Code? ==> p.k == Cases(false, false, false, false)
  {
    if b >= 32 && b != QUOTE && b != BACKSLASH {
      p := Plain(b);
    } else {
      ShortEscapes(b);
      if b in {8, 9, 10, 12, 13, QUOTE, BACKSLASH} {
        p := Simple(if b == 8 then 98 else if b == 9 then 116 else if b == 10 then 110
                    else if b == 12 then 102 else if b == 13 then 114 else b);
      } else {
        p := PrintedCode(b);
      }
    }
  }

  // ----- the pieces the code reads -----

  /** Any byte may be escaped, any four digits may follow `\u`, and any two of them a high surrogate. */
  predicate Readable(p: Piece) {
    match p
    case Plain(b) => b != QUOTE && b != BACKSLASH
    case Simple(c) => c != 117
    case Code(_, _) => true
    case Pair(high, _, _, _) => IsHigh(high)
  }

  /** A lone high surrogate is read as one only if no `\u` follows. */
  predicate EndsAt(p: Piece, more: CStr) {
    p.Code? && IsHigh(p.u) ==> !([BACKSLASH, 117] <= more)
  }

  /** What the code makes of a piece: its meaning, or the escaped byte, or nothing for U+0000 and broken surrogates. */
  function Reading(p: Piece): CStr {
    if WellFormed(p) then Meaning(p) else if p.Simple? then [p.c] else []
  }

  function ReadingAll(ps: seq<Piece>): CStr {
    if ps == [] then [] else Reading(ps[0]) + ReadingAll(ps[1..])
  }

  /** The pieces are read one by one before `tail`. */
  predicate AllRead(ps: seq<Piece>, tail: CStr) {
    ps == [] || (Readable(ps[0]) && EndsAt(ps[0], SourceAll(ps[1..]) + tail) && AllRead(ps[1..], tail))
  }

  lemma {:induction false} WellFormedRead(ps: seq<Piece>, tail: CStr)
    requires AllWellFormed(ps)
    ensures AllRead(ps, tail) && ReadingAll(ps) == MeaningAll(ps)
  {
    if ps != [] {
      WellFormedRead(ps[1..], tail);
    }
  }

  lemma {:induction false} OddCodeReads(u: code16, k: Cases, more: CStr)
    requires !WellFormed(Code(u, k)) && EndsAt(Code(u, k), more)
    ensures UnicodeEscape(FourDigits(u, k) + more) == Some(([], 4))
  {
    var s := FourDigits(u, k) + more;
    Hex4Reads(u, k, more);
    hide Hex4, FourDigits;
    if IsHigh(u) && |more| >= 2 {
      assert s[4] == more[0] && s[5] == more[1];
      assert more[..2] == [more[0], more[1]];
    }
  }

  lemma {:induction false} OddPairReads(p: Piece, more: CStr)
    requires Readable(p) && !WellFormed(p) && p.Pair?
    ensures UnicodeEscape(TwoCodes(p, more)) == Some(([], 10))
  {
    TwoCodesRead(p, more);
    hide Hex4, TwoCodes;
  }

  lemma {:induction false} OddCodePiece(u: code16, k: Cases, more: CStr)
    requires !WellFormed(Code(u, k)) && EndsAt(Code(u, k), more)
    ensures Unescape(Source(Code(u, k)) + more) == Prefix([], Unescape(more))
  {
    var s := Source(Code(u, k)) + more;
    assert s[1..][1..] == FourDigits(u, k) + more && s[1..][0] == 117 && s[6..] == more;
    OddCodeReads(u, k, more);
    hide UnicodeEscape, Source;
  }

  lemma {:induction false} OddPairPiece(p: Piece, more: CStr)
    requires Readable(p) && !WellFormed(p) && p.Pair?
    ensures Unescape(Source(p) + more) == Prefix([], Unescape(more))
  {
    PairSource(p, more);
    OddPairReads(p, more);
    hide UnicodeEscape, Source, TwoCodes;
  }

  lemma {:induction false} OddSimplePiece(c: cbyte, more: CStr)
    requires c != 117 && !WellFormed(Simple(c))
    ensures Unescape(Source(Simple(c)) + more) == Prefix([c], Unescape(more))
  {
    var s := Source(Simple(c)) + more;
    assert s[1..][0] == c && s[2..] == more;
  }

  /** One piece is read as the code reads it. */
  lemma {:induction false} AnyPieceReads(p: Piece, more: CStr)
    requires Readable(p) && EndsAt(p, more)
    ensures Unescape(Source(p) + more) == Prefix(Reading(p), Unescape(more))
  {
    hide Unescape, Source;
    if WellFormed(p) {
      PieceReads(p, more);
    } else {
      match p
      case Simple(c) => OddSimplePiece(c, more);
      case Code(u, k) => OddCodePiece(u, k, more);
      case Pair(_, _, _, _) => OddPairPiece(p, more);
    }
  }

  /** The end of a literal: its closing quote, or the end of the text. */
  function LiteralEnd(closed: bool, post: CStr): CStr {
    if closed then [QUOTE] + post else []
  }

  lemma {:induction false} FirstPiece(ps: seq<Piece>, tail: CStr)
    requires ps != [] && AllRead(ps, tail)
    ensures SourceAll(ps) + tail == Source(ps[0]) + (SourceAll(ps[1..]) + tail) &&
            ReadingAll(ps) == Reading(ps[0]) + ReadingAll(ps[1..])
    ensures Readable(ps[0]) && EndsAt(ps[0], SourceAll(ps[1..]) + tail) && AllRead(ps[1..], tail)
  {}

  lemma {:induction false} LiteralEndReads(closed: bool, post: CStr)
    requires closed || post == []
    ensures Unescape(SourceAll([]) + LiteralEnd(closed, post)) == Ok(ReadingAll([]), post)
  {
    assert [] + LiteralEnd(closed, post) == LiteralEnd(closed, post);
    assert closed ==> LiteralEnd(closed, post)[1..] == post;
  }

  lemma {:induction false} AnyPiecesRead(ps: seq<Piece>, closed: bool, post: CStr)
    requires AllRead(ps, LiteralEnd(closed, post)) && (closed || post == [])
    ensures Unescape(SourceAll(ps) + LiteralEnd(closed, post)) == Ok(ReadingAll(ps), post)
  {
    hide *;
    if ps == [] {
      LiteralEndReads(closed, post);
    } else {
      FirstPiece(ps, LiteralEnd(closed, post));
      AnyPieceReads(ps[0], SourceAll(ps[1..]) + LiteralEnd(closed, post));
      AnyPiecesRead(ps[1..], closed, post);
      PrefixOk(Reading(ps[0]), ReadingAll(ps[1..]), post);
    }
  }

  lemma {:induction false} PrefixOk(a: CStr, b: CStr, post: CStr)
    ensures Prefix(a, Ok(b, post)) == Ok(a + b, post)
  {}

  lemma {:induction false} NoCodeFollows(s: CStr)
    requires |s| >= 4
    ensures [BACKSLASH, 117] <= s[4..] ==> |s| >= 6 && s[4] == BACKSLASH && s[5] == 117
  {
    assert |s| >= 6 ==> s[4..][0] == s[4] && s[4..][1] == s[5];
  }

  lemma {:induction false} CodeIsRead(s: CStr)
    requires UnicodeEscape(s).Some?
    ensures Hex4(s).Some?
    ensures IsHigh(Hex4(s).value) && |s| >= 6 && s[4] == BACKSLASH && s[5] == 117 ==> Hex4(s[6..]).Some?
  {
    hide Hex4;
  }

  /** The piece a `\u` escape that is read consists of. */
  lemma {:induction false} CodeOf(s: CStr) returns (p: Piece, more: CStr)
    requires UnicodeEscape(s).Some?
    ensures Readable(p) && EndsAt(p, more) && [BACKSLASH, 117] + s == Source(p) + more && |more| < |s|
  {
    CodeIsRead(s);
    hide UnicodeEscape, Hex4, FourDigits;
    var u, k := Hex4Of(s);
    if IsHigh(u) && |s| >= 6 && s[4] == BACKSLASH && s[5] == 117 {
      var low, l := Hex4Of(s[6..]);
      p, more := Pair(u, low, k, l), s[6..][4..];
      TwoCodesJoin(s, FourDigits(u, k), FourDigits(low, l), more);
    } else {
      p, more := Code(u, k), s[4..];
      NoCodeFollows(s);
      assert [BACKSLASH, 117] + s == Source(p) + more;
    }
  }

  lemma {:induction false} TwoCodesJoin(s: CStr, high: CStr, low: CStr, more: CStr)
    requires |high| == 4 && |s| >= 6 && s == high + s[4..] && s[4] == BACKSLASH && s[5] == 117 && s[6..] == low + more
    ensures [BACKSLASH, 117] + s == [BACKSLASH, 117] + high + [BACKSLASH, 117] + low + more
  {
    assert s[4..] == [s[4], s[5]] + s[6..];
  }

  lemma {:induction false} EscapeIsRead(s: CStr)
    requires Unescape(s).Ok? && s != [] && s[0] == BACKSLASH
    ensures |s| >= 2 && (s[1] == 117 ==> UnicodeEscape(s[2..]).Some?)
  {
    assert s[1..] != [] && s[1..][0] == s[1] && s[1..][1..] == s[2..];
  }

  /** The first piece of a literal that is read. */
  lemma {:induction false} PieceOf(s: CStr) returns (p: Piece, more: CStr)
    requires Unescape(s).Ok? && s != [] && s[0] != QUOTE
    ensures Readable(p) && EndsAt(p, more) && s == Source(p) + more && |more| < |s|
  {
    if s[0] != BACKSLASH {
      p, more := Plain(s[0]), s[1..];
    } else {
      EscapeIsRead(s);
      hide Unescape, UnicodeEscape;
      assert s == [s[0], s[1]] + s[2..];
      if s[1] != 117 {
        p, more := Simple(s[1]), s[2..];
      } else {
        hide Readable, EndsAt, Source;
        p, more := CodeOf(s[2..]);
      }
    }
  }

  lemma {:induction false} OneMorePiece(p: Piece, ps: seq<Piece>, tail: CStr)
    requires Readable(p) && EndsAt(p, SourceAll(ps) + tail) && AllRead(ps, tail)
    ensures SourceAll([p] + ps) + tail == Source(p) + (SourceAll(ps) + tail)
    ensures AllRead([p] + ps, tail) && ReadingAll([p] + ps) == Reading(p) + ReadingAll(ps)
  {
    hide Source, Reading, Readable, EndsAt;
    assert ([p] + ps)[1..] == ps && ([p] + ps)[0] == p;
    assert Source(p) + SourceAll(ps) + tail == Source(p) + (SourceAll(ps) + tail);
  }

  /** Whatever is read as a literal consists of pieces. */
  lemma {:induction false} PiecesOf(s: CStr) returns (ps: seq<Piece>, closed: bool)
    requires Unescape(s).Ok?
    ensures var (value, post) := (Unescape(s).value, Unescape(s).rest);
            && s == SourceAll(ps) + LiteralEnd(closed, post) && AllRead(ps, LiteralEnd(closed, post))
            && (closed || post == []) && value == ReadingAll(ps)
    decreases |s|
  {
    if s == [] || s[0] == QUOTE {
      ps, closed := [], s != [];
      assert SourceAll(ps) + LiteralEnd(closed, Unescape(s).rest) == s;
    } else {
      var p, more := PieceOf(s);
      AnyPieceReads(p, more);
      ps, closed := PiecesOf(more);
      hide Unescape, AllRead, SourceAll, ReadingAll, Reading, Source;
      OneMorePiece(p, ps, LiteralEnd(closed, Unescape(s).rest));
      ps := [p] + ps;
    }
  }
}
