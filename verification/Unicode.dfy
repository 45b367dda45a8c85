/**
  The UTF-8 of section 3 of RFC 3629: an encoder, and a decoder that shows
  what the bytes denote.
 */
module Unicode {

  type byte = b: int | 0 <= b < 256

  /** The bytes of a number; they are UTF-8 if it is a code point that is no surrogate. */
  function Encode(u: nat): (r: seq<byte>)
    requires u < 0x110000
    ensures 1 <= |r| <= 4
    ensures u > 0 ==> forall i :: 0 <= i < |r| ==> r[i] > 0
  {
    if u < 0x80 then [u]
    else if u < 0x800 then [0xC0 + u / 64, 0x80 + u % 64]
    else if u < 0x10000 then [0xE0 + u / 4096, 0x80 + u / 64 % 64, 0x80 + u % 64]
    else [0xF0 + u / 262144, 0x80 + u / 4096 % 64, 0x80 + u / 64 % 64, 0x80 + u % 64]
  }

  predicate Continues(s: seq<byte>, n: nat) {
    n < |s| && 0x80 <= s[n] < 0xC0
  }

  /** The bits a continuation byte carries. */
  function Low6(b: byte): nat {
    b % 64
  }

  datatype Decoded = Decoded(code: nat, length: nat) | Malformed

  /** Section 3 of RFC 3629 encodes these code points and no surrogates. */
  predicate IsScalar(u: nat) {
    u < 0xD800 || 0xE000 <= u < 0x110000
  }

  /** The code point at the start of the text; overlong forms, surrogates and anything beyond U+10FFFF are malformed. */
  function Decode(s: seq<byte>): Decoded {
    if s == [] then Malformed
    else if s[0] < 0x80 then Decoded(s[0], 1)
    else if 0xC0 <= s[0] < 0xE0 && Continues(s, 1) then
      var u := s[0] % 32 * 64 + Low6(s[1]);
      if u < 0x80 then Malformed else Decoded(u, 2)
    else if 0xE0 <= s[0] < 0xF0 && Continues(s, 1) && Continues(s, 2) then
      var u := (s[0] % 16 * 64 + Low6(s[1])) * 64 + Low6(s[2]);
      if u < 0x800 || !IsScalar(u) then Malformed else Decoded(u, 3)
    else if 0xF0 <= s[0] < 0xF8 && Continues(s, 1) && Continues(s, 2) && Continues(s, 3) then
      var u := ((s[0] % 8 * 64 + Low6(s[1])) * 64 + Low6(s[2])) * 64 + Low6(s[3]);
      if u < 0x10000 || !IsScalar(u) then Malformed else Decoded(u, 4)
    else Malformed
  }

  /** The base-64 digits of a number. */
  lemma {:induction false} Sextets(u: nat, a: nat, b: nat, c: nat, d: nat)
    requires b < 64 && c < 64 && d < 64
    ensures u == ((a * 64 + b) * 64 + c) * 64 + d
       <==> u / 262144 == a && u / 4096 % 64 == b && u / 64 % 64 == c && u % 64 == d
  {
    assert u / 64 / 64 == u / 4096 && u / 4096 / 64 == u / 262144;
  }

  lemma {:induction false} TwoBytes(u: nat, post: seq<byte>)
    requires 0x80 <= u < 0x800
    ensures Decode(Encode(u) + post) == Decoded(u, 2)
  {
    var s := Encode(u) + post;
    assert s[0] == 0xC0 + u / 64 && s[1] == 0x80 + u % 64;
  }

  lemma {:induction false} ThreeBytes(u: nat, post: seq<byte>)
    requires 0x800 <= u < 0x10000 && IsScalar(u)
    ensures Decode(Encode(u) + post) == Decoded(u, 3)
  {
    var s := Encode(u) + post;
    var b, c, d := u / 4096, u / 64 % 64, u % 64;
    Sextets(u, 0, b, c, d);
    assert s[0] == 0xE0 + b && s[1] == 0x80 + c && s[2] == 0x80 + d;
    DecodeThree(s, b, c, d);
  }

  lemma {:induction false} DecodeThree(s: seq<byte>, b: nat, c: nat, d: nat)
    requires |s| >= 3 && b < 16 && c < 64 && d < 64
    requires s[0] == 0xE0 + b && s[1] == 0x80 + c && s[2] == 0x80 + d
    requires var u := (b * 64 + c) * 64 + d; 0x800 <= u && IsScalar(u)
    ensures Decode(s) == Decoded((b * 64 + c) * 64 + d, 3)
  {
    assert s[0] % 16 == b && Low6(s[1]) == c && Low6(s[2]) == d;
  }

  lemma {:induction false} FourBytes(u: nat, post: seq<byte>)
    requires 0x10000 <= u < 0x110000
    ensures Decode(Encode(u) + post) == Decoded(u, 4)
  {
    var s := Encode(u) + post;
    var a, b, c, d := u / 262144, u / 4096 % 64, u / 64 % 64, u % 64;
    Sextets(u, a, b, c, d);
    assert s[0] == 0xF0 + a && s[1] == 0x80 + b && s[2] == 0x80 + c && s[3] == 0x80 + d;
    DecodeFour(s, a, b, c, d);
  }

  lemma {:induction false} DecodeFour(s: seq<byte>, a: nat, b: nat, c: nat, d: nat)
    requires |s| >= 4 && a < 8 && b < 64 && c < 64 && d < 64
    requires s[0] == 0xF0 + a && s[1] == 0x80 + b && s[2] == 0x80 + c && s[3] == 0x80 + d
    requires 0x10000 <= ((a * 64 + b) * 64 + c) * 64 + d < 0x110000
    ensures Decode(s) == Decoded(((a * 64 + b) * 64 + c) * 64 + d, 4)
  {
    assert s[0] % 8 == a && Low6(s[1]) == b && Low6(s[2]) == c && Low6(s[3]) == d;
  }

  /** Decoding undoes encoding, whatever follows. */
  lemma {:induction false} EncodedDecodes(u: nat, post: seq<byte>)
    requires IsScalar(u)
    ensures Decode(Encode(u) + post) == Decoded(u, |Encode(u)|)
  {
    if u < 0x80 {
      assert (Encode(u) + post)[0] == u;
    } else if u < 0x800 {
      TwoBytes(u, post);
    } else if u < 0x10000 {
      ThreeBytes(u, post);
    } else {
      FourBytes(u, post);
    }
  }
}
