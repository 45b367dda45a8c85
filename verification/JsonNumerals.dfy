/**
  Integers as they are written, and what `parse_number` makes of them: it takes
  a lone minus for zero, and a zero before other digits.
 */
module JsonNumerals {
  import opened JsonText
  import opened JsonGrammar
  import opened JsonRoundTrip

  datatype Numeral = Numeral(minus: bool, zero: bool, digits: CStr)

  predicate AllDigits(s: CStr) {
    forall i :: 0 <= i < |s| ==> IsDigit(s[i])
  }

  function DigitValue(b: byte): nat
    requires IsDigit(b)
  {
    b - 48
  }

  /** The number that decimal digits denote. */
  function NumberOf(digits: CStr): nat
    requires AllDigits(digits)
  {
    if digits == [] then 0 else NumberOf(digits[..|digits| - 1]) * 10 + DigitValue(digits[|digits| - 1])
  }

  function NumeralText(m: Numeral): CStr {
    (if m.minus then [MINUS] else []) + ((if m.zero then [48] else []) + m.digits)
  }

  function NumeralValue(m: Numeral): int {
    if !AllDigits(m.digits) then 0 else if m.minus then 0 - (NumberOf(m.digits) as int) else NumberOf(m.digits)
  }

  predicate Is32(n: int) {
    -0x8000_0000 <= n < 0x8000_0000
  }

  /** An integer of section 6 of RFC 8259 that fits 32 bits. */
  predicate ProperNumeral(m: Numeral) {
    && AllDigits(m.digits) && (m.zero <==> m.digits == [])
    && (m.digits != [] ==> m.digits[0] != 48) && Is32(NumeralValue(m))
  }

  /** A numeral the code reads before `post`, and up to there. */
  predicate NumeralEnds(m: Numeral, post: CStr) {
    && AllDigits(m.digits) && (m.digits != [] ==> m.digits[0] != 48) && (m.minus || m.zero || m.digits != [])
    && Is32(NumeralValue(m)) && !FractionOrExponent(post)
    && (IsDigit(Head(post)) ==> m.digits == [] && m.zero && Head(post) == 48)
  }

  lemma {:induction false} ProperEnds(m: Numeral, post: CStr)
    requires ProperNumeral(m) && EndsNumber(post)
    ensures NumeralEnds(m, post)
  {}

  lemma {:induction false} RunReads(digits: CStr, post: CStr)
    requires AllDigits(digits)
    ensures DigitRun(digits + post, 0) == DigitRun(post, NumberOf(digits))
    decreases |digits|
  {
    if digits == [] {
      assert digits + post == post;
    } else {
      var n := |digits| - 1;
      var last: CStr := [digits[n]];
      assert digits + post == digits[..n] + (last + post);
      RunReads(digits[..n], last + post);
      assert (last + post)[1..] == post;
    }
  }

  /** A numeral without its sign. */
  function Unsigned(zero: bool, digits: CStr, post: CStr): CStr {
    if zero then [48] + (digits + post) else digits + post
  }

  lemma {:induction false} NumeralParts(m: Numeral, post: CStr)
    ensures var unsigned := Unsigned(m.zero, m.digits, post);
            && NumeralText(m) + post == (if m.minus then [MINUS] + unsigned else unsigned)
            && (m.minus ==> (NumeralText(m) + post)[1..] == unsigned) && (m.zero ==> unsigned[1..] == m.digits + post)
  {}

  lemma {:induction false} DigitsFirst(digits: CStr, post: CStr)
    ensures digits + post == (if digits == [] then post else [digits[0]] + (digits[1..] + post))
  {}

  predicate MagnitudeEnds(zero: bool, digits: CStr, post: CStr) {
    && AllDigits(digits) && (digits != [] ==> digits[0] != 48)
    && (IsDigit(Head(post)) ==> digits == [] && zero && Head(post) == 48)
  }

  lemma {:induction false} MagnitudeReads(zero: bool, digits: CStr, post: CStr)
    requires MagnitudeEnds(zero, digits, post)
    ensures Magnitude(Unsigned(zero, digits, post)) == (NumberOf(digits), post)
  {
    var s := Unsigned(zero, digits, post);
    DigitsFirst(digits, post);
    RunReads(digits, post);
    assert zero ==> s[1..] == digits + post;
    hide NumberOf;
  }

  lemma {:induction false} UnsignedStarts(zero: bool, digits: CStr, post: CStr)
    requires AllDigits(digits) && (zero || digits != [])
    ensures IsDigit(Head(Unsigned(zero, digits, post)))
  {}

  lemma {:induction false} NumeralReads(m: Numeral, post: CStr)
    requires NumeralEnds(m, post)
    ensures var s := NumeralText(m) + post;
            (Head(s) == MINUS || IsDigit(Head(s))) && NumberLiteral(s) == Ok(Number(NumeralValue(m)), post)
  {
    var unsigned := Unsigned(m.zero, m.digits, post);
    NumeralParts(m, post);
    MagnitudeReads(m.zero, m.digits, post);
    if m.zero || m.digits != [] {
      UnsignedStarts(m.zero, m.digits, post);
    }
    hide Magnitude, Unsigned, NumeralText, NumberOf, AllDigits;
    SignedReads(NumeralText(m) + post, m.minus, unsigned, NumberOf(m.digits), post);
  }

  lemma {:induction false} SignedReads(s: CStr, minus: bool, unsigned: CStr, n: nat, post: CStr)
    requires s == (if minus then [MINUS] + unsigned else unsigned) && (minus ==> s[1..] == unsigned)
    requires Magnitude(unsigned) == (n, post) && (!minus ==> IsDigit(Head(unsigned)))
    requires !FractionOrExponent(post) && Is32(if minus then 0 - (n as int) else n)
    ensures (Head(s) == MINUS || IsDigit(Head(s))) &&
            NumberLiteral(s) == Ok(Number(if minus then 0 - (n as int) else n), post)
  {
    hide Magnitude;
  }

  /** The digits of a run. */
  lemma {:induction false} DigitsOf(s: CStr, acc: nat) returns (digits: CStr)
    ensures AllDigits(digits) && s == digits + DigitRun(s, acc).1 && !IsDigit(Head(DigitRun(s, acc).1))
    ensures IsDigit(Head(s)) ==> digits != [] && digits[0] == s[0]
  {
    if IsDigit(Head(s)) {
      var more := DigitsOf(s[1..], acc * 10 + (Head(s) - 48));
      digits := [s[0]] + more;
    } else {
      digits := [];
    }
  }

  /** The number at the start of an unsigned text. */
  lemma {:induction false} UnsignedOf(s: CStr) returns (zero: bool, digits: CStr, rest: CStr)
    ensures s == Unsigned(zero, digits, rest) && AllDigits(digits)
    ensures zero == (Head(s) == 48) && (digits != [] ==> digits[0] != 48)
    ensures Magnitude(s) == (NumberOf(digits), rest) && MagnitudeEnds(zero, digits, rest)
    ensures IsDigit(Head(s)) ==> zero || digits != []
  {
    zero := Head(s) == 48;
    var significant := if zero then s[1..] else s;
    digits, rest := [], significant;
    assert digits + rest == significant;
    if IsDigit(Head(significant)) && significant[0] != 48 {
      digits := DigitsOf(significant, 0);
      rest := DigitRun(significant, 0).1;
      RunReads(digits, rest);
      assert DigitRun(rest, NumberOf(digits)) == (NumberOf(digits), rest);
      hide DigitRun, NumberOf, AllDigits;
    }
  }

  lemma {:induction false} NumberParts(s: CStr, minus: bool, unsigned: CStr)
    requires (Head(s) == MINUS || IsDigit(Head(s))) && NumberLiteral(s).Ok?
    requires minus == (s[0] == MINUS) && unsigned == if minus then s[1..] else s
    ensures var (n, rest) := Magnitude(unsigned);
            var v := if minus then 0 - (n as int) else n;
            Is32(v) && NumberLiteral(s) == Ok(Number(v), rest) && !FractionOrExponent(rest)
    ensures s == (if minus then [MINUS] + unsigned else unsigned) && (!minus ==> IsDigit(Head(unsigned)))
  {
    hide Magnitude;
  }

  lemma {:induction false} SignedNumeral(m: Numeral, rest: CStr)
    requires MagnitudeEnds(m.zero, m.digits, rest)
    ensures NumeralValue(m) == if m.minus then 0 - (NumberOf(m.digits) as int) else NumberOf(m.digits)
    ensures (m.minus || m.zero || m.digits != []) && Is32(NumeralValue(m)) && !FractionOrExponent(rest) ==>
            NumeralEnds(m, rest)
  {
    hide NumberOf;
  }

  /** Whatever is read as a number is a numeral. */
  lemma {:induction false} NumeralOf(s: CStr) returns (m: Numeral)
    requires (Head(s) == MINUS || IsDigit(Head(s))) && NumberLiteral(s).Ok?
    ensures var rest := NumberLiteral(s).rest;
            s == NumeralText(m) + rest && NumeralEnds(m, rest) && NumberLiteral(s).value == Number(NumeralValue(m))
  {
    var minus := s[0] == MINUS;
    var unsigned := if minus then s[1..] else s;
    NumberParts(s, minus, unsigned);
    var zero, digits, rest := UnsignedOf(unsigned);
    m := Numeral(minus, zero, digits);
    hide *;
    NumeralParts(m, rest);
    SignedNumeral(m, rest);
  }

  // ----- printed numbers -----

  lemma {:induction false} DigitsAreProper(n: nat)
    ensures AllDigits(Digits(n)) && NumberOf(Digits(n)) == n && Digits(n) != []
    ensures n > 0 ==> Digits(n)[0] != 48
  {
    if n >= 10 {
      DigitsAreProper(n / 10);
      assert Digits(n)[..|Digits(n)| - 1] == Digits(n / 10);
    } else {
      assert NumberOf([]) == 0 && [48 + n][..0] == [];
    }
  }

  /** Every integer is printed as section 6 of RFC 8259 has it: a minus only below zero, and no zero in front. */
  lemma {:induction false} DecimalIsProper(n: int32) returns (m: Numeral)
    ensures ProperNumeral(m) && NumeralText(m) == Decimal(n) && NumeralValue(m) == n && (m.minus <==> n < 0)
  {
    if n == 0 {
      m := Numeral(false, true, []);
      assert NumberOf([]) == 0;
    } else {
      var size := if n < 0 then 0 - (n as int) else n;
      DigitsAreProper(size);
      m := Numeral(n < 0, false, Digits(size));
    }
  }
}
