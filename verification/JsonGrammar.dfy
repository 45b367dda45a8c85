/**
  What cJSON's parser reads, as functions on the text still to be read
  (the bytes before the terminator), and the theorem that it undoes `Text`.
 */
module JsonGrammar {
  import opened JsonText
  import opened Options
  import Unicode

  /**
    `Ok` carries what was read and the text after it; `Fail` the text at the
    error pointer `ep`.  `Outside` marks text the model does not describe: a
    fraction, an exponent, an integer beyond 32 bits, a backslash before the
    terminator, or `\u` without four hexadecimal digits.
   */
  datatype Parsed<+T> = Ok(value: T, rest: CStr) | Fail(at: CStr) | Outside

  /** The byte a C pointer at this text reads: 0 at the terminator. */
  function Head(s: CStr): byte {
    if s == [] then 0 else s[0]
  }

  function Skip(s: CStr): (r: CStr)
    ensures |r| <= |s|
    ensures r == [] || r[0] > 32
  {
    if s != [] && s[0] <= 32 then Skip(s[1..]) else s
  }

  // ----- strings -----

  function HexValue(b: byte): (r: Option<nat>)
    ensures r.Some? ==> r.value < 16
  {
    if 48 <= b <= 57 then Some(b - 48)
    else if 65 <= b <= 70 then Some(b - 55)
    else if 97 <= b <= 102 then Some(b - 87)
    else None
  }

  /** The value of four hexadecimal digits at the start of the text. */
  function Hex4(s: CStr): (r: Option<nat>)
    ensures r.Some? ==> r.value < 0x10000 && |s| >= 4
  {
    if |s| < 4 then None
    else
      var a, b, c, d := HexValue(s[0]), HexValue(s[1]), HexValue(s[2]), HexValue(s[3]);
      if a.Some? && b.Some? && c.Some? && d.Some?
      then Some(((a.value * 16 + b.value) * 16 + c.value) * 16 + d.value)
      else None
  }

  /** The UTF-8 of a code point other than U+0000. */
  function Utf8(u: nat): (r: CStr)
    requires 0 < u < 0x110000
    ensures 1 <= |r| <= 4
  {
    Unicode.Encode(u)
  }

  /** The code point of a surrogate pair (section 7 of RFC 8259). */
  function Combine(high: nat, low: nat): (u: nat)
    requires 0xD800 <= high < 0xDC00 && 0xDC00 <= low < 0xE000
    ensures 0x10000 <= u < 0x110000
  {
    0x10000 + (high - 0xD800) * 0x400 + (low - 0xDC00)
  }

  /** Reading `\u`: the text after the `u`; the bytes produced and how many digits and marks were read. */
  function UnicodeEscape(s: CStr): (r: Option<(CStr, nat)>)
    ensures r.Some? ==> (r.value.1 == 4 || r.value.1 == 10) && r.value.1 <= |s|
    ensures r.Some? ==> |r.value.0| <= (if r.value.1 == 4 then 3 else 4)
  {
    match Hex4(s)
    case None => None
    case Some(u) =>
      if 0xDC00 <= u < 0xE000 || u == 0 then Some(([], 4))
      else if 0xD800 <= u < 0xDC00 then
        if |s| < 6 || s[4] != BACKSLASH || s[5] != 117 then Some(([], 4))
        else
          match Hex4(s[6..])
          case None => None
          case Some(v) => if 0xDC00 <= v < 0xE000 then Some((Utf8(Combine(u, v)), 10)) else Some(([], 10))
      else Some((Utf8(u), 4))
  }

  function SimpleEscape(b: cbyte): cbyte {
    if b == 98 then 8
    else if b == 102 then 12
    else if b == 110 then LF
    else if b == 114 then CR
    else if b == 116 then TAB
    else b
  }

  /** Reading an escape: the text after the backslash; the bytes produced and how many were read. */
  function Escape(s: CStr): (r: Option<(CStr, nat)>)
    ensures r.Some? ==> 1 <= r.value.1 <= |s|
  {
    if s == [] then None
    else if s[0] == 117 then
      match UnicodeEscape(s[1..])
      case None => None
      case Some((out, n)) => Some((out, n + 1))
    else Some(([SimpleEscape(s[0])], 1))
  }

  function Prefix(out: CStr, r: Parsed<CStr>): Parsed<CStr> {
    if r.Ok? then Ok(out + r.value, r.rest) else r
  }

  /** The rest of a string literal; like the code, it accepts a missing closing quote. */
  function Unescape(s: CStr): (r: Parsed<CStr>)
    ensures r.Ok? ==> |r.rest| <= |s|
    ensures !r.Fail?
  {
    if s == [] then Ok([], [])
    else if s[0] == QUOTE then Ok([], s[1..])
    else if s[0] != BACKSLASH then Prefix([s[0]], Unescape(s[1..]))
    else
      match Escape(s[1..])
      case None => Outside
      case Some((out, n)) => Prefix(out, Unescape(s[1 + n..]))
  }

  function StringLiteral(s: CStr): (r: Parsed<CStr>)
    ensures r.Ok? ==> |r.rest| < |s|
  {
    if Head(s) != QUOTE then Fail(s) else Unescape(s[1..])
  }

  // ----- numbers -----

  predicate IsDigit(b: byte) {
    48 <= b <= 57
  }

  function DigitRun(s: CStr, acc: nat): (r: (nat, CStr))
    ensures |r.1| <= |s|
  {
    if IsDigit(Head(s)) then DigitRun(s[1..], acc * 10 + (Head(s) - 48)) else (acc, s)
  }

  /** True where `parse_number` goes on to a fraction or an exponent. */
  predicate FractionOrExponent(s: CStr) {
    (Head(s) == 46 && IsDigit(Head(s[1..]))) || Head(s) == 101 || Head(s) == 69
  }

  /** The number after its sign, and the text after it: a zero is stepped over first. */
  function Magnitude(s: CStr): (r: (nat, CStr))
    ensures |r.1| <= |s| && (IsDigit(Head(s)) ==> |r.1| < |s|)
  {
    var significant := if Head(s) == 48 then s[1..] else s;
    if IsDigit(Head(significant)) && significant[0] != 48 then DigitRun(significant, 0) else (0, significant)
  }

  function NumberLiteral(s: CStr): (r: Parsed<Json>)
    requires Head(s) == MINUS || IsDigit(Head(s))
    ensures r.Ok? ==> |r.rest| < |s|
    ensures !r.Fail?
  {
    var (n, rest) := Magnitude(if s[0] == MINUS then s[1..] else s);
    var v: int := if s[0] == MINUS then 0 - (n as int) else n;
    if FractionOrExponent(rest) || !(-0x8000_0000 <= v < 0x8000_0000) then Outside
    else Ok(Number(v), rest)
  }

  // ----- values -----

  function Value(s: CStr): (r: Parsed<Json>)
    ensures r.Ok? ==> |r.rest| < |s|
    decreases |s|, 1
  {
    if NULL_TEXT <= s then Ok(Null, s[4..])
    else if FALSE_TEXT <= s then Ok(False, s[5..])
    else if TRUE_TEXT <= s then Ok(True, s[4..])
    else if Head(s) == QUOTE then
      match StringLiteral(s)
      case Ok(str, rest) => Ok(String(str), rest)
      case Fail(at) => Fail(at)
      case Outside => Outside
    else if Head(s) == MINUS || IsDigit(Head(s)) then NumberLiteral(s)
    else if Head(s) == LBRACKET then
      var inside := Skip(s[1..]);
      if Head(inside) == RBRACKET then Ok(Array(NoItem), inside[1..])
      else
        match ItemList(inside)
        case Ok(items, rest) => Ok(Array(items), rest)
        case Fail(at) => Fail(at)
        case Outside => Outside
    else if Head(s) == LBRACE then
      var inside := Skip(s[1..]);
      if Head(inside) == RBRACE then Ok(Object(NoMember), inside[1..])
      else
        match MemberList(inside)
        case Ok(members, rest) => Ok(Object(members), rest)
        case Fail(at) => Fail(at)
        case Outside => Outside
    else Fail(s)
  }

  /** Elements up to and including the closing bracket. */
  function ItemList(s: CStr): (r: Parsed<Items>)
    ensures r.Ok? ==> |r.rest| < |s|
    decreases |s|, 2
  {
    match Value(Skip(s))
    case Fail(at) => Fail(at)
    case Outside => Outside
    case Ok(v, more) =>
      var after := Skip(more);
      if Head(after) == COMMA then
        match ItemList(after[1..])
        case Ok(items, rest) => Ok(Item(v, items), rest)
        case Fail(at) => Fail(at)
        case Outside => Outside
      else if Head(after) == RBRACKET then Ok(Item(v, NoItem), after[1..])
      else Fail(after)
  }

  /** One `name : value`, and the text after it with leading white space skipped. */
  function NamedValue(s: CStr): (r: Parsed<(CStr, Json)>)
    ensures r.Ok? ==> |r.rest| < |s|
    decreases |s|, 2
  {
    match StringLiteral(Skip(s))
    case Fail(at) => Fail(at)
    case Outside => Outside
    case Ok(name, more) =>
      var colon := Skip(more);
      if Head(colon) != COLON then Fail(colon)
      else
        match Value(Skip(colon[1..]))
        case Fail(at) => Fail(at)
        case Outside => Outside
        case Ok(v, rest) => Ok((name, v), Skip(rest))
  }

  /** Members up to and including the closing brace. */
  function MemberList(s: CStr): (r: Parsed<Members>)
    ensures r.Ok? ==> |r.rest| < |s|
    decreases |s|, 3
  {
    match NamedValue(s)
    case Fail(at) => Fail(at)
    case Outside => Outside
    case Ok((name, v), after) =>
      if Head(after) == COMMA then
        match MemberList(after[1..])
        case Ok(members, rest) => Ok(Member(name, v, members), rest)
        case Fail(at) => Fail(at)
        case Outside => Outside
      else if Head(after) == RBRACE then Ok(Member(name, v, NoMember), after[1..])
      else Fail(after)
  }

  /** `cJSON_ParseWithOpts`. */
  function Document(s: CStr, requireEnd: bool): Parsed<Json> {
    match Value(Skip(s))
    case Ok(v, rest) =>
      if !requireEnd then Ok(v, rest)
      else if Skip(rest) == [] then Ok(v, [])
      else Fail(Skip(rest))
    case Fail(at) => Fail(at)
    case Outside => Outside
  }
}
