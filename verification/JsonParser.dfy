/**
  The parser's loops.  A pointer into the text is the text from there to the
  terminator, so `value[1..]` is `value + 1`.  Chains are built in order, as
  the code links each new node behind the last.
 */
module JsonParser {
  import opened JsonText
  import opened JsonGrammar
  import opened Options
  import opened BitMasks
  import Unicode
  import opened WordBits

  method SkipBlanks(start: CStr) returns (s: CStr)
    ensures s == Skip(start)
  {
    s := start;
    while s != [] && s[0] <= 32
      invariant Skip(s) == Skip(start)
      decreases |s|
    {
      s := s[1..];
    }
  }

  // ----- strings -----

  /** What the first pass of `parse_string` counts, from after the opening quote. */
  function FirstPass(s: CStr): nat {
    if s == [] || s[0] == QUOTE then 0
    else if s[0] == BACKSLASH && |s| > 1 then 1 + FirstPass(s[2..])
    else 1 + FirstPass(s[1..])
  }

  lemma {:induction false} FirstPassPlain(s: CStr, n: nat)
    requires n <= |s| && forall i :: 0 <= i < n ==> s[i] != QUOTE && s[i] != BACKSLASH
    ensures FirstPass(s) == n + FirstPass(s[n..])
  {
    if n > 0 {
      FirstPassPlain(s[1..], n - 1);
      assert s[1..][n - 1..] == s[n..];
    }
  }

  lemma {:induction false} HexIsPlain(s: CStr)
    requires Hex4(s).Some?
    ensures forall i :: 0 <= i < 4 ==> s[i] != QUOTE && s[i] != BACKSLASH
  {}

  /** An escape of `n` bytes after the backslash produces no more bytes than the first pass counts for it. */
  lemma {:induction false} EscapeFits(s: CStr)
    requires s != [] && s[0] == BACKSLASH && Escape(s[1..]).Some?
    ensures var (out, n) := Escape(s[1..]).value; |out| + FirstPass(s[1 + n..]) <= FirstPass(s)
  {
    var n := Escape(s[1..]).value.1;
    assert s[1..][1..] == s[2..];
    if s[1] != 117 {
      assert n == 1;
    } else {
      HexIsPlain(s[2..]);
      FirstPassPlain(s[2..], 4);
      assert s[2..][4..] == s[6..];
      if n == 11 {
        assert s[6] == s[2..][4] && s[7] == s[2..][5] && s[2..][6..] == s[8..];
        HexIsPlain(s[8..]);
        FirstPassPlain(s[8..], 4);
        assert s[6..][2..] == s[8..] && s[8..][4..] == s[12..];
        assert FirstPass(s[6..]) == 1 + FirstPass(s[8..]);
      }
    }
  }

  /** The second pass never writes more than the first pass counted. */
  lemma {:induction false} SecondPassFits(s: CStr)
    requires Unescape(s).Ok?
    ensures |Unescape(s).value| <= FirstPass(s)
    decreases |s|
  {
    if s == [] || s[0] == QUOTE {
    } else if s[0] != BACKSLASH {
      SecondPassFits(s[1..]);
    } else {
      var (out, n) := Escape(s[1..]).value;
      EscapeFits(s);
      SecondPassFits(s[1 + n..]);
    }
  }

  method CountString(start: CStr) returns (len: nat)
    ensures len == FirstPass(start)
  {
    len := 0;
    var ptr := start;
    while ptr != [] && ptr[0] != QUOTE
      invariant FirstPass(start) == len + FirstPass(ptr)
      decreases |ptr|
    {
      len := len + 1;
      if ptr[0] == BACKSLASH && |ptr| > 1 {
        ptr := ptr[2..];
      } else {
        ptr := ptr[1..];
      }
    }
  }

  lemma {:induction false} SurrogateBits(high: nat, low: nat)
    requires 0xD800 <= high < 0xDC00 && 0xDC00 <= low < 0xE000
    ensures 0x10000 + (high % 1024 * 1024 + low % 1024) == Combine(high, low)
  {
    assert high == 54 * 1024 + (high - 0xD800) && low == 55 * 1024 + (low - 0xDC00);
  }

  /** The masks and shifts of the code compute the code point of a surrogate pair. */
  lemma {:induction false} MasksCombine(high: nat, low: nat)
    requires 0xD800 <= high < 0xDC00 && 0xDC00 <= low < 0xE000
    ensures 0x10000 + Or(Shl(And(high, 0x3FF), 10), And(low, 0x3FF)) == Combine(high, low)
  {
    TenBitFields(high, low);
    SurrogateBits(high, low);
  }

  /** A continuation byte of six bits, and the bits above them. */
  method TailByte(uc: nat) returns (b: cbyte, rest: nat)
    ensures b == 0x80 + uc % 64 && rest == uc / 64
  {
    Continuation(uc);
    ShiftSix(uc);
    b, rest := And(Or(uc, 0x80), 0xBF), Shr(uc, 6);
  }

  /** The first byte, marked with the number of bytes. */
  method LeadByte(uc: nat, len: nat) returns (b: byte)
    requires 1 <= len <= 4
    requires uc < if len == 1 then 0x80 else if len == 2 then 0x20 else if len == 3 then 0x10 else 0x08
    ensures b == uc + if len == 1 then 0 else if len == 2 then 0xC0 else if len == 3 then 0xE0 else 0xF0
  {
    LeadMarks(uc);
    OrNothing(uc);
    b := Or(uc, if len == 1 then 0 else if len == 2 then 0xC0 else if len == 3 then 0xE0 else 0xF0);
  }

  /** Writes one code point: the code steps over its bytes, then fills them from the last to the first. */
  method WriteUtf8(out: array<byte>, at: nat, code: nat) returns (end: nat)
    requires 0 < code < 0x110000 && at + |Utf8(code)| <= out.Length
    modifies out
    ensures end == at + |Utf8(code)| && out[..end] == old(out[..at]) + Utf8(code)
  {
    var uc := code;
    var len := 4;
    if uc < 0x80 {
      len := 1;
    } else if uc < 0x800 {
      len := 2;
    } else if uc < 0x10000 {
      len := 3;
    }
    end := at + len;
    if len >= 4 {
      out[at + 3], uc := TailByte(uc);
    }
    if len >= 3 {
      out[at + 2], uc := TailByte(uc);
    }
    if len >= 2 {
      out[at + 1], uc := TailByte(uc);
    }
    Unicode.Sextets(code, code / 262144, code / 4096 % 64, code / 64 % 64, code % 64);
    out[at] := LeadByte(uc, len);
    assert out[..end] == old(out[..at]) + Utf8(code);
  }

  /** Reads the code point of an escape from after its `u`; 0 for none, and the text after it. */
  method ReadCode(s: CStr) returns (uc: nat, rest: CStr)
    requires UnicodeEscape(s).Some?
    ensures rest == s[UnicodeEscape(s).value.1..]
    ensures uc < 0x110000 && UnicodeEscape(s).value.0 == if uc == 0 then [] else Utf8(uc)
  {
    uc := Hex4(s).value;
    rest := s[4..];
    if 0xDC00 <= uc < 0xE000 || uc == 0 {
      return 0, rest;
    }
    if 0xD800 <= uc < 0xDC00 {
      if |rest| < 2 || rest[0] != BACKSLASH || rest[1] != 117 {
        return 0, rest;
      }
      assert s[4] == rest[0] && s[5] == rest[1] && s[6..] == rest[2..];
      var uc2 := Hex4(rest[2..]).value;
      rest := rest[6..];
      assert rest == s[10..];
      if !(0xDC00 <= uc2 < 0xE000) {
        return 0, rest;
      }
      MasksCombine(uc, uc2);
      uc := 0x10000 + Or(Shl(And(uc, 0x3FF), 10), And(uc2, 0x3FF));
    }
  }

  /** An escape at `s`, from after its backslash: writes its bytes and gives what follows it. */
  method WriteEscape(out: array<byte>, at: nat, s: CStr) returns (end: nat, rest: CStr)
    requires Escape(s).Some? && at + |Escape(s).value.0| <= out.Length
    modifies out
    ensures rest == s[Escape(s).value.1..]
    ensures end == at + |Escape(s).value.0| && out[..end] == old(out[..at]) + Escape(s).value.0
  {
    end := at;
    if s[0] != 117 {
      out[at] := SimpleEscape(s[0]);
      return at + 1, s[1..];
    }
    var uc;
    uc, rest := ReadCode(s[1..]);
    assert out[..at] == out[..at] + [];
    if uc != 0 {
      end := WriteUtf8(out, at, uc);
    }
  }

  lemma {:induction false} PrefixTwice(a: CStr, b: CStr, r: Parsed<CStr>)
    ensures Prefix(a, Prefix(b, r)) == Prefix(a + b, r)
  {
    if r.Ok? {
      assert a + (b + r.value) == a + b + r.value;
    }
  }

  /** One byte or one escape of a literal, written at `at`. */
  method WriteUnit(out: array<byte>, at: nat, ptr: CStr) returns (end: nat, rest: CStr, ghost bytes: CStr)
    requires ptr != [] && ptr[0] != QUOTE
    requires Unescape(ptr).Ok? && at + |Unescape(ptr).value| <= out.Length
    modifies out
    ensures |rest| < |ptr| && Unescape(rest).Ok? && Unescape(ptr) == Prefix(bytes, Unescape(rest))
    ensures end == at + |bytes| && out[..end] == old(out[..at]) + bytes
  {
    if ptr[0] != BACKSLASH {
      bytes := [ptr[0]];
      out[at] := ptr[0];
      end, rest := at + 1, ptr[1..];
    } else {
      bytes := Escape(ptr[1..]).value.0;
      end, rest := WriteEscape(out, at, ptr[1..]);
      assert rest == ptr[1 + Escape(ptr[1..]).value.1..];
    }
  }

  /** `parse_string`: counts, allocates one byte more, and writes what it decodes. */
  method ParseString(str: CStr) returns (r: Parsed<CStr>)
    requires !StringLiteral(str).Outside?
    ensures r == StringLiteral(str)
  {
    if Head(str) != QUOTE {
      return Fail(str);
    }
    var len := CountString(str[1..]);
    var out := new byte[len + 1];
    SecondPassFits(str[1..]);
    r := FillString(out, str[1..]);
  }

  method FillString(out: array<byte>, start: CStr) returns (r: Parsed<CStr>)
    requires Unescape(start).Ok? && |Unescape(start).value| < out.Length
    modifies out
    ensures r == Unescape(start)
    ensures out[..|r.value|] == r.value && out[|r.value|] == 0
  {
    var ptr, at := start, 0;
    ghost var done: CStr := [];
    assert [] + Unescape(ptr).value == Unescape(ptr).value;
    while ptr != [] && ptr[0] != QUOTE
      invariant Unescape(ptr).Ok? && Unescape(start) == Prefix(done, Unescape(ptr))
      invariant at == |done| && at + |Unescape(ptr).value| < out.Length && out[..at] == done
      decreases |ptr|
    {
      ghost var bytes;
      at, ptr, bytes := WriteUnit(out, at, ptr);
      PrefixTwice(done, bytes, Unescape(ptr));
      done := done + bytes;
    }
    out[at] := 0;
    assert done + [] == done;
    r := Ok(out[..at], if ptr == [] then [] else ptr[1..]);
  }

  // ----- numbers -----

  /** The integer path of `parse_number`. */
  method ParseNumber(num: CStr) returns (r: Parsed<Json>)
    requires Head(num) == MINUS || IsDigit(Head(num))
    requires !NumberLiteral(num).Outside?
    ensures r == NumberLiteral(num)
  {
    var n: nat, sign, s := 0, 1, num;
    if Head(s) == MINUS {
      sign := -1;
      s := s[1..];
    }
    if Head(s) == 48 {
      s := s[1..];
    }
    if 49 <= Head(s) <= 57 {
      ghost var digits := s;
      while IsDigit(Head(s))
        invariant DigitRun(digits, 0) == DigitRun(s, n)
        decreases |s|
      {
        n := n * 10 + (Head(s) - 48);
        s := s[1..];
      }
    }
    r := Ok(Number(sign * n), s);
  }

  // ----- chains -----

  function AppendItems(done: Items, more: Items): Items {
    match done
    case NoItem => more
    case Item(v, rest) => Item(v, AppendItems(rest, more))
  }

  function AppendMembers(done: Members, more: Members): Members {
    match done
    case NoMember => more
    case Member(name, v, rest) => Member(name, v, AppendMembers(rest, more))
  }

  function AfterItems(done: Items, r: Parsed<Items>): Parsed<Items> {
    if r.Ok? then Ok(AppendItems(done, r.value), r.rest) else r
  }

  function AfterMembers(done: Members, r: Parsed<Members>): Parsed<Members> {
    if r.Ok? then Ok(AppendMembers(done, r.value), r.rest) else r
  }

  /** What may follow an element. */
  function MoreItems(s: CStr): Parsed<Items> {
    if Head(s) == COMMA then ItemList(s[1..])
    else if Head(s) == RBRACKET then Ok(NoItem, s[1..])
    else Fail(s)
  }

  /** What may follow a member. */
  function MoreMembers(s: CStr): Parsed<Members> {
    if Head(s) == COMMA then MemberList(s[1..])
    else if Head(s) == RBRACE then Ok(NoMember, s[1..])
    else Fail(s)
  }

  lemma {:induction false} AppendItemsTwice(done: Items, v: Json, r: Parsed<Items>)
    ensures AfterItems(AppendItems(done, Item(v, NoItem)), r) == AfterItems(done, AfterItems(Item(v, NoItem), r))
  {
    if r.Ok? {
      ItemsAssociate(done, Item(v, NoItem), r.value);
    }
  }

  lemma {:induction false} ItemsAssociate(a: Items, b: Items, c: Items)
    ensures AppendItems(AppendItems(a, b), c) == AppendItems(a, AppendItems(b, c))
  {
    if a.Item? {
      ItemsAssociate(a.rest, b, c);
    }
  }

  lemma {:induction false} ItemsEnd(a: Items)
    ensures AppendItems(a, NoItem) == a
  {
    if a.Item? {
      ItemsEnd(a.rest);
    }
  }

  lemma {:induction false} FirstItem(v: Json, r: Parsed<Items>)
    ensures AfterItems(Item(v, NoItem), r) == if r.Ok? then Ok(Item(v, r.value), r.rest) else r
  {
    if r.Ok? {
      assert AppendItems(NoItem, r.value) == r.value;
    }
  }

  lemma {:induction false} FirstMember(name: CStr, v: Json, r: Parsed<Members>)
    ensures AfterMembers(Member(name, v, NoMember), r) == if r.Ok? then Ok(Member(name, v, r.value), r.rest) else r
  {
    if r.Ok? {
      assert AppendMembers(NoMember, r.value) == r.value;
    }
  }

  lemma {:induction false} AppendMembersTwice(done: Members, name: CStr, v: Json, r: Parsed<Members>)
    ensures AfterMembers(AppendMembers(done, Member(name, v, NoMember)), r)
         == AfterMembers(done, AfterMembers(Member(name, v, NoMember), r))
  {
    if r.Ok? {
      MembersAssociate(done, Member(name, v, NoMember), r.value);
    }
  }

  lemma {:induction false} MembersAssociate(a: Members, b: Members, c: Members)
    ensures AppendMembers(AppendMembers(a, b), c) == AppendMembers(a, AppendMembers(b, c))
  {
    if a.Member? {
      MembersAssociate(a.rest, b, c);
    }
  }

  lemma {:induction false} MembersEnd(a: Members)
    ensures AppendMembers(a, NoMember) == a
  {
    if a.Member? {
      MembersEnd(a.rest);
    }
  }

  // ----- values -----

  method ParseValue(value: CStr) returns (r: Parsed<Json>)
    requires !Value(value).Outside?
    ensures r == Value(value)
    decreases |value|, 1
  {
    if NULL_TEXT <= value {
      r := Ok(Null, value[4..]);
    } else if FALSE_TEXT <= value {
      r := Ok(False, value[5..]);
    } else if TRUE_TEXT <= value {
      r := Ok(True, value[4..]);
    } else if Head(value) == QUOTE {
      var str := ParseString(value);
      r := Ok(String(str.value), str.rest);
    } else if Head(value) == MINUS || IsDigit(Head(value)) {
      r := ParseNumber(value);
    } else if Head(value) == LBRACKET {
      r := ParseArray(value);
    } else if Head(value) == LBRACE {
      r := ParseObject(value);
    } else {
      r := Fail(value);
    }
  }

  method ParseArray(text: CStr) returns (r: Parsed<Json>)
    requires Head(text) == LBRACKET && !Value(text).Outside?
    ensures r == Value(text)
    decreases |text|, 0
  {
    BracketValue(text);
    var value := SkipBlanks(text[1..]);
    if Head(value) == RBRACKET {
      return Ok(Array(NoItem), value[1..]);
    }
    var items := ParseItems(value);
    r := if items.Ok? then Ok(Array(items.value), items.rest) else Fail(items.at);
  }

  /** The elements of an array, each new one linked behind the last. */
  method ParseItems(start: CStr) returns (r: Parsed<Items>)
    requires !ItemList(start).Outside?
    ensures r == ItemList(start)
    decreases |start|, 3
  {
    var v := ParseItem(start);
    if v.Fail? {
      return Fail(v.at);
    }
    var items, value := Item(v.value, NoItem), v.rest;
    while Head(value) == COMMA
      invariant |value| < |start| && ItemList(start) == AfterItems(items, MoreItems(value))
      decreases |value|
    {
      v := ParseItem(value[1..]);
      if v.Fail? {
        return Fail(v.at);
      }
      AppendItemsTwice(items, v.value, MoreItems(v.rest));
      items, value := AppendItems(items, Item(v.value, NoItem)), v.rest;
    }
    ItemsEnd(items);
    r := if Head(value) == RBRACKET then Ok(items, value[1..]) else Fail(value);
  }

  /** One element and the white space around it. */
  method ParseItem(s: CStr) returns (r: Parsed<Json>)
    requires !ItemList(s).Outside?
    ensures !r.Outside?
    ensures r.Fail? ==> ItemList(s) == Fail(r.at)
    ensures r.Ok? ==> |r.rest| < |s| && ItemList(s) == AfterItems(Item(r.value, NoItem), MoreItems(r.rest))
    decreases |s|, 2
  {
    var value := SkipBlanks(s);
    r := ParseValue(value);
    if r.Ok? {
      value := SkipBlanks(r.rest);
      FirstItem(r.value, MoreItems(value));
      r := Ok(r.value, value);
    }
  }

  method ParseObject(text: CStr) returns (r: Parsed<Json>)
    requires Head(text) == LBRACE && !Value(text).Outside?
    ensures r == Value(text)
    decreases |text|, 0
  {
    BraceValue(text);
    var value := SkipBlanks(text[1..]);
    if Head(value) == RBRACE {
      return Ok(Object(NoMember), value[1..]);
    }
    var members := ParseMembers(value);
    r := if members.Ok? then Ok(Object(members.value), members.rest) else Fail(members.at);
  }

  /** The members of an object, each new one linked behind the last. */
  method ParseMembers(start: CStr) returns (r: Parsed<Members>)
    requires !MemberList(start).Outside?
    ensures r == MemberList(start)
    decreases |start|, 3
  {
    var m := ParseMember(start);
    if m.Fail? {
      return Fail(m.at);
    }
    var members, value := Member(m.value.0, m.value.1, NoMember), m.rest;
    while Head(value) == COMMA
      invariant |value| < |start| && MemberList(start) == AfterMembers(members, MoreMembers(value))
      decreases |value|
    {
      m := ParseMember(value[1..]);
      if m.Fail? {
        return Fail(m.at);
      }
      AppendMembersTwice(members, m.value.0, m.value.1, MoreMembers(m.rest));
      members, value := AppendMembers(members, Member(m.value.0, m.value.1, NoMember)), m.rest;
    }
    MembersEnd(members);
    r := if Head(value) == RBRACE then Ok(members, value[1..]) else Fail(value);
  }

  /** One name, colon and value, and the white space around them. */
  method ParseMember(s: CStr) returns (r: Parsed<(CStr, Json)>)
    requires !MemberList(s).Outside?
    ensures !r.Outside?
    ensures r.Fail? ==> MemberList(s) == Fail(r.at)
    ensures r.Ok? ==> |r.rest| < |s|
    ensures r.Ok? ==> MemberList(s) == AfterMembers(Member(r.value.0, r.value.1, NoMember), MoreMembers(r.rest))
    decreases |s|, 2
  {
    var value := SkipBlanks(s);
    var name := ParseString(value);
    if name.Fail? {
      return Fail(name.at);
    }
    value := SkipBlanks(name.rest);
    if Head(value) != COLON {
      return Fail(value);
    }
    value := SkipBlanks(value[1..]);
    var v := ParseValue(value);
    if v.Fail? {
      return Fail(v.at);
    }
    value := SkipBlanks(v.rest);
    FirstMember(name.value, v.value, MoreMembers(value));
    r := Ok((name.value, v.value), value);
  }

  lemma {:induction false} BracketValue(s: CStr)
    requires Head(s) == LBRACKET
    ensures Value(s) == (var inside := Skip(s[1..]);
                         if Head(inside) == RBRACKET then Ok(Array(NoItem), inside[1..])
                         else match ItemList(inside)
                              case Ok(items, rest) => Ok(Array(items), rest)
                              case Fail(at) => Fail(at)
                              case Outside => Outside)
  {
    assert NULL_TEXT[0] == 110 && FALSE_TEXT[0] == 102 && TRUE_TEXT[0] == 116;
  }

  lemma {:induction false} BraceValue(s: CStr)
    requires Head(s) == LBRACE
    ensures Value(s) == (var inside := Skip(s[1..]);
                         if Head(inside) == RBRACE then Ok(Object(NoMember), inside[1..])
                         else match MemberList(inside)
                              case Ok(members, rest) => Ok(Object(members), rest)
                              case Fail(at) => Fail(at)
                              case Outside => Outside)
  {
    assert NULL_TEXT[0] == 110 && FALSE_TEXT[0] == 102 && TRUE_TEXT[0] == 116;
  }

  /** `cJSON_ParseWithOpts`; a failure carries the text at `ep`. */
  method ParseWithOpts(text: CStr, requireEnd: bool) returns (r: Parsed<Json>)
    requires !Document(text, requireEnd).Outside?
    ensures r == Document(text, requireEnd)
  {
    var value := SkipBlanks(text);
    r := ParseValue(value);
    if r.Ok? && requireEnd {
      var end := SkipBlanks(r.rest);
      r := if end == [] then Ok(r.value, end) else Fail(end);
    }
  }
}
