/**
  Parsing undoes printing, for every tree, depth and format; and escapes in
  string literals decode to UTF-8.
 */
module JsonRoundTrip {
  import opened JsonText
  import opened JsonGrammar
  import opened Options

  // ----- numbers -----

  /** The text after a printed number must not continue it. */
  predicate EndsNumber(post: CStr) {
    !IsDigit(Head(post)) && Head(post) != 46 && Head(post) != 101 && Head(post) != 69
  }

  lemma {:induction false} DigitsNonEmpty(n: nat)
    ensures |Digits(n)| > 0 && IsDigit(Digits(n)[0]) && (n > 0 ==> Digits(n)[0] != 48)
    ensures n < 10 ==> Digits(n) == [48 + n]
  {
    if n >= 10 {
      DigitsNonEmpty(n / 10);
    }
  }

  lemma {:induction false} ReadsDigits(n: nat, post: CStr)
    ensures DigitRun(Digits(n) + post, 0) == DigitRun(post, n)
  {
    if n < 10 {
      assert ([48 + n] + post)[1..] == post;
    } else {
      var last: CStr := [48 + n % 10];
      assert Digits(n) + post == Digits(n / 10) + (last + post);
      ReadsDigits(n / 10, last + post);
      assert (last + post)[1..] == post;
    }
  }

  lemma {:induction false} NumberReads(n: int32, post: CStr)
    requires EndsNumber(post)
    ensures var s := Decimal(n) + post;
            s != [] && (s[0] == MINUS || IsDigit(s[0])) && NumberLiteral(s) == Ok(Number(n), post)
  {
    var m: nat := if n < 0 then 0 - n else n;
    var s, unsigned := Decimal(n) + post, Digits(m) + post;
    DigitsNonEmpty(m);
    ReadsDigits(m, post);
    assert unsigned[0] == Digits(m)[0];
    assert n < 0 ==> s == [MINUS] + unsigned && s[1..] == unsigned;
    assert n >= 0 ==> s == unsigned;
    assert m == 0 ==> unsigned[1..] == post;
  }

  lemma {:induction false} NumberRoundTrip(n: int32, post: CStr)
    requires EndsNumber(post)
    ensures Value(Decimal(n) + post) == Ok(Number(n), post)
  {
    NumberReads(n, post);
    assert NULL_TEXT[0] == 110 && FALSE_TEXT[0] == 102 && TRUE_TEXT[0] == 116;
  }

  // ----- strings -----

  lemma {:induction false} HexDigits(v: nat)
    requires v < 16
    ensures HexValue(LowerHex(v)) == Some(v)
  {}

  /** The four digits of "%04x" of a byte below 256. */
  function FourHex(b: nat): CStr
    requires b < 256
  {
    [48, 48, LowerHex(b / 16), LowerHex(b % 16)]
  }

  lemma {:induction false} FourHexReads(b: nat, post: CStr)
    requires b < 256
    ensures Hex4(FourHex(b) + post) == Some(b)
  {
    var s, d := FourHex(b) + post, FourHex(b);
    HexDigits(b / 16);
    HexDigits(b % 16);
    assert s[0] == d[0] && s[1] == d[1] && s[2] == d[2] && s[3] == d[3];
  }

  /** A control character without an escape of its own is printed as `\u00xx` and read back. */
  lemma {:induction false} ControlRoundTrip(b: cbyte, post: CStr)
    requires b < 32
    ensures Unescape([BACKSLASH, 117] + FourHex(b) + post) == Prefix([b], Unescape(post))
  {
    var s := [BACKSLASH, 117] + FourHex(b) + post;
    var t := s[1..];
    assert t[0] == 117 && t[1..] == FourHex(b) + post;
    FourHexReads(b, post);
    assert UnicodeEscape(t[1..]) == Some(([b], 4));
    assert s[6..] == post;
  }

  lemma {:induction false} SimpleRoundTrip(c: cbyte, b: cbyte, post: CStr)
    requires c != 117 && SimpleEscape(c) == b
    ensures Unescape([BACKSLASH, c] + post) == Prefix([b], Unescape(post))
  {
    var s := [BACKSLASH, c] + post;
    assert s[1..][0] == c && s[2..] == post;
  }

  /** One printed byte is read back as that byte. */
  lemma {:induction false} EscapedRoundTrip(b: cbyte, post: CStr)
    ensures Unescape(Escaped(b) + post) == Prefix([b], Unescape(post))
  {
    if !NeedsEscape(b) {
      assert (Escaped(b) + post)[1..] == post;
    } else if b in {BACKSLASH, QUOTE, 8, 12, LF, CR, TAB} {
      SimpleRoundTrip(Escaped(b)[1], b, post);
    } else {
      ControlRoundTrip(b, post);
      assert Escaped(b) == [BACKSLASH, 117] + FourHex(b);
    }
  }

  lemma {:induction false} EscapedAllRoundTrip(str: CStr, post: CStr)
    ensures Unescape(EscapedAll(str) + ([QUOTE] + post)) == Ok(str, post)
  {
    if str == [] {
      assert EscapedAll(str) + ([QUOTE] + post) == [QUOTE] + post;
      assert ([QUOTE] + post)[1..] == post;
    } else {
      var more := EscapedAll(str[1..]) + ([QUOTE] + post);
      assert EscapedAll(str) + ([QUOTE] + post) == Escaped(str[0]) + more;
      EscapedRoundTrip(str[0], more);
      EscapedAllRoundTrip(str[1..], post);
      assert [str[0]] + str[1..] == str;
    }
  }

  lemma {:induction false} StringRoundTrip(str: CStr, post: CStr)
    ensures StringLiteral(Quoted(str) + post) == Ok(str, post)
    ensures Value(Quoted(str) + post) == Ok(String(str), post)
  {
    var s := Quoted(str) + post;
    assert s[1..] == EscapedAll(str) + ([QUOTE] + post);
    EscapedAllRoundTrip(str, post);
  }

  // ----- values -----

  lemma {:induction false} SkipTabs(n: nat, s: CStr)
    requires Head(s) > 32
    ensures Skip(Tabs(n) + s) == s
  {
    if n == 0 {
      assert Tabs(n) + s == s;
    } else {
      assert (Tabs(n) + s)[1..] == Tabs(n - 1) + s;
      SkipTabs(n - 1, s);
    }
  }

  lemma {:induction false} SkipLayout(fmt: bool, n: nat, s: CStr)
    requires Head(s) > 32
    ensures Skip(NewLine(fmt) + Indent(n, fmt) + s) == s
    ensures Skip(Indent(n, fmt) + s) == s
    ensures Skip(s) == s
  {
    SkipTabs(n, s);
    if fmt {
      assert (NewLine(fmt) + Indent(n, fmt) + s)[1..] == Tabs(n) + s;
    } else {
      assert NewLine(fmt) + Indent(n, fmt) + s == s;
      assert Indent(n, fmt) + s == s;
    }
  }

  /** Printed values start with a visible byte. */
  lemma {:induction false} TextStartsVisible(t: Json, depth: nat, fmt: bool)
    ensures |Text(t, depth, fmt)| > 0 && Text(t, depth, fmt)[0] > 32
    ensures Text(t, depth, fmt)[0] != RBRACKET && Text(t, depth, fmt)[0] != RBRACE
  {
    match t
    case Number(n) => DigitsNonEmpty(if n < 0 then 0 - n else n);
    case _ =>
  }

  /** What follows the members inside an object. */
  function Closing(depth: nat, fmt: bool, post: CStr): CStr {
    Indent(depth, fmt) + ([RBRACE] + post)
  }

  /** Parsing undoes printing: an equal value, and the text read exactly to its end. */
  lemma {:induction false} ValueRoundTrip(t: Json, depth: nat, fmt: bool, post: CStr)
    requires EndsNumber(post)
    ensures Value(Text(t, depth, fmt) + post) == Ok(t, post)
    decreases t
  {
    var s := Text(t, depth, fmt) + post;
    match t
    case Null => assert NULL_TEXT <= s && s[4..] == post;
    case False => assert FALSE_TEXT <= s && s[5..] == post; assert s[0] == 102 && NULL_TEXT[0] == 110;
    case True =>
      assert TRUE_TEXT <= s && s[4..] == post;
      assert s[0] == 116 && NULL_TEXT[0] == 110 && FALSE_TEXT[0] == 102;
    case Number(n) => NumberRoundTrip(n, post);
    case String(str) => StringRoundTrip(str, post);
    case Array(items) => ArrayRoundTrip(items, depth, fmt, post);
    case Object(members) => ObjectRoundTrip(members, depth, fmt, post);
  }

  lemma {:induction false} EmptyArrayValue(s: CStr, post: CStr)
    requires Head(s) == LBRACKET && Skip(s[1..]) == [RBRACKET] + post
    ensures Value(s) == Ok(Array(NoItem), post)
  {
    assert NULL_TEXT[0] == 110 && FALSE_TEXT[0] == 102 && TRUE_TEXT[0] == 116;
    assert ([RBRACKET] + post)[1..] == post;
  }

  lemma {:induction false} ArrayValue(s: CStr, items: Items, post: CStr)
    requires Head(s) == LBRACKET && Head(Skip(s[1..])) != RBRACKET
    requires ItemList(Skip(s[1..])) == Ok(items, post)
    ensures Value(s) == Ok(Array(items), post)
  {
    assert NULL_TEXT[0] == 110 && FALSE_TEXT[0] == 102 && TRUE_TEXT[0] == 116;
  }

  lemma {:induction false} EmptyObjectValue(s: CStr, post: CStr)
    requires Head(s) == LBRACE && Skip(s[1..]) == [RBRACE] + post
    ensures Value(s) == Ok(Object(NoMember), post)
  {
    assert NULL_TEXT[0] == 110 && FALSE_TEXT[0] == 102 && TRUE_TEXT[0] == 116;
    assert ([RBRACE] + post)[1..] == post;
  }

  lemma {:induction false} ObjectValue(s: CStr, members: Members, post: CStr)
    requires Head(s) == LBRACE && Head(Skip(s[1..])) != RBRACE
    requires MemberList(Skip(s[1..])) == Ok(members, post)
    ensures Value(s) == Ok(Object(members), post)
  {
    assert NULL_TEXT[0] == 110 && FALSE_TEXT[0] == 102 && TRUE_TEXT[0] == 116;
  }

  lemma {:induction false} ArrayRoundTrip(items: Items, depth: nat, fmt: bool, post: CStr)
    ensures Value(Text(Array(items), depth, fmt) + post) == Ok(Array(items), post)
    decreases items, 1
  {
    var s := Text(Array(items), depth, fmt) + post;
    var inside := ItemsText(items, depth + 1, fmt) + ([RBRACKET] + post);
    assert s[1..] == inside;
    if items.NoItem? {
      assert inside == [RBRACKET] + post;
      EmptyArrayValue(s, post);
    } else {
      ItemsStartVisible(items, depth + 1, fmt, [RBRACKET] + post);
      ItemsRoundTrip(items, depth + 1, fmt, post, inside);
      ArrayValue(s, items, post);
    }
  }

  lemma {:induction false} ItemsStartVisible(items: Items, depth: nat, fmt: bool, more: CStr)
    requires items.Item?
    ensures var s := ItemsText(items, depth, fmt) + more;
            Head(s) > 32 && Head(s) != RBRACKET && Skip(s) == s
  {
    TextStartsVisible(items.value, depth, fmt);
    assert (ItemsText(items, depth, fmt) + more)[0] == Text(items.value, depth, fmt)[0];
  }

  lemma {:induction false} ItemsRoundTrip(items: Items, depth: nat, fmt: bool, post: CStr, s: CStr)
    requires items.Item?
    requires Skip(s) == ItemsText(items, depth, fmt) + ([RBRACKET] + post)
    ensures ItemList(s) == Ok(items, post)
    decreases items, 0
  {
    var v := Text(items.value, depth, fmt);
    if items.rest.NoItem? {
      var after := [RBRACKET] + post;
      ValueRoundTrip(items.value, depth, fmt, after);
      assert after[1..] == post;
    } else {
      var next := ItemsText(items.rest, depth, fmt) + ([RBRACKET] + post);
      var after := ItemSep(fmt) + next;
      assert Skip(s) == v + after;
      ValueRoundTrip(items.value, depth, fmt, after);
      assert Skip(after) == after;
      ItemsStartVisible(items.rest, depth, fmt, [RBRACKET] + post);
      assert Skip(after[1..]) == next by {
        assert fmt ==> after[1..][1..] == next;
        assert !fmt ==> after[1..] == next;
      }
      ItemsRoundTrip(items.rest, depth, fmt, post, after[1..]);
    }
  }

  lemma {:induction false} ObjectRoundTrip(members: Members, depth: nat, fmt: bool, post: CStr)
    ensures Value(Text(Object(members), depth, fmt) + post) == Ok(Object(members), post)
    decreases members, 2
  {
    if members.NoMember? {
      EmptyObjectRoundTrip(depth, fmt, post);
    } else {
      InsideObject(members, depth, fmt, post);
      FilledObject(members, depth, fmt, post, Text(Object(members), depth, fmt) + post);
    }
  }

  lemma {:induction false} FilledObject(members: Members, depth: nat, fmt: bool, post: CStr, s: CStr)
    requires members.Member? && Head(s) == LBRACE
    requires s[1..] == NewLine(fmt) + (MembersText(members, depth + 1, fmt) + Closing(depth, fmt, post))
    ensures Value(s) == Ok(Object(members), post)
    decreases members, 1
  {
    var inside := MembersText(members, depth + 1, fmt) + Closing(depth, fmt, post);
    SkipNewLine(fmt, inside);
    MembersSkip(members, depth + 1, fmt, Closing(depth, fmt, post));
    MembersRoundTrip(members, depth + 1, fmt, post, Skip(inside));
    ObjectValue(s, members, post);
  }

  lemma {:induction false} EmptyObjectRoundTrip(depth: nat, fmt: bool, post: CStr)
    ensures Value(Text(Object(NoMember), depth, fmt) + post) == Ok(Object(NoMember), post)
  {
    var d := if depth == 0 then 0 else depth - 1;
    var a, b, c, e: CStr := [LBRACE], NewLine(fmt), Indent(d, fmt), [RBRACE];
    var s := Text(Object(NoMember), depth, fmt) + post;
    Associate(a + b + c, e, post);
    Associate(a + b, c, e + post);
    Associate(a, b, c + (e + post));
    Associate(b, c, e + post);
    assert s == a + (b + c + (e + post));
    assert s[1..] == b + c + (e + post);
    SkipLayout(fmt, d, e + post);
    EmptyObjectValue(s, post);
  }

  lemma {:induction false} InsideObject(members: Members, depth: nat, fmt: bool, post: CStr)
    requires members.Member?
    ensures var s := Text(Object(members), depth, fmt) + post;
            Head(s) == LBRACE &&
            s[1..] == NewLine(fmt) + (MembersText(members, depth + 1, fmt) + Closing(depth, fmt, post))
  {
    var a, b, c, d: CStr := [LBRACE], NewLine(fmt), MembersText(members, depth + 1, fmt), Indent(depth, fmt);
    var e: CStr := [RBRACE];
    assert Text(Object(members), depth, fmt) == a + b + c + d + e;
    Associate(a + b + c + d, e, post);
    Associate(a + b + c, d, e + post);
    Associate(a + b, c, d + (e + post));
    Associate(a, b, c + (d + (e + post)));
    var s := Text(Object(members), depth, fmt) + post;
    assert s == a + (b + (c + Closing(depth, fmt, post)));
    assert s[0] == LBRACE && s[1..] == b + (c + Closing(depth, fmt, post));
  }

  lemma {:induction false} SkipNewLine(fmt: bool, s: CStr)
    ensures Skip(NewLine(fmt) + s) == Skip(s)
  {
    assert fmt ==> (NewLine(fmt) + s)[1..] == s;
    assert !fmt ==> NewLine(fmt) + s == s;
  }

  /** The text from a member's value on. */
  function FromValue(members: Members, depth: nat, fmt: bool, more: CStr): CStr
    requires members.Member?
  {
    Text(members.value, depth, fmt) + AfterValue(members, depth, fmt, more)
  }

  function AfterValue(members: Members, depth: nat, fmt: bool, more: CStr): CStr
    requires members.Member?
  {
    MemberTail(members.rest.NoMember?, fmt) + (MembersText(members.rest, depth, fmt) + more)
  }

  /** Skipping white space before the members drops the indentation. */
  lemma {:induction false} MembersSkip(members: Members, depth: nat, fmt: bool, more: CStr)
    requires members.Member?
    ensures Skip(MembersText(members, depth, fmt) + more)
         == Quoted(members.name) + (NameSep(fmt) + FromValue(members, depth, fmt, more))
    ensures Head(Skip(MembersText(members, depth, fmt) + more)) == QUOTE
  {
    var a, q, c := Indent(depth, fmt), Quoted(members.name), NameSep(fmt);
    var v, m := Text(members.value, depth, fmt), MemberTail(members.rest.NoMember?, fmt);
    var r := MembersText(members.rest, depth, fmt);
    Regroup(a, q, c, v, m, r, more);
    SkipLayout(fmt, depth, q + (c + (v + (m + (r + more)))));
  }

  lemma {:induction false} Regroup(a: CStr, q: CStr, c: CStr, v: CStr, m: CStr, r: CStr, more: CStr)
    ensures a + q + c + v + m + r + more == a + (q + (c + (v + (m + (r + more)))))
  {
    Associate(a + q + c + v + m, r, more);
    Associate(a + q + c + v, m, r + more);
    Associate(a + q + c, v, m + (r + more));
    Associate(a + q, c, v + (m + (r + more)));
    Associate(a, q, c + (v + (m + (r + more))));
  }

  lemma {:induction false} Associate(a: CStr, b: CStr, c: CStr)
    ensures a + b + c == a + (b + c)
  {}

  lemma {:induction false} MembersRoundTrip(members: Members, depth: nat, fmt: bool, post: CStr, s: CStr)
    requires members.Member? && depth > 0
    requires Skip(s) == Skip(MembersText(members, depth, fmt) + Closing(depth - 1, fmt, post))
    ensures MemberList(s) == Ok(members, post)
    decreases members, 0
  {
    var more := Closing(depth - 1, fmt, post);
    var tail := AfterValue(members, depth, fmt, more);
    var rest := MembersText(members.rest, depth, fmt) + more;
    MembersSkip(members, depth, fmt, more);
    if members.rest.NoMember? {
      LastTail(members, depth, fmt, post);
    } else {
      CommaTail(members, depth, fmt, more);
    }
    ValueRoundTrip(members.value, depth, fmt, tail);
    NamedValueReads(members.name, members.value, depth, fmt, tail, s);
    if members.rest.NoMember? {
      LastMember(s, members.name, members.value, post);
    } else {
      SkipNewLine(fmt, rest);
      MembersRoundTrip(members.rest, depth, fmt, post, tail[1..]);
      MoreMembers(s, members.name, members.value, tail, members.rest, post);
    }
  }

  lemma {:induction false} LastTail(members: Members, depth: nat, fmt: bool, post: CStr)
    requires members.Member? && members.rest.NoMember? && depth > 0
    ensures Skip(AfterValue(members, depth, fmt, Closing(depth - 1, fmt, post))) == [RBRACE] + post
    ensures EndsNumber(AfterValue(members, depth, fmt, Closing(depth - 1, fmt, post)))
  {
    assert AfterValue(members, depth, fmt, Closing(depth - 1, fmt, post))
        == NewLine(fmt) + Indent(depth - 1, fmt) + ([RBRACE] + post);
    SkipLayout(fmt, depth - 1, [RBRACE] + post);
  }

  lemma {:induction false} CommaTail(members: Members, depth: nat, fmt: bool, more: CStr)
    requires members.Member? && members.rest.Member?
    ensures var tail := AfterValue(members, depth, fmt, more);
            Head(tail) == COMMA && tail[1..] == NewLine(fmt) + (MembersText(members.rest, depth, fmt) + more)
  {
    CommaFirst(fmt, MembersText(members.rest, depth, fmt) + more);
  }

  lemma {:induction false} CommaFirst(fmt: bool, s: CStr)
    ensures var tail := MemberTail(false, fmt) + s;
            Head(tail) == COMMA && tail[1..] == NewLine(fmt) + s
  {
    assert MemberTail(false, fmt) + s == [COMMA] + (NewLine(fmt) + s);
  }

  lemma {:induction false} LastMember(s: CStr, name: CStr, v: Json, post: CStr)
    requires NamedValue(s) == Ok((name, v), [RBRACE] + post)
    ensures MemberList(s) == Ok(Member(name, v, NoMember), post)
  {
    assert ([RBRACE] + post)[1..] == post;
  }

  lemma {:induction false} MoreMembers(s: CStr, name: CStr, v: Json, tail: CStr, rest: Members, post: CStr)
    requires Head(tail) == COMMA && NamedValue(s) == Ok((name, v), Skip(tail))
    requires MemberList(tail[1..]) == Ok(rest, post)
    ensures MemberList(s) == Ok(Member(name, v, rest), post)
  {
    assert Skip(tail) == tail;
  }

  lemma {:induction false} NamedValueReads(name: CStr, v: Json, depth: nat, fmt: bool, tail: CStr, s: CStr)
    requires Skip(s) == Quoted(name) + (NameSep(fmt) + (Text(v, depth, fmt) + tail))
    requires Value(Text(v, depth, fmt) + tail) == Ok(v, tail)
    ensures NamedValue(s) == Ok((name, v), Skip(tail))
  {
    var value := Text(v, depth, fmt) + tail;
    StringRoundTrip(name, NameSep(fmt) + value);
    var colon := NameSep(fmt) + value;
    assert Skip(colon) == colon;
    TextStartsVisible(v, depth, fmt);
    assert value[0] == Text(v, depth, fmt)[0];
    assert fmt ==> colon[1..][1..] == value;
    assert !fmt ==> colon[1..] == value;
    assert Skip(colon[1..]) == value;
  }

  /** `cJSON_Parse` of `cJSON_Print` and of `cJSON_PrintUnformatted`, with or without a required end. */
  lemma {:induction false} DocumentRoundTrip(t: Json, fmt: bool, requireEnd: bool)
    ensures Document(Text(t, 0, fmt), requireEnd) == Ok(t, [])
  {
    var s := Text(t, 0, fmt);
    TextStartsVisible(t, 0, fmt);
    ValueRoundTrip(t, 0, fmt, []);
    assert s + [] == s;
  }

  /** Two values with the same text are the same value. */
  lemma {:induction false} TextIsInjective(t: Json, u: Json, depth: nat, fmt: bool)
    requires Text(t, depth, fmt) == Text(u, depth, fmt)
    ensures t == u
  {
    ValueRoundTrip(t, depth, fmt, []);
    ValueRoundTrip(u, depth, fmt, []);
  }
}
