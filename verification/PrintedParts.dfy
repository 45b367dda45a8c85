/**
  Lengths and shapes of the parts of printed text, for both printers.
 */
module PrintedParts {
  import opened JsonText

  method AnyEscape(str: CStr) returns (flag: bool)
    ensures flag <==> exists j :: 0 <= j < |str| && NeedsEscape(str[j])
  {
    flag := false;
    for i := 0 to |str|
      invariant flag <==> exists j :: 0 <= j < i && NeedsEscape(str[j])
    {
      flag := flag || str[i] < 32 || str[i] == QUOTE || str[i] == BACKSLASH;
    }
  }

  /** The length counted before an escaped string is written. */
  method EscapedLength(str: CStr) returns (len: nat)
    ensures len == |EscapedAll(str)|
  {
    len := 0;
    assert str[0..] == str;
    for i := 0 to |str|
      invariant |EscapedAll(str)| == len + |EscapedAll(str[i..])|
    {
      assert str[i..][1..] == str[i + 1..];
      len := len + 1;
      if str[i] == QUOTE || str[i] == BACKSLASH || str[i] == 8 || str[i] == 12 ||
         str[i] == LF || str[i] == CR || str[i] == TAB {
        len := len + 1;
      } else if str[i] < 32 {
        len := len + 5;
      }
    }
    assert str[|str|..] == [];
  }

  /** Copies `s` into the buffer, as `strcpy` and `memcpy` do. */
  method Put(buffer: array<byte>, at: nat, s: CStr)
    requires at + |s| <= buffer.Length
    modifies buffer
    ensures buffer[..at + |s|] == old(buffer[..at]) + s
  {
    ghost var head := buffer[..at];
    for i := 0 to |s|
      invariant buffer[..at + i] == head + s[..i]
    {
      buffer[at + i] := s[i];
    }
    assert s[..|s|] == s;
  }

  /** The bytes of a string up to the `i`-th are written, escaped, after `head`. */
  ghost predicate Quoting(buffer: array<byte>, head: seq<byte>, str: CStr, i: nat, out: CStr, at: nat)
    reads buffer
  {
    && i <= |str| && at == |head| + |out| && at + |EscapedAll(str[i..])| + 2 <= buffer.Length
    && EscapedAll(str) == out + EscapedAll(str[i..]) && buffer[..at] == head + out
  }

  lemma {:induction false} EscapedNext(str: CStr, i: nat)
    requires i < |str|
    ensures EscapedAll(str[i..]) == Escaped(str[i]) + EscapedAll(str[i + 1..])
  {
    assert str[i..][1..] == str[i + 1..];
  }

  method QuoteNext(buffer: array<byte>, ghost head: seq<byte>, str: CStr, i: nat, ghost out: CStr, at0: nat)
    returns (at: nat)
    requires Quoting(buffer, head, str, i, out, at0) && i < |str|
    modifies buffer
    ensures Quoting(buffer, head, str, i + 1, out + Escaped(str[i]), at)
  {
    EscapedNext(str, i);
    at := PutEscaped(buffer, at0, str[i]);
    Joined(head, out, Escaped(str[i]), EscapedAll(str[i + 1..]));
  }

  /** Writes the quoted, escaped string and a terminator. */
  method PutQuoted(buffer: array<byte>, offset: nat, str: CStr)
    requires offset + |Quoted(str)| + 1 <= buffer.Length
    modifies buffer
    ensures buffer[..offset + |Quoted(str)|] == old(buffer[..offset]) + Quoted(str)
    ensures buffer[offset + |Quoted(str)|] == 0
  {
    ghost var start := buffer[..offset];
    ghost var head, out: CStr := start + [QUOTE], [];
    buffer[offset] := QUOTE;
    var at: nat := offset + 1;
    assert str[0..] == str && head + [] == head && buffer[..at] == head;
    assert [] + EscapedAll(str) == EscapedAll(str);
    for i := 0 to |str|
      invariant Quoting(buffer, head, str, i, out, at)
    {
      at := QuoteNext(buffer, head, str, i, out, at);
      out := out + Escaped(str[i]);
    }
    assert str[|str|..] == [] && out + [] == out;
    CloseQuote(buffer, start, str, at);
  }

  method CloseQuote(buffer: array<byte>, ghost start: seq<byte>, ghost str: CStr, at: nat)
    requires at + 2 <= buffer.Length && buffer[..at] == start + [QUOTE] + EscapedAll(str)
    modifies buffer
    ensures at + 1 == |start| + |Quoted(str)| && buffer[..at + 1] == start + Quoted(str) && buffer[at + 1] == 0
  {
    buffer[at] := QUOTE;
    buffer[at + 1] := 0;
    assert buffer[..at + 1] == buffer[..at] + [QUOTE];
    Joined(start, [QUOTE], EscapedAll(str), [QUOTE]);
    assert buffer[..at + 1] == start + [QUOTE] + EscapedAll(str) + [QUOTE] == start + Quoted(str);
  }

  /** One byte of a string, escaped if need be; `sprintf` also writes a terminator after `\uXXXX`. */
  method PutEscaped(buffer: array<byte>, at0: nat, b: cbyte) returns (at: nat)
    requires at0 + |Escaped(b)| + 1 <= buffer.Length
    modifies buffer
    ensures at == at0 + |Escaped(b)| && buffer[..at] == old(buffer[..at0]) + Escaped(b)
  {
    at := at0;
    if b > 31 && b != QUOTE && b != BACKSLASH {
      buffer[at] := b;
      at := at + 1;
    } else {
      buffer[at] := BACKSLASH;
      at := at + 1;
      if b == BACKSLASH || b == QUOTE {
        buffer[at] := b;
        at := at + 1;
      } else if b == 8 || b == 12 || b == LF || b == CR || b == TAB {
        buffer[at] := if b == 8 then 98 else if b == 12 then 102 else if b == LF then 110
                      else if b == CR then 114 else 116;
        at := at + 1;
      } else {
        PutHex(buffer, at, b);
        at := at + 5;
      }
    }
  }

  /** `sprintf(ptr2, "u%04x", token)`. */
  method PutHex(buffer: array<byte>, at: nat, b: cbyte)
    requires at + 6 <= buffer.Length
    modifies buffer
    ensures buffer[..at + 5] == old(buffer[..at]) + [117, 48, 48, LowerHex(b / 16), LowerHex(b % 16)]
  {
    buffer[at], buffer[at + 1], buffer[at + 2] := 117, 48, 48;
    buffer[at + 3], buffer[at + 4], buffer[at + 5] := LowerHex(b / 16), LowerHex(b % 16), 0;
  }

  lemma {:induction false} PlainIsUnescaped(str: CStr)
    requires forall j :: 0 <= j < |str| ==> !NeedsEscape(str[j])
    ensures EscapedAll(str) == str
  {
    if str != [] {
      PlainIsUnescaped(str[1..]);
      assert [str[0]] + str[1..] == str;
    }
  }

  lemma {:induction false} Joined(a: seq<byte>, b: CStr, c: CStr, d: CStr)
    ensures a + b + c + d == a + (b + c + d)
    ensures a + b + c == a + (b + c)
    ensures b + (c + d) == b + c + d
  {
    assert a + b + c == a + (b + c);
    assert a + (b + c) + d == a + (b + c + d);
  }

  /** The text of one element with the separator after it. */
  function ItemText(child: Items, depth: nat, fmt: bool): CStr
    requires child.Item?
  {
    Text(child.value, depth, fmt) + (if child.rest.NoItem? then [] else ItemSep(fmt))
  }

  lemma {:induction false} ItemsUnfold(done: seq<byte>, child: Items, depth: nat, fmt: bool)
    requires child.Item?
    ensures ItemsText(child, depth, fmt) == ItemText(child, depth, fmt) + ItemsText(child.rest, depth, fmt)
    ensures done + ItemsText(child, depth, fmt)
         == done + ItemText(child, depth, fmt) + ItemsText(child.rest, depth, fmt)
  {}

  function MemberText(child: Members, depth: nat, fmt: bool): CStr
    requires child.Member?
  {
    MemberHead(child.name, depth, fmt) + Text(child.value, depth, fmt) + MemberTail(child.rest.NoMember?, fmt)
  }

  lemma {:induction false} MembersUnfold(done: seq<byte>, child: Members, depth: nat, fmt: bool)
    requires child.Member?
    ensures MembersText(child, depth, fmt) == MemberText(child, depth, fmt) + MembersText(child.rest, depth, fmt)
    ensures done + MembersText(child, depth, fmt)
         == done + MemberText(child, depth, fmt) + MembersText(child.rest, depth, fmt)
  {}

  lemma {:induction false} TabsLength(n: nat)
    ensures |Tabs(n)| == n
  {
    if n > 0 {
      TabsLength(n - 1);
    }
  }

  lemma {:induction false} TailLength(last: bool, fmt: bool)
    ensures |MemberTail(last, fmt)| == (if fmt then 1 else 0) + (if last then 0 else 1)
  {}

  lemma {:induction false} EmptyObjectText(depth: nat, fmt: bool)
    ensures |Text(Object(NoMember), depth, fmt)| < (if fmt then depth + 4 else 3)
    ensures |Text(Object(NoMember), depth, fmt)| + 3 >= (if fmt then depth + 4 else 3)
  {
    TabsLength(if depth == 0 then 0 else depth - 1);
  }

  lemma {:induction false} ObjectText(members: Members, depth: nat, fmt: bool)
    requires members.Member?
    ensures Text(Object(members), depth, fmt)
         == [LBRACE] + NewLine(fmt) + MembersText(members, depth + 1, fmt) + (Indent(depth, fmt) + [RBRACE])
    ensures |Indent(depth, fmt)| == if fmt then depth else 0
  {
    TabsLength(depth);
  }

  /** "%d" of an `int` and its terminator fit the 21 bytes asked for. */
  lemma {:induction false} DecimalFits(n: int32)
    ensures |Decimal(n)| <= 11
    ensures |Decimal(0)| == 1
  {
    DigitsFit(if n < 0 then 0 - (n as int) else n, 10);
  }

  lemma {:induction false} DigitsFit(n: nat, k: nat)
    requires k > 0 && n < Pow10(k)
    ensures |Digits(n)| <= k
  {
    if n >= 10 {
      DigitsFit(n / 10, k - 1);
    }
  }

  function Pow10(k: nat): nat {
    if k == 0 then 1 else 10 * Pow10(k - 1)
  }
}
