/**
  `cJSON_Minify`: what it does to a text, that it turns formatted text into
  unformatted text, and the loop that does it in place.
 */
module JsonMinify {
  import opened JsonText
  import opened JsonGrammar
  import opened Options

  predicate Blank(b: byte) {
    b == SPACE || b == TAB || b == CR || b == LF
  }

  function Keep(out: CStr, r: Option<CStr>): Option<CStr> {
    if r.Some? then Some(out + r.value) else None
  }

  /** From a `//` comment: the text from the line feed, or nothing. */
  function LineEnd(s: CStr): (r: CStr)
    ensures |r| <= |s|
    ensures s != [] && s[0] != LF ==> |r| < |s|
  {
    if s != [] && s[0] != LF then LineEnd(s[1..]) else s
  }

  /** The text after the first star and slash, if there is one. */
  function CommentEnd(s: CStr): (r: Option<CStr>)
    ensures r.Some? ==> |r.value| < |s|
  {
    if s == [] then None
    else if s[0] == STAR && Head(s[1..]) == SLASH then Some(s[2..])
    else CommentEnd(s[1..])
  }

  /** How many bytes a string literal has after its opening quote, the closing quote included. */
  function LiteralLength(s: CStr): (r: Option<nat>)
    ensures r.Some? ==> 1 <= r.value <= |s|
  {
    if s == [] then None
    else if s[0] == QUOTE then Some(1)
    else
      var n := if s[0] == BACKSLASH then 2 else 1;
      if |s| < n then None
      else
        var more := LiteralLength(s[n..]);
        if more.Some? then Some(n + more.value) else None
  }

  /** The minified text; `None` where the scan leaves the text: an unclosed literal or comment. */
  function Minified(s: CStr): (r: Option<CStr>)
    ensures r.Some? ==> |r.value| <= |s|
    decreases |s|
  {
    if s == [] then Some([])
    else if Blank(s[0]) then Minified(s[1..])
    else if s[0] == SLASH && Head(s[1..]) == SLASH then Minified(LineEnd(s))
    else if s[0] == SLASH && Head(s[1..]) == STAR then
      match CommentEnd(s)
      case None => None
      case Some(rest) => Minified(rest)
    else if s[0] == QUOTE then
      match LiteralLength(s[1..])
      case None => None
      case Some(n) => Keep(s[..n + 1], Minified(s[n + 1..]))
    else Keep([s[0]], Minified(s[1..]))
  }

  // ----- what closes a literal or a comment -----

  /** How many backslashes stand in a row right before position `k`. */
  function Backslashes(s: CStr, k: nat): (n: nat)
    requires k <= |s|
    ensures n <= k
  {
    if k > 0 && s[k - 1] == BACKSLASH then 1 + Backslashes(s, k - 1) else 0
  }

  /** A quote that is not escaped: the backslashes before it escape one another. */
  predicate Closes(s: CStr, k: nat) {
    k < |s| && s[k] == QUOTE && Backslashes(s, k) % 2 == 0
  }

  lemma {:induction false} BackslashesAfterByte(s: CStr, k: nat)
    requires k < |s| && s[0] != BACKSLASH
    ensures Backslashes(s, k + 1) == Backslashes(s[1..], k)
  {
    if k > 0 {
      BackslashesAfterByte(s, k - 1);
    }
  }

  lemma {:induction false} BackslashesAfterEscape(s: CStr, k: nat)
    requires k + 1 < |s| && s[0] == BACKSLASH
    ensures Backslashes(s, k + 2) % 2 == Backslashes(s[2..], k) % 2
  {
    if k == 0 {
      assert Backslashes(s, 1) == 1;
    } else {
      BackslashesAfterEscape(s, k - 1);
    }
  }

  /** Behind the first byte or escape the same quotes close. */
  lemma {:induction false} ClosesLater(s: CStr, n: nat, k: nat)
    requires s != [] && s[0] != QUOTE && n == (if s[0] == BACKSLASH then 2 else 1) <= |s|
    ensures Closes(s[n..], k) <==> Closes(s, n + k)
  {
    if n + k < |s| {
      if n == 2 {
        BackslashesAfterEscape(s, k);
      } else {
        BackslashesAfterByte(s, k);
      }
    }
  }

  /** Neither the bytes of the first byte or escape close. */
  lemma {:induction false} ClosesNotYet(s: CStr, k: nat)
    requires s != [] && s[0] != QUOTE && k < if s[0] == BACKSLASH then 2 else 1
    ensures !Closes(s, k)
  {
    if k == 1 && k < |s| {
      assert Backslashes(s, 0) == 0 && Backslashes(s, 1) == 1;
    }
  }

  /** A literal ends at the first quote that is not escaped, and is unclosed if there is none. */
  lemma {:induction false} ClosingQuote(s: CStr)
    ensures match LiteralLength(s)
            case Some(n) => Closes(s, n - 1) && forall k: nat :: k < n - 1 ==> !Closes(s, k)
            case None => forall k: nat :: !Closes(s, k)
    decreases |s|
  {
    if s != [] && s[0] != QUOTE {
      var n := if s[0] == BACKSLASH then 2 else 1;
      forall k: nat | k < n ensures !Closes(s, k) {
        ClosesNotYet(s, k);
      }
      if n <= |s| {
        ClosingQuote(s[n..]);
        forall k: nat | k >= n ensures Closes(s, k) <==> Closes(s[n..], k - n) {
          ClosesLater(s, n, k - n);
        }
      }
    }
  }

  /** A star with a slash behind it. */
  predicate ClosesComment(s: CStr, k: nat) {
    k + 1 < |s| && s[k] == STAR && s[k + 1] == SLASH
  }

  /** A block comment ends behind the first star and slash, and is unclosed if there are none. */
  lemma {:induction false} ClosingStar(s: CStr)
    ensures match CommentEnd(s)
            case Some(rest) =>
              exists k: nat ::
                ClosesComment(s, k) && rest == s[k + 2..] && forall j: nat :: j < k ==> !ClosesComment(s, j)
            case None => forall k: nat :: !ClosesComment(s, k)
    decreases |s|
  {
    if s != [] {
      if s[0] == STAR && Head(s[1..]) == SLASH {
        assert ClosesComment(s, 0);
      } else {
        ClosingStar(s[1..]);
        assert !ClosesComment(s, 0);
        forall k: nat ensures ClosesComment(s[1..], k) <==> ClosesComment(s, k + 1) {}
        forall k: nat | k > 0 ensures ClosesComment(s, k) <==> ClosesComment(s[1..], k - 1) {}
        if CommentEnd(s).Some? {
          var k: nat :| ClosesComment(s[1..], k) && CommentEnd(s).value == s[1..][k + 2..]
                        && forall j: nat :: j < k ==> !ClosesComment(s[1..], j);
          assert ClosesComment(s, k + 1) && s[1..][k + 2..] == s[k + 1 + 2..];
        }
      }
    }
  }

  // ----- minifying printed text -----

  /** A byte minifying keeps wherever it stands outside a literal. */
  predicate Solid(b: byte) {
    !Blank(b) && b != SLASH && b != QUOTE
  }

  predicate AllSolid(s: CStr) {
    forall i :: 0 <= i < |s| ==> Solid(s[i])
  }

  /** Wherever it stands outside a literal, `a` is minified to `b`. */
  ghost predicate Shrinks(a: CStr, b: CStr) {
    forall post: CStr {:trigger a + post} :: Minified(a + post) == Keep(b, Minified(post))
  }

  lemma {:induction false} ShrinksBoth(a: CStr, b: CStr, c: CStr, d: CStr)
    requires Shrinks(a, b) && Shrinks(c, d)
    ensures Shrinks(a + c, b + d)
  {
    forall post: CStr ensures Minified(a + c + post) == Keep(b + d, Minified(post)) {
      assert a + c + post == a + (c + post);
      KeepTwice(b, d, Minified(post));
    }
  }

  lemma {:induction false} KeepTwice(b: CStr, d: CStr, r: Option<CStr>)
    ensures Keep(b, Keep(d, r)) == Keep(b + d, r)
  {
    if r.Some? {
      assert b + (d + r.value) == b + d + r.value;
    }
  }

  lemma {:induction false} KeepNothing(r: Option<CStr>)
    ensures Keep([], r) == r
  {
    if r.Some? {
      assert [] + r.value == r.value;
    }
  }

  lemma {:induction false} ShrinksNothing()
    ensures Shrinks([], [])
  {
    forall post: CStr ensures Minified([] + post) == Keep([], Minified(post)) {
      KeepNothing(Minified(post));
      assert [] + post == post;
    }
  }

  lemma {:induction false} ShrinksByte(b: cbyte)
    ensures Solid(b) ==> Shrinks([b], [b])
    ensures Blank(b) ==> Shrinks([b], [])
  {
    forall post: CStr
      ensures Solid(b) ==> Minified([b] + post) == Keep([b], Minified(post))
      ensures Blank(b) ==> Minified([b] + post) == Keep([], Minified(post))
    {
      KeepNothing(Minified(post));
      assert ([b] + post)[1..] == post;
    }
  }

  lemma {:induction false} ShrinksSolid(s: CStr)
    requires AllSolid(s)
    ensures Shrinks(s, s)
  {
    if s == [] {
      ShrinksNothing();
    } else {
      ShrinksByte(s[0]);
      ShrinksSolid(s[1..]);
      ShrinksBoth([s[0]], [s[0]], s[1..], s[1..]);
      assert [s[0]] + s[1..] == s;
    }
  }

  lemma {:induction false} ShrinksTabs(n: nat)
    ensures Shrinks(Tabs(n), [])
  {
    ShrinksNothing();
    if n > 0 {
      ShrinksByte(TAB);
      ShrinksTabs(n - 1);
      ShrinksBoth([TAB], [], Tabs(n - 1), []);
      var none: CStr := [];
      assert none + none == none;
    }
  }

  lemma {:induction false} ShrinksLayout(fmt: bool, n: nat)
    ensures Shrinks(Indent(n, fmt), Indent(n, false))
    ensures Shrinks(NewLine(fmt), NewLine(false))
  {
    ShrinksTabs(n);
    ShrinksByte(LF);
    ShrinksNothing();
  }

  lemma {:induction false} ShrinksSeparators(fmt: bool)
    ensures Shrinks(ItemSep(fmt), ItemSep(false))
    ensures Shrinks(NameSep(fmt), NameSep(false))
  {
    ShrinksByte(COMMA);
    ShrinksByte(COLON);
    ShrinksByte(SPACE);
    ShrinksByte(TAB);
    ShrinksBoth([COMMA], [COMMA], [SPACE], []);
    ShrinksBoth([COLON], [COLON], [TAB], []);
    assert [COMMA] + [] == [COMMA] && [COLON] + [] == [COLON];
    assert [COMMA] + [SPACE] == ItemSep(true) && [COLON] + [TAB] == NameSep(true);
  }

  lemma {:induction false} EscapedFirst(str: CStr, post: CStr)
    requires str != []
    ensures EscapedAll(str) == Escaped(str[0]) + EscapedAll(str[1..])
    ensures EscapedAll(str) + post == Escaped(str[0]) + (EscapedAll(str[1..]) + post)
  {
    var a, b := Escaped(str[0]), EscapedAll(str[1..]);
    assert a + b + post == a + (b + post);
  }

  lemma {:induction false} EscapedLength(str: CStr, post: CStr)
    ensures LiteralLength(EscapedAll(str) + ([QUOTE] + post)) == Some(|EscapedAll(str)| + 1)
  {
    if str == [] {
      assert EscapedAll(str) + ([QUOTE] + post) == [QUOTE] + post;
    } else {
      EscapedLength(str[1..], post);
      EscapedFirst(str, [QUOTE] + post);
      EscapeLength(str[0], EscapedAll(str[1..]) + ([QUOTE] + post));
    }
  }

  lemma {:induction false} EscapeLength(b: cbyte, more: CStr)
    requires LiteralLength(more).Some?
    ensures LiteralLength(Escaped(b) + more) == Some(|Escaped(b)| + LiteralLength(more).value)
  {
    EscapedShape(b);
    if NeedsEscape(b) {
      EscapePairLength(Escaped(b), more);
    } else {
      PlainLength(Escaped(b), more);
    }
  }

  lemma {:induction false} EscapePairLength(e: CStr, more: CStr)
    requires |e| >= 2 && e[0] == BACKSLASH && forall i :: 2 <= i < |e| ==> e[i] != QUOTE && e[i] != BACKSLASH
    requires LiteralLength(more).Some?
    ensures LiteralLength(e + more) == Some(|e| + LiteralLength(more).value)
  {
    var tail := e[2..];
    PlainLength(tail, more);
    AfterBackslash(e[1], tail + more);
    assert e + more == [BACKSLASH, e[1]] + (tail + more);
  }

  lemma {:induction false} EscapedShape(b: cbyte)
    ensures var e := Escaped(b);
            if NeedsEscape(b)
            then |e| >= 2 && e[0] == BACKSLASH && forall i :: 2 <= i < |e| ==> e[i] != QUOTE && e[i] != BACKSLASH
            else e == [b]
  {}

  lemma {:induction false} AfterBackslash(b: cbyte, more: CStr)
    requires LiteralLength(more).Some?
    ensures LiteralLength([BACKSLASH, b] + more) == Some(2 + LiteralLength(more).value)
  {
    assert ([BACKSLASH, b] + more)[2..] == more;
  }

  lemma {:induction false} PlainLength(p: CStr, more: CStr)
    requires forall i :: 0 <= i < |p| ==> p[i] != QUOTE && p[i] != BACKSLASH
    requires LiteralLength(more).Some?
    ensures LiteralLength(p + more) == Some(|p| + LiteralLength(more).value)
  {
    if p == [] {
      assert p + more == more;
    } else {
      assert (p + more)[1..] == p[1..] + more;
      PlainLength(p[1..], more);
    }
  }

  lemma {:induction false} ShrinksQuoted(str: CStr)
    ensures Shrinks(Quoted(str), Quoted(str))
  {
    forall post: CStr ensures Minified(Quoted(str) + post) == Keep(Quoted(str), Minified(post)) {
      hide Minified, LiteralLength, EscapedAll;
      EscapedLength(str, post);
      LiteralAround(EscapedAll(str), post);
    }
  }

  /** A closed literal is kept as it is written. */
  lemma {:induction false} LiteralAround(body: CStr, post: CStr)
    requires LiteralLength(body + ([QUOTE] + post)) == Some(|body| + 1)
    ensures Minified([QUOTE] + body + [QUOTE] + post) == Keep([QUOTE] + body + [QUOTE], Minified(post))
  {
    var s := [QUOTE] + body + [QUOTE] + post;
    var n := |body| + 1;
    assert s[1..] == body + ([QUOTE] + post);
    assert s[..n + 1] == [QUOTE] + body + [QUOTE] && s[n + 1..] == post;
    hide LiteralLength;
    LiteralFirst(s, n, post);
  }

  lemma {:induction false} LiteralFirst(s: CStr, n: nat, post: CStr)
    requires s != [] && s[0] == QUOTE && LiteralLength(s[1..]) == Some(n) && n + 1 <= |s| && s[n + 1..] == post
    ensures Minified(s) == Keep(s[..n + 1], Minified(post))
  {
    hide LiteralLength;
  }

  lemma {:induction false} DigitsSolid(n: nat)
    ensures AllSolid(Digits(n))
  {
    if n >= 10 {
      DigitsSolid(n / 10);
    }
  }

  /** Minifying printed text, formatted or not, keeps exactly the unformatted text. */
  lemma {:induction false} ShrinksText(t: Json, depth: nat, fmt: bool)
    ensures Shrinks(Text(t, depth, fmt), Text(t, depth, false))
    decreases t, 1
  {
    match t
    case Null => ShrinksSolid(NULL_TEXT);
    case False => ShrinksSolid(FALSE_TEXT);
    case True => ShrinksSolid(TRUE_TEXT);
    case Number(n) =>
      DigitsSolid(if n < 0 then 0 - (n as int) else n);
      ShrinksSolid(Decimal(n));
    case String(str) => ShrinksQuoted(str);
    case Array(items) =>
      var a, b := ItemsText(items, depth + 1, fmt), ItemsText(items, depth + 1, false);
      ShrinksItems(items, depth + 1, fmt);
      ShrinksByte(LBRACKET);
      ShrinksByte(RBRACKET);
      ShrinksBoth([LBRACKET], [LBRACKET], a, b);
      ShrinksBoth([LBRACKET] + a, [LBRACKET] + b, [RBRACKET], [RBRACKET]);
    case Object(members) => ShrinksObject(members, depth, fmt);
  }

  lemma {:induction false} ShrinksItems(items: Items, depth: nat, fmt: bool)
    ensures Shrinks(ItemsText(items, depth, fmt), ItemsText(items, depth, false))
    decreases items, 0
  {
    if items.NoItem? {
      ShrinksNothing();
    } else {
      ShrinksText(items.value, depth, fmt);
      if items.rest.Item? {
        var a, b := Text(items.value, depth, fmt), Text(items.value, depth, false);
        ShrinksSeparators(fmt);
        ShrinksItems(items.rest, depth, fmt);
        ShrinksBoth(a, b, ItemSep(fmt), ItemSep(false));
        ShrinksBoth(a + ItemSep(fmt), b + ItemSep(false),
                    ItemsText(items.rest, depth, fmt), ItemsText(items.rest, depth, false));
      }
    }
  }

  /** `[LBRACE] + NewLine + members + Indent + [RBRACE]`, for whichever members text and indentation. */
  lemma {:induction false} ShrinksBraces(fmt: bool, d: nat, a: CStr, b: CStr)
    requires Shrinks(a, b)
    ensures Shrinks([LBRACE] + NewLine(fmt) + a + Indent(d, fmt) + [RBRACE],
                    [LBRACE] + NewLine(false) + b + Indent(d, false) + [RBRACE])
  {
    ShrinksByte(LBRACE);
    ShrinksByte(RBRACE);
    ShrinksLayout(fmt, d);
    ShrinksBoth([LBRACE], [LBRACE], NewLine(fmt), NewLine(false));
    ShrinksBoth([LBRACE] + NewLine(fmt), [LBRACE] + NewLine(false), a, b);
    ShrinksBoth([LBRACE] + NewLine(fmt) + a, [LBRACE] + NewLine(false) + b, Indent(d, fmt), Indent(d, false));
    ShrinksBoth([LBRACE] + NewLine(fmt) + a + Indent(d, fmt), [LBRACE] + NewLine(false) + b + Indent(d, false),
                [RBRACE], [RBRACE]);
  }

  lemma {:induction false} ShrinksObject(members: Members, depth: nat, fmt: bool)
    ensures Shrinks(Text(Object(members), depth, fmt), Text(Object(members), depth, false))
    decreases members, 1
  {
    if members.NoMember? {
      var d := if depth == 0 then 0 else depth - 1;
      ShrinksNothing();
      ShrinksBraces(fmt, d, [], []);
      assert [LBRACE] + NewLine(fmt) + [] == [LBRACE] + NewLine(fmt);
      assert [LBRACE] + NewLine(false) + [] == [LBRACE] + NewLine(false);
    } else {
      ShrinksMembers(members, depth + 1, fmt);
      ShrinksBraces(fmt, depth, MembersText(members, depth + 1, fmt), MembersText(members, depth + 1, false));
    }
  }

  lemma {:induction false} ShrinksMembers(members: Members, depth: nat, fmt: bool)
    ensures Shrinks(MembersText(members, depth, fmt), MembersText(members, depth, false))
    decreases members, 0
  {
    if members.NoMember? {
      ShrinksNothing();
    } else {
      var last := members.rest.NoMember?;
      var a, a' := MemberHead(members.name, depth, fmt), MemberHead(members.name, depth, false);
      var b, b' := Text(members.value, depth, fmt), Text(members.value, depth, false);
      var c, c' := MemberTail(last, fmt), MemberTail(last, false);
      ShrinksHead(members.name, depth, fmt);
      ShrinksText(members.value, depth, fmt);
      ShrinksTail(last, fmt);
      ShrinksMembers(members.rest, depth, fmt);
      ShrinksBoth(a, a', b, b');
      ShrinksBoth(a + b, a' + b', c, c');
      ShrinksBoth(a + b + c, a' + b' + c',
                  MembersText(members.rest, depth, fmt), MembersText(members.rest, depth, false));
    }
  }

  lemma {:induction false} ShrinksHead(name: CStr, depth: nat, fmt: bool)
    ensures Shrinks(MemberHead(name, depth, fmt), MemberHead(name, depth, false))
  {
    var q := Quoted(name);
    ShrinksLayout(fmt, depth);
    ShrinksQuoted(name);
    ShrinksSeparators(fmt);
    ShrinksBoth(Indent(depth, fmt), Indent(depth, false), q, q);
    ShrinksBoth(Indent(depth, fmt) + q, Indent(depth, false) + q, NameSep(fmt), NameSep(false));
  }

  lemma {:induction false} ShrinksTail(last: bool, fmt: bool)
    ensures Shrinks(MemberTail(last, fmt), MemberTail(last, false))
  {
    var comma: CStr := if last then [] else [COMMA];
    ShrinksNothing();
    ShrinksByte(COMMA);
    ShrinksLayout(fmt, 0);
    ShrinksBoth(comma, comma, NewLine(fmt), NewLine(false));
  }

  /** `cJSON_Minify` of `cJSON_Print` is `cJSON_PrintUnformatted`; unformatted text is unchanged. */
  lemma {:induction false} MinifyPrinted(t: Json, fmt: bool)
    ensures Minified(Text(t, 0, fmt)) == Some(Text(t, 0, false))
  {
    ShrinksText(t, 0, fmt);
    assert Text(t, 0, fmt) + [] == Text(t, 0, fmt);
    assert Minified(Text(t, 0, fmt) + []) == Keep(Text(t, 0, false), Minified([]));
    assert Text(t, 0, false) + [] == Text(t, 0, false);
  }
}
