/**
  The layout of formatted JSON text, as a rule on the bytes of the unformatted
  text: where it has line feeds, tabs and spaces, and how many.
 */
module JsonLayout {
  import opened JsonText
  import opened JsonMinify
  import opened Options

  /** What is open around a place in the text: true for an object. */
  type Nesting = seq<bool>

  /** A new line, indented by one tab for each thing open. */
  function Line(open: nat): (r: CStr)
    ensures |r| == open + 1
  {
    [0x0A] + seq(open, _ => 0x09)
  }

  predicate InObject(open: Nesting) {
    open != [] && open[|open| - 1]
  }

  function Closed(open: Nesting): Nesting {
    if open == [] then [] else open[..|open| - 1]
  }

  /** What the layout makes of one byte outside literals. */
  function Laid(b: cbyte, open: Nesting): CStr {
    if b == 0x7B then [b] + Line(|open| + 1)
    else if b == 0x7D then Line(|Closed(open)|) + [b]
    else if b == 0x2C then if InObject(open) then [b] + Line(|open|) else [b, 0x20]
    else if b == 0x3A then [b, 0x09]
    else [b]
  }

  function Opened(b: cbyte, open: Nesting): Nesting {
    if b == 0x7B then open + [true]
    else if b == 0x5B then open + [false]
    else if b == 0x7D || b == 0x5D then Closed(open)
    else open
  }

  /**
    The layout: a new line behind every opening brace and before every closing
    one, behind the commas of an object and a space behind those of an array, a
    tab behind colons.  An empty object breaks the rule: it has one line, and
    one tab less.
   */
  function LaidOut(s: CStr, open: Nesting): CStr
    decreases |s|
  {
    if s == [] then []
    else if s[0] == 0x22 && LiteralLength(s[1..]).Some? then
      var n := LiteralLength(s[1..]).value;
      s[..n + 1] + LaidOut(s[n + 1..], open)
    else if |s| >= 2 && s[0] == 0x7B && s[1] == 0x7D then
      [0x7B] + Line(|Closed(open)|) + [0x7D] + LaidOut(s[2..], open)
    else Laid(s[0], open) + LaidOut(s[1..], Opened(s[0], open))
  }

  // ----- bytes and literals -----

  lemma {:induction false} LaysByte(b: cbyte, post: CStr, open: Nesting)
    requires b != QUOTE && (b == LBRACE && post != [] ==> post[0] != RBRACE)
    ensures LaidOut([b] + post, open) == Laid(b, open) + LaidOut(post, Opened(b, open))
  {
    assert ([b] + post)[1..] == post;
  }

  /** A byte the layout leaves alone. */
  predicate Still(b: cbyte) {
    b !in {QUOTE, LBRACE, RBRACE, LBRACKET, RBRACKET, COMMA, COLON}
  }

  lemma {:induction false} LaysStill(a: CStr, post: CStr, open: Nesting)
    requires forall i :: 0 <= i < |a| ==> Still(a[i])
    ensures LaidOut(a + post, open) == a + LaidOut(post, open)
  {
    hide LaidOut;
    if a == [] {
      Nothing(post);
      Nothing(LaidOut(post, open));
    } else {
      var more := a[1..] + post;
      assert a + post == [a[0]] + more;
      LaysByte(a[0], more, open);
      LaysStill(a[1..], post, open);
      assert a == [a[0]] + a[1..];
    }
  }

  lemma {:induction false} DigitsStill(n: nat)
    ensures forall i :: 0 <= i < |Digits(n)| ==> Still(Digits(n)[i])
  {
    if n >= 10 {
      DigitsStill(n / 10);
    }
  }

  lemma {:induction false} LaysQuoted(str: CStr, post: CStr, open: Nesting)
    ensures LaidOut(Quoted(str) + post, open) == Quoted(str) + LaidOut(post, open)
  {
    EscapedLength(str, post);
    hide EscapedAll, LiteralLength;
    var s, n := Quoted(str) + post, |EscapedAll(str)| + 1;
    assert s[1..] == EscapedAll(str) + ([QUOTE] + post);
    assert s[..n + 1] == Quoted(str) && s[n + 1..] == post;
    LaysLiteral(s, n, open);
  }

  lemma {:induction false} LaysLiteral(s: CStr, n: nat, open: Nesting)
    requires s != [] && s[0] == QUOTE && LiteralLength(s[1..]) == Some(n) && n + 1 <= |s|
    ensures LaidOut(s, open) == s[..n + 1] + LaidOut(s[n + 1..], open)
  {
    hide LiteralLength, Laid, Opened, Line;
  }

  lemma {:induction false} LineIsTabs(n: nat)
    ensures Line(n) == [LF] + Tabs(n)
  {
    TabsCount(n);
  }

  lemma {:induction false} TabsCount(n: nat)
    ensures |Tabs(n)| == n && forall i :: 0 <= i < n ==> Tabs(n)[i] == TAB
  {
    if n > 0 {
      TabsCount(n - 1);
    }
  }

  // ----- values -----

  lemma {:induction false} Joined(a: CStr, b: CStr, c: CStr)
    ensures a + b + c == a + (b + c)
  {}

  /** The formatted text of a value is its unformatted text, laid out. */
  lemma {:induction false} LaysText(t: Json, open: Nesting, post: CStr)
    ensures LaidOut(Text(t, |open|, false) + post, open) == Text(t, |open|, true) + LaidOut(post, open)
    decreases t, 2
  {
    match t
    case Null => LaysStill(NULL_TEXT, post, open);
    case False => LaysStill(FALSE_TEXT, post, open);
    case True => LaysStill(TRUE_TEXT, post, open);
    case Number(n) =>
      DigitsStill(if n < 0 then 0 - (n as int) else n);
      LaysStill(Decimal(n), post, open);
    case String(str) => LaysQuoted(str, post, open);
    case Array(items) => LaysArray(items, open, post);
    case Object(members) =>
      if members.NoMember? {
        LaysEmpty(open, post);
      } else {
        LaysObject(members, open, post);
      }
  }

  lemma {:induction false} LaysArray(items: Items, open: Nesting, post: CStr)
    ensures LaidOut(Text(Array(items), |open|, false) + post, open)
         == Text(Array(items), |open|, true) + LaidOut(post, open)
    decreases items, 1
  {
    hide LaidOut;
    var inside := open + [false];
    var a, b := ItemsText(items, |inside|, false), ItemsText(items, |inside|, true);
    assert Text(Array(items), |open|, false) + post == [LBRACKET] + (a + ([RBRACKET] + post));
    LaysByte(LBRACKET, a + ([RBRACKET] + post), open);
    LaysItems(items, inside, [RBRACKET] + post);
    LaysByte(RBRACKET, post, inside);
    assert Closed(inside) == open;
    assert Text(Array(items), |open|, true) == [LBRACKET] + b + [RBRACKET];
    Joined([LBRACKET], b, [RBRACKET]);
    Joined([LBRACKET] + b, [RBRACKET], LaidOut(post, open));
    Joined([LBRACKET], b, [RBRACKET] + LaidOut(post, open));
  }

  lemma {:induction false} LaysItems(items: Items, open: Nesting, post: CStr)
    requires !InObject(open)
    ensures LaidOut(ItemsText(items, |open|, false) + post, open)
         == ItemsText(items, |open|, true) + LaidOut(post, open)
    decreases items, 0
  {
    hide LaidOut;
    if items.NoItem? {
      Nothing(post);
      Nothing(LaidOut(post, open));
    } else if items.rest.NoItem? {
      LaysText(items.value, open, post);
    } else {
      var a, b := Text(items.value, |open|, false), Text(items.value, |open|, true);
      var more, laid := ItemsText(items.rest, |open|, false), ItemsText(items.rest, |open|, true);
      LaysText(items.value, open, [COMMA] + (more + post));
      LaysByte(COMMA, more + post, open);
      LaysItems(items.rest, open, post);
      Four(a, [COMMA], more, post);
      Four(b, [COMMA, SPACE], laid, LaidOut(post, open));
    }
  }

  lemma {:induction false} Nothing(s: CStr)
    ensures [] + s == s
  {}

  lemma {:induction false} Four(a: CStr, b: CStr, c: CStr, d: CStr)
    ensures a + b + c + d == a + (b + (c + d))
  {}

  lemma {:induction false} LaysEmpty(open: Nesting, post: CStr)
    ensures LaidOut(Text(Object(NoMember), |open|, false) + post, open)
         == Text(Object(NoMember), |open|, true) + LaidOut(post, open)
  {
    var s := [LBRACE, RBRACE] + post;
    assert Text(Object(NoMember), |open|, false) + post == s && s[2..] == post;
    LineIsTabs(|Closed(open)|);
    assert Text(Object(NoMember), |open|, true) == [LBRACE] + Line(|Closed(open)|) + [RBRACE];
  }

  lemma {:induction false} LaysObject(members: Members, open: Nesting, post: CStr)
    requires members.Member?
    ensures LaidOut(Text(Object(members), |open|, false) + post, open)
         == Text(Object(members), |open|, true) + LaidOut(post, open)
    decreases members, 2
  {
    hide *;
    var inside := open + [true];
    var a, b := MembersText(members, |inside|, false), MembersText(members, |inside|, true);
    var rest := a + ([RBRACE] + post);
    ObjectText(members, |open|, post);
    ObjectOpens(members, open, [RBRACE] + post);
    ClosedAgain(open);
    LaysMembers(members, inside, post);
    LineIsTabs(|inside|);
    BraceLine(Tabs(|inside|), LaidOut(rest, inside));
    Braces(b, Tabs(|inside|) + LaidOut(rest, inside), Tabs(|open|), LaidOut(post, open));
  }

  lemma {:induction false} ClosedAgain(open: Nesting)
    ensures Closed(open + [true]) == open && InObject(open + [true])
  {}

  lemma {:induction false} ObjectText(members: Members, n: nat, post: CStr)
    requires members.Member?
    ensures Text(Object(members), n, false) + post
         == [LBRACE] + (MembersText(members, n + 1, false) + ([RBRACE] + post))
    ensures Text(Object(members), n, true) == [LBRACE] + [LF] + MembersText(members, n + 1, true) + Tabs(n) + [RBRACE]
  {
    var a := MembersText(members, n + 1, false);
    assert Text(Object(members), n, false) == [LBRACE] + [] + a + [] + [RBRACE];
    hide *;
    assert [LBRACE] + [] + a + [] + [RBRACE] + post == [LBRACE] + (a + ([RBRACE] + post));
  }

  /** An object that is not empty begins with a quote. */
  lemma {:induction false} ObjectOpens(members: Members, open: Nesting, end: CStr)
    requires members.Member?
    ensures var rest := MembersText(members, |open| + 1, false) + end;
            LaidOut([LBRACE] + rest, open)
            == [LBRACE] + Line(|open| + 1) + LaidOut(rest, open + [true])
  {
    var n := |open| + 1;
    MemberText(members, n, end);
    hide LaidOut, Line, Text, MembersText;
    var rest := MembersText(members, n, false) + end;
    assert rest[0] == Quoted(members.name)[0] == QUOTE;
    LaysByte(LBRACE, rest, open);
  }

  lemma {:induction false} BraceLine(tabs: CStr, rest: CStr)
    ensures [LBRACE] + ([LF] + tabs) + rest == [LBRACE] + ([LF] + (tabs + rest))
  {}

  lemma {:induction false} Braces(b: CStr, inside: CStr, tabs: CStr, post: CStr)
    requires inside == b + (tabs + [RBRACE] + post)
    ensures [LBRACE] + ([LF] + inside) == [LBRACE] + [LF] + b + tabs + [RBRACE] + post
  {}

  /** The members with the closing brace, from the indentation of the first on. */
  lemma {:induction false} LaysMembers(members: Members, open: Nesting, post: CStr)
    requires members.Member? && InObject(open)
    ensures Tabs(|open|) + LaidOut(MembersText(members, |open|, false) + ([RBRACE] + post), open)
         == MembersText(members, |open|, true) + (Tabs(|Closed(open)|) + [RBRACE] + LaidOut(post, Closed(open)))
    decreases members, 1
  {
    if members.rest.NoMember? {
      LaysLast(members, open, post);
    } else {
      LaysNext(members, open, post);
    }
  }

  lemma {:induction false} LaysComma(post: CStr, open: Nesting)
    requires InObject(open)
    ensures LaidOut([COMMA] + post, open) == [COMMA] + Line(|open|) + LaidOut(post, open)
  {
    hide LaidOut, Line;
    LaysByte(COMMA, post, open);
  }

  lemma {:induction false} LaysBrace(post: CStr, open: Nesting)
    ensures LaidOut([RBRACE] + post, open)
         == Line(|Closed(open)|) + [RBRACE] + LaidOut(post, Closed(open))
  {
    hide LaidOut, Line;
    LaysByte(RBRACE, post, open);
  }

  lemma {:induction false} LaysLast(members: Members, open: Nesting, post: CStr)
    requires members.Member? && members.rest.NoMember?
    ensures Tabs(|open|) + LaidOut(MembersText(members, |open|, false) + ([RBRACE] + post), open)
         == MembersText(members, |open|, true) + (Tabs(|Closed(open)|) + [RBRACE] + LaidOut(post, Closed(open)))
    decreases members, 0
  {
    hide *;
    var n, end := |open|, [RBRACE] + post;
    var w := Text(members.value, n, true);
    MemberText(members, n, end);
    Nothing(end);
    LaysNamed(members.name, members.value, open, end);
    LaysBrace(post, open);
    LineIsTabs(|Closed(open)|);
    LastMember(Tabs(n), Quoted(members.name), w, Tabs(|Closed(open)|), LaidOut(post, Closed(open)));
  }

  lemma {:induction false} LaysNext(members: Members, open: Nesting, post: CStr)
    requires members.Member? && members.rest.Member? && InObject(open)
    ensures Tabs(|open|) + LaidOut(MembersText(members, |open|, false) + ([RBRACE] + post), open)
         == MembersText(members, |open|, true) + (Tabs(|Closed(open)|) + [RBRACE] + LaidOut(post, Closed(open)))
    decreases members, 0
  {
    hide *;
    var n, end := |open|, [RBRACE] + post;
    var rest := MembersText(members.rest, n, false) + end;
    MemberText(members, n, end);
    LaysNamed(members.name, members.value, open, [COMMA] + rest);
    LaysComma(rest, open);
    LineIsTabs(n);
    LaysMembers(members.rest, open, post);
    NextMember(Tabs(n), Quoted(members.name), Text(members.value, n, true), LaidOut(rest, open),
               MembersText(members.rest, n, true),
               Tabs(|Closed(open)|) + [RBRACE] + LaidOut(post, Closed(open)));
  }

  lemma {:induction false} HeadText(name: CStr, n: nat)
    ensures MemberHead(name, n, false) == Quoted(name) + [COLON]
    ensures MemberHead(name, n, true) == Tabs(n) + Quoted(name) + [COLON, TAB]
  {
    hide Quoted, Tabs;
    Nothing(Quoted(name));
  }

  lemma {:induction false} TailText(last: bool)
    ensures MemberTail(last, false) == if last then [] else [COMMA]
    ensures MemberTail(last, true) == if last then [LF] else [COMMA, LF]
  {}

  lemma {:induction false} FirstMember(members: Members, n: nat, fmt: bool)
    requires members.Member?
    ensures MembersText(members, n, fmt)
         == MemberHead(members.name, n, fmt) + Text(members.value, n, fmt)
            + MemberTail(members.rest.NoMember?, fmt) + MembersText(members.rest, n, fmt)
    ensures members.rest.NoMember? ==> MembersText(members.rest, n, fmt) == []
  {
    hide MemberHead, MemberTail, Text;
  }

  lemma {:induction false} MembersJoined(q: CStr, colon: CStr, v: CStr, comma: CStr, more: CStr, end: CStr)
    ensures q + colon + v + comma + more + end == q + (colon + (v + (comma + (more + end))))
  {}

  /** The text of the first member and what follows, unformatted and formatted. */
  lemma {:induction false} MemberText(members: Members, n: nat, end: CStr)
    requires members.Member?
    ensures var q, v, w := Quoted(members.name), Text(members.value, n, false), Text(members.value, n, true);
            var more, laid := MembersText(members.rest, n, false), MembersText(members.rest, n, true);
            var comma := if members.rest.NoMember? then [] else [COMMA];
            && MembersText(members, n, false) + end == q + ([COLON] + (v + (comma + (more + end))))
            && MembersText(members, n, true) == Tabs(n) + q + [COLON, TAB] + w + (comma + [LF]) + laid
            && (members.rest.NoMember? ==> more == [] && laid == [])
  {
    FirstMember(members, n, false);
    FirstMember(members, n, true);
    HeadText(members.name, n);
    TailText(members.rest.NoMember?);
    hide *;
    var comma := if members.rest.NoMember? then [] else [COMMA];
    MembersJoined(Quoted(members.name), [COLON], Text(members.value, n, false), comma,
                  MembersText(members.rest, n, false), end);
  }

  lemma {:induction false} LaysNamed(name: CStr, v: Json, open: Nesting, post: CStr)
    ensures LaidOut(Quoted(name) + ([COLON] + (Text(v, |open|, false) + post)), open)
         == Quoted(name) + ([COLON, TAB] + (Text(v, |open|, true) + LaidOut(post, open)))
    decreases v, 3
  {
    hide LaidOut, Quoted, Text;
    var rest := Text(v, |open|, false) + post;
    LaysQuoted(name, [COLON] + rest, open);
    LaysByte(COLON, rest, open);
    LaysText(v, open, post);
  }

  lemma {:induction false} LastMember(tabs: CStr, q: CStr, w: CStr, tabs': CStr, post: CStr)
    ensures tabs + (q + ([COLON, TAB] + (w + ([LF] + tabs' + [RBRACE] + post))))
         == tabs + q + [COLON, TAB] + w + ([] + [LF]) + [] + (tabs' + [RBRACE] + post)
  {
    Nothing([LF]);
  }

  lemma {:induction false} NextMember(tabs: CStr, q: CStr, w: CStr, more: CStr, laid: CStr, end: CStr)
    requires tabs + more == laid + end
    ensures tabs + (q + ([COLON, TAB] + (w + ([COMMA] + ([LF] + tabs) + more))))
         == tabs + q + [COLON, TAB] + w + ([COMMA] + [LF]) + laid + end
  {
    assert [COMMA] + ([LF] + tabs) + more == [COMMA, LF] + (tabs + more);
    assert [COMMA, LF] + (laid + end) == [COMMA, LF] + laid + end;
  }

  /** `cJSON_Print` is `cJSON_PrintUnformatted`, laid out. */
  lemma {:induction false} PrintIsLaidOut(t: Json)
    ensures Text(t, 0, true) == LaidOut(Text(t, 0, false), [])
  {
    LaysText(t, [], []);
    assert Text(t, 0, false) + [] == Text(t, 0, false) && Text(t, 0, true) + [] == Text(t, 0, true);
    assert LaidOut([], []) == [];
  }

  // ----- strings -----

  lemma {:induction false} EscapedSize(str: CStr)
    ensures |EscapedAll(str)| >= |str|
    ensures |EscapedAll(str)| == |str|
       <==> forall i :: 0 <= i < |str| ==> str[i] >= 32 && str[i] != 0x22 && str[i] != 0x5C
    ensures |EscapedAll(str)| == |str| ==> EscapedAll(str) == str
  {
    if str != [] {
      EscapedSize(str[1..]);
      assert forall i :: 0 < i < |str| ==> str[i] == str[1..][i - 1];
      assert str == [str[0]] + str[1..];
    }
  }

  /** A string is printed as it is if and only if it has no control bytes, quotes and backslashes. */
  lemma {:induction false} PrintedAsItIs(str: CStr)
    ensures Quoted(str) == [0x22] + str + [0x22]
       <==> forall i :: 0 <= i < |str| ==> str[i] >= 32 && str[i] != 0x22 && str[i] != 0x5C
  {
    EscapedSize(str);
    assert Quoted(str)[1..|Quoted(str)| - 1] == EscapedAll(str);
    assert ([0x22] + str + [0x22])[1..|str| + 1] == str;
  }
}
