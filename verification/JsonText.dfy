/**
  JSON values and the text cJSON prints for them.

  Values are trees: a `cJSON` node with its `child` chain becomes a datatype
  whose chains (`Items`, `Members`) keep the order of the `next` links.
  `Text` is the reference for both printers.
 */
module JsonText {
  import Unicode

  type byte = Unicode.byte

  /** A byte of a C string before its terminator. */
  type cbyte = b: int | 0 < b < 256 witness 1

  type CStr = seq<cbyte>

  type int32 = n: int | -0x8000_0000 <= n < 0x8000_0000

  datatype Json =
    | Null
    | False
    | True
    | Number(n: int32)
    | String(s: CStr)
    | Array(items: Items)
    | Object(members: Members)

  datatype Items = NoItem | Item(value: Json, rest: Items)

  datatype Members = NoMember | Member(name: CStr, value: Json, rest: Members)

  const TAB: cbyte := 9
  const LF: cbyte := 10
  const CR: cbyte := 13
  const SPACE: cbyte := 32
  const QUOTE: cbyte := 34
  const STAR: cbyte := 42
  const COMMA: cbyte := 44
  const MINUS: cbyte := 45
  const SLASH: cbyte := 47
  const COLON: cbyte := 58
  const LBRACKET: cbyte := 91
  const BACKSLASH: cbyte := 92
  const RBRACKET: cbyte := 93
  const LBRACE: cbyte := 123
  const RBRACE: cbyte := 125

  const NULL_TEXT: CStr := [110, 117, 108, 108]
  const TRUE_TEXT: CStr := [116, 114, 117, 101]
  const FALSE_TEXT: CStr := [102, 97, 108, 115, 101]

  // ----- numbers: the "%d" format -----

  function Digits(n: nat): CStr {
    if n < 10 then [48 + n] else Digits(n / 10) + [48 + n % 10]
  }

  function Decimal(n: int): CStr {
    if n < 0 then [MINUS] + Digits(-n) else Digits(n)
  }

  // ----- strings -----

  /** A digit of "%04x". */
  function LowerHex(v: nat): cbyte
    requires v < 16
  {
    if v < 10 then 48 + v else 87 + v
  }

  predicate NeedsEscape(b: cbyte) {
    b < 32 || b == QUOTE || b == BACKSLASH
  }

  function Escaped(b: cbyte): CStr {
    if b == BACKSLASH || b == QUOTE then [BACKSLASH, b]
    else if b == 8 then [BACKSLASH, 98]
    else if b == 12 then [BACKSLASH, 102]
    else if b == LF then [BACKSLASH, 110]
    else if b == CR then [BACKSLASH, 114]
    else if b == TAB then [BACKSLASH, 116]
    else if b < 32 then [BACKSLASH, 117, 48, 48, LowerHex(b / 16), LowerHex(b % 16)]
    else [b]
  }

  function EscapedAll(s: CStr): CStr {
    if s == [] then [] else Escaped(s[0]) + EscapedAll(s[1..])
  }

  function Quoted(s: CStr): CStr {
    [QUOTE] + EscapedAll(s) + [QUOTE]
  }

  // ----- values -----

  function Tabs(n: nat): CStr {
    if n == 0 then [] else [TAB] + Tabs(n - 1)
  }

  function Indent(n: nat, fmt: bool): CStr {
    if fmt then Tabs(n) else []
  }

  function NewLine(fmt: bool): CStr {
    if fmt then [LF] else []
  }

  function ItemSep(fmt: bool): CStr {
    if fmt then [COMMA, SPACE] else [COMMA]
  }

  function NameSep(fmt: bool): CStr {
    if fmt then [COLON, TAB] else [COLON]
  }

  function Text(t: Json, depth: nat, fmt: bool): CStr
    decreases t
  {
    match t
    case Null => NULL_TEXT
    case False => FALSE_TEXT
    case True => TRUE_TEXT
    case Number(n) => Decimal(n)
    case String(s) => Quoted(s)
    case Array(items) => [LBRACKET] + ItemsText(items, depth + 1, fmt) + [RBRACKET]
    case Object(NoMember) =>
      [LBRACE] + NewLine(fmt) + Indent(if depth == 0 then 0 else depth - 1, fmt) + [RBRACE]
    case Object(members) =>
      [LBRACE] + NewLine(fmt) + MembersText(members, depth + 1, fmt) + Indent(depth, fmt) + [RBRACE]
  }

  function ItemsText(items: Items, depth: nat, fmt: bool): CStr
    decreases items
  {
    match items
    case NoItem => []
    case Item(v, NoItem) => Text(v, depth, fmt)
    case Item(v, rest) => Text(v, depth, fmt) + ItemSep(fmt) + ItemsText(rest, depth, fmt)
  }

  function MemberHead(name: CStr, depth: nat, fmt: bool): CStr {
    Indent(depth, fmt) + Quoted(name) + NameSep(fmt)
  }

  function MemberTail(last: bool, fmt: bool): CStr {
    (if last then [] else [COMMA]) + NewLine(fmt)
  }

  function MembersText(members: Members, depth: nat, fmt: bool): CStr
    decreases members
  {
    match members
    case NoMember => []
    case Member(name, v, rest) =>
      MemberHead(name, depth, fmt) + Text(v, depth, fmt) + MemberTail(rest.NoMember?, fmt)
      + MembersText(rest, depth, fmt)
  }
}
