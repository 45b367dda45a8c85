/**
  Every text of a JSON value that the code accepts, as a tree of tokens with the
  white space between them, and the theorem that the parser reads each as the
  value it means.  The proper spellings (sections 2 to 7 of RFC 8259) are among
  them.
 */
module JsonSpelling {
  import opened JsonText
  import opened JsonGrammar
  import opened JsonRoundTrip
  import opened JsonEscapes
  import opened JsonNumerals

  /** A value as written; a literal may lack its closing quote. */
  datatype Spelled =
    | NullWord
    | FalseWord
    | TrueWord
    | Integer(numeral: Numeral)
    | Literal(pieces: seq<Piece>, closed: bool)
    | EmptyArray(blank: CStr)
    | Elements(items: SpelledItems)
    | EmptyObject(blank: CStr)
    | Fields(members: SpelledMembers)

  /** An element and the white space on both its sides. */
  datatype SpelledItem = SpelledItem(before: CStr, value: Spelled, after: CStr)

  datatype SpelledItems = LastItem(item: SpelledItem) | MoreItems(item: SpelledItem, rest: SpelledItems)

  /** A name, its value, and the white space around them. */
  datatype SpelledMember =
    SpelledMember(before: CStr, name: seq<Piece>, beforeColon: CStr, afterColon: CStr, value: Spelled, after: CStr)

  datatype SpelledMembers = LastMember(member: SpelledMember) | MoreMembers(member: SpelledMember, rest: SpelledMembers)

  /** White space; the code takes every byte up to the space for it. */
  predicate Blank(s: CStr) {
    forall i :: 0 <= i < |s| ==> s[i] <= 32
  }

  // ----- well-formed spellings -----

  predicate Proper(v: Spelled) {
    match v
    case Integer(numeral) => ProperNumeral(numeral)
    case Literal(pieces, closed) => closed && AllWellFormed(pieces)
    case EmptyArray(blank) => Blank(blank)
    case Elements(items) => ProperItems(items)
    case EmptyObject(blank) => Blank(blank)
    case Fields(members) => ProperMembers(members)
    case _ => true
  }

  predicate ProperItem(item: SpelledItem) {
    Blank(item.before) && Proper(item.value) && Blank(item.after)
  }

  predicate ProperItems(items: SpelledItems) {
    match items
    case LastItem(item) => ProperItem(item)
    case MoreItems(item, rest) => ProperItem(item) && ProperItems(rest)
  }

  predicate ProperMember(m: SpelledMember) {
    && Blank(m.before) && AllWellFormed(m.name) && Blank(m.beforeColon) && Blank(m.afterColon)
    && Proper(m.value) && Blank(m.after)
  }

  predicate ProperMembers(members: SpelledMembers) {
    match members
    case LastMember(member) => ProperMember(member)
    case MoreMembers(member, rest) => ProperMember(member) && ProperMembers(rest)
  }

  // ----- the text, followed by `post` -----

  function LiteralText(pieces: seq<Piece>, closed: bool, post: CStr): CStr {
    [QUOTE] + (SourceAll(pieces) + LiteralEnd(closed, post))
  }

  function Spell(v: Spelled, post: CStr): CStr
    decreases v
  {
    match v
    case NullWord => NULL_TEXT + post
    case FalseWord => FALSE_TEXT + post
    case TrueWord => TRUE_TEXT + post
    case Integer(numeral) => NumeralText(numeral) + post
    case Literal(pieces, closed) => LiteralText(pieces, closed, post)
    case EmptyArray(blank) => [LBRACKET] + (blank + ([RBRACKET] + post))
    case Elements(items) => [LBRACKET] + SpellItems(items, post)
    case EmptyObject(blank) => [LBRACE] + (blank + ([RBRACE] + post))
    case Fields(members) => [LBRACE] + SpellMembers(members, post)
  }

  function SpellItem(item: SpelledItem, post: CStr): CStr
    decreases item
  {
    item.before + Spell(item.value, item.after + post)
  }

  function SpellItems(items: SpelledItems, post: CStr): CStr
    decreases items
  {
    match items
    case LastItem(item) => SpellItem(item, [RBRACKET] + post)
    case MoreItems(item, rest) => SpellItem(item, [COMMA] + SpellItems(rest, post))
  }

  /** A member from its name on. */
  function SpellNamed(m: SpelledMember, post: CStr): CStr
    decreases m, 0
  {
    LiteralText(m.name, true, m.beforeColon + ([COLON] + (m.afterColon + Spell(m.value, m.after + post))))
  }

  function SpellMember(m: SpelledMember, post: CStr): CStr
    decreases m, 1
  {
    m.before + SpellNamed(m, post)
  }

  function SpellMembers(members: SpelledMembers, post: CStr): CStr
    decreases members
  {
    match members
    case LastMember(m) => SpellMember(m, [RBRACE] + post)
    case MoreMembers(m, rest) => SpellMember(m, [COMMA] + SpellMembers(rest, post))
  }

  // ----- the spellings the code accepts before `post` -----

  predicate Accepts(v: Spelled, post: CStr)
    decreases v
  {
    match v
    case Integer(numeral) => NumeralEnds(numeral, post)
    case Literal(pieces, closed) => (closed || post == []) && AllRead(pieces, LiteralEnd(closed, post))
    case EmptyArray(blank) => Blank(blank)
    case Elements(items) => AcceptsItems(items, post)
    case EmptyObject(blank) => Blank(blank)
    case Fields(members) => AcceptsMembers(members, post)
    case _ => true
  }

  predicate AcceptsItem(item: SpelledItem, post: CStr)
    decreases item
  {
    Blank(item.before) && Accepts(item.value, item.after + post) && Blank(item.after)
  }

  predicate AcceptsItems(items: SpelledItems, post: CStr)
    decreases items
  {
    match items
    case LastItem(item) => AcceptsItem(item, [RBRACKET] + post)
    case MoreItems(item, rest) => AcceptsItem(item, [COMMA] + SpellItems(rest, post)) && AcceptsItems(rest, post)
  }

  /** What stands behind a member's name. */
  function AfterName(m: SpelledMember, post: CStr): CStr {
    m.beforeColon + ([COLON] + (m.afterColon + Spell(m.value, m.after + post)))
  }

  predicate AcceptsMember(m: SpelledMember, post: CStr)
    decreases m
  {
    && Blank(m.before) && AllRead(m.name, LiteralEnd(true, AfterName(m, post)))
    && Blank(m.beforeColon) && Blank(m.afterColon)
    && Accepts(m.value, m.after + post) && Blank(m.after)
  }

  predicate AcceptsMembers(members: SpelledMembers, post: CStr)
    decreases members
  {
    match members
    case LastMember(m) => AcceptsMember(m, [RBRACE] + post)
    case MoreMembers(m, rest) => AcceptsMember(m, [COMMA] + SpellMembers(rest, post)) && AcceptsMembers(rest, post)
  }

  /** A proper spelling is accepted before anything that cannot lengthen a number. */
  lemma {:induction false} ProperAccepted(v: Spelled, post: CStr)
    requires Proper(v) && EndsNumber(post)
    ensures Accepts(v, post)
    decreases v
  {
    match v
    case Integer(numeral) => ProperEnds(numeral, post);
    case Literal(pieces, closed) => WellFormedRead(pieces, LiteralEnd(closed, post));
    case Elements(items) => ProperItemsAccepted(items, post);
    case Fields(members) => ProperMembersAccepted(members, post);
    case _ =>
  }

  lemma {:induction false} ProperItemAccepted(item: SpelledItem, post: CStr)
    requires ProperItem(item) && EndsNumber(post)
    ensures AcceptsItem(item, post)
    decreases item
  {
    BlankEndsNumber(item.after, post);
    ProperAccepted(item.value, item.after + post);
  }

  lemma {:induction false} ProperItemsAccepted(items: SpelledItems, post: CStr)
    requires ProperItems(items)
    ensures AcceptsItems(items, post)
    decreases items
  {
    match items
    case LastItem(item) => ProperItemAccepted(item, [RBRACKET] + post);
    case MoreItems(item, rest) =>
      ProperItemAccepted(item, [COMMA] + SpellItems(rest, post));
      ProperItemsAccepted(rest, post);
  }

  lemma {:induction false} ProperMemberAccepted(m: SpelledMember, post: CStr)
    requires ProperMember(m) && EndsNumber(post)
    ensures AcceptsMember(m, post)
    decreases m
  {
    WellFormedRead(m.name, LiteralEnd(true, AfterName(m, post)));
    BlankEndsNumber(m.after, post);
    ProperAccepted(m.value, m.after + post);
  }

  lemma {:induction false} ProperMembersAccepted(members: SpelledMembers, post: CStr)
    requires ProperMembers(members)
    ensures AcceptsMembers(members, post)
    decreases members
  {
    match members
    case LastMember(m) => ProperMemberAccepted(m, [RBRACE] + post);
    case MoreMembers(m, rest) =>
      ProperMemberAccepted(m, [COMMA] + SpellMembers(rest, post));
      ProperMembersAccepted(rest, post);
  }

  // ----- the meaning -----

  function Means(v: Spelled): Json {
    match v
    case NullWord => Null
    case FalseWord => False
    case TrueWord => True
    case Integer(numeral) => Number(if Is32(NumeralValue(numeral)) then NumeralValue(numeral) else 0)
    case Literal(pieces, _) => String(ReadingAll(pieces))
    case EmptyArray(_) => Array(NoItem)
    case Elements(items) => Array(ItemsMean(items))
    case EmptyObject(_) => Object(NoMember)
    case Fields(members) => Object(MembersMean(members))
  }

  function ItemsMean(items: SpelledItems): Items {
    match items
    case LastItem(item) => Item(Means(item.value), NoItem)
    case MoreItems(item, rest) => Item(Means(item.value), ItemsMean(rest))
  }

  function MembersMean(members: SpelledMembers): Members {
    match members
    case LastMember(m) => Member(ReadingAll(m.name), Means(m.value), NoMember)
    case MoreMembers(m, rest) => Member(ReadingAll(m.name), Means(m.value), MembersMean(rest))
  }

  // ----- reading -----

  /** White space is skipped up to a visible byte. */
  lemma {:induction false} SkipsBlank(blank: CStr, s: CStr)
    requires Blank(blank) && (s == [] || s[0] > 32)
    ensures Skip(blank + s) == s
  {
    if blank == [] {
      assert blank + s == s;
    } else {
      assert (blank + s)[1..] == blank[1..] + s;
      SkipsBlank(blank[1..], s);
    }
  }

  /** White space, or what follows it, ends a number. */
  lemma {:induction false} BlankEndsNumber(blank: CStr, s: CStr)
    requires Blank(blank) && EndsNumber(s)
    ensures EndsNumber(blank + s)
  {
    if blank == [] {
      assert blank + s == s;
    }
  }

  /** A spelled value starts with a visible byte that closes nothing. */
  lemma {:induction false} SpelledVisible(v: Spelled, post: CStr)
    requires Accepts(v, post)
    ensures var s := Spell(v, post); s != [] && s[0] > 32 && s[0] != RBRACKET && s[0] != RBRACE
  {
    match v
    case Integer(numeral) => NumeralReads(numeral, post);
    case _ =>
  }

  lemma {:induction false} IntegerReads(numeral: Numeral, post: CStr)
    requires NumeralEnds(numeral, post)
    ensures Value(NumeralText(numeral) + post) == Ok(Number(NumeralValue(numeral)), post)
  {
    NumeralReads(numeral, post);
    hide NumberLiteral, NumeralText, NumeralValue;
    assert NULL_TEXT[0] == 110 && FALSE_TEXT[0] == 102 && TRUE_TEXT[0] == 116;
  }

  lemma {:induction false} LiteralValue(pieces: seq<Piece>, closed: bool, post: CStr)
    requires (closed || post == []) && AllRead(pieces, LiteralEnd(closed, post))
    ensures StringLiteral(LiteralText(pieces, closed, post)) == Ok(ReadingAll(pieces), post)
    ensures Value(LiteralText(pieces, closed, post)) == Ok(String(ReadingAll(pieces)), post)
  {
    var s := LiteralText(pieces, closed, post);
    AnyPiecesRead(pieces, closed, post);
    assert s[0] == QUOTE && s[1..] == SourceAll(pieces) + LiteralEnd(closed, post);
    assert NULL_TEXT[0] == 110 && FALSE_TEXT[0] == 102 && TRUE_TEXT[0] == 116;
  }

  lemma {:induction false} WordsRead(post: CStr)
    ensures Value(NULL_TEXT + post) == Ok(Null, post)
    ensures Value(FALSE_TEXT + post) == Ok(False, post)
    ensures Value(TRUE_TEXT + post) == Ok(True, post)
  {
    WordReads(Null, post);
    WordReads(False, post);
    WordReads(True, post);
  }

  lemma {:induction false} WordReads(t: Json, post: CStr)
    requires t.Null? || t.False? || t.True?
    ensures Value(Text(t, 0, false) + post) == Ok(t, post)
  {
    var s := Text(t, 0, false) + post;
    match t
    case Null => assert NULL_TEXT <= s && s[4..] == post;
    case False => assert FALSE_TEXT <= s && s[5..] == post; assert s[0] == 102 && NULL_TEXT[0] == 110;
    case True =>
      assert TRUE_TEXT <= s && s[4..] == post;
      assert s[0] == 116 && NULL_TEXT[0] == 110 && FALSE_TEXT[0] == 102;
  }

  /** Every accepted spelling of a value is read as what it means, up to its end. */
  lemma {:induction false} SpellingReads(v: Spelled, post: CStr)
    requires Accepts(v, post)
    ensures Value(Spell(v, post)) == Ok(Means(v), post)
    decreases v
  {
    match v
    case NullWord => WordsRead(post);
    case FalseWord => WordsRead(post);
    case TrueWord => WordsRead(post);
    case Integer(numeral) => IntegerReads(numeral, post);
    case Literal(pieces, closed) => LiteralValue(pieces, closed, post);
    case EmptyArray(blank) =>
      var s := Spell(v, post);
      assert s[1..] == blank + ([RBRACKET] + post);
      SkipsBlank(blank, [RBRACKET] + post);
      EmptyArrayValue(s, post);
    case EmptyObject(blank) =>
      var s := Spell(v, post);
      assert s[1..] == blank + ([RBRACE] + post);
      SkipsBlank(blank, [RBRACE] + post);
      EmptyObjectValue(s, post);
    case Elements(items) => ElementsRead(items, post);
    case Fields(members) => FieldsRead(members, post);
  }

  lemma {:induction false} ElementsRead(items: SpelledItems, post: CStr)
    requires AcceptsItems(items, post)
    ensures Value(Spell(Elements(items), post)) == Ok(Array(ItemsMean(items)), post)
    decreases items, 1
  {
    var s := Spell(Elements(items), post);
    assert s[1..] == SpellItems(items, post);
    ItemsVisible(items, post);
    ItemsRead(items, post, Skip(s[1..]));
    ArrayValue(s, ItemsMean(items), post);
  }

  /** What the first element starts with, white space skipped. */
  lemma {:induction false} ItemsVisible(items: SpelledItems, post: CStr)
    requires AcceptsItems(items, post)
    ensures var s := Skip(SpellItems(items, post)); Head(s) > 32 && Head(s) != RBRACKET && Skip(s) == s
  {
    var more := if items.LastItem? then [RBRACKET] + post else [COMMA] + SpellItems(items.rest, post);
    ItemStarts(items.item, more);
  }

  lemma {:induction false} ItemStarts(item: SpelledItem, more: CStr)
    requires AcceptsItem(item, more)
    ensures Skip(SpellItem(item, more)) == Spell(item.value, item.after + more)
    ensures var s := Spell(item.value, item.after + more); s != [] && s[0] > 32 && s[0] != RBRACKET
  {
    SpelledVisible(item.value, item.after + more);
    SkipsBlank(item.before, Spell(item.value, item.after + more));
  }

  /** One element and the white space around it. */
  lemma {:induction false} ItemReads(item: SpelledItem, more: CStr)
    requires AcceptsItem(item, more) && (more == [] || more[0] > 32)
    ensures Value(Spell(item.value, item.after + more)) == Ok(Means(item.value), item.after + more)
    ensures Skip(item.after + more) == more
    decreases item
  {
    SpellingReads(item.value, item.after + more);
    SkipsBlank(item.after, more);
  }

  lemma {:induction false} ItemsRead(items: SpelledItems, post: CStr, s: CStr)
    requires AcceptsItems(items, post) && Skip(s) == Skip(SpellItems(items, post))
    ensures ItemList(s) == Ok(ItemsMean(items), post)
    decreases items, 0
  {
    match items
    case LastItem(item) =>
      var more: CStr := [RBRACKET] + post;
      ItemStarts(item, more);
      ItemReads(item, more);
      assert more[1..] == post;
    case MoreItems(item, rest) =>
      var next := SpellItems(rest, post);
      var more: CStr := [COMMA] + next;
      ItemStarts(item, more);
      ItemReads(item, more);
      assert more[1..] == next;
      ItemsRead(rest, post, next);
  }

  lemma {:induction false} FieldsRead(members: SpelledMembers, post: CStr)
    requires AcceptsMembers(members, post)
    ensures Value(Spell(Fields(members), post)) == Ok(Object(MembersMean(members)), post)
    decreases members, 1
  {
    var s := Spell(Fields(members), post);
    assert s[1..] == SpellMembers(members, post);
    var more := if members.LastMember? then [RBRACE] + post else [COMMA] + SpellMembers(members.rest, post);
    MemberStarts(members.member, more);
    MembersRead(members, post, Skip(s[1..]));
    ObjectValue(s, MembersMean(members), post);
  }

  lemma {:induction false} MemberStarts(m: SpelledMember, more: CStr)
    requires AcceptsMember(m, more)
    ensures Skip(SpellMember(m, more)) == SpellNamed(m, more) && Head(SpellNamed(m, more)) == QUOTE
    ensures Skip(SpellNamed(m, more)) == SpellNamed(m, more)
  {
    SkipsBlank(m.before, SpellNamed(m, more));
    SkipsBlank([], SpellNamed(m, more));
  }

  /** One name, colon and value, and the white space around them. */
  lemma {:induction false} MemberReads(m: SpelledMember, more: CStr, s: CStr)
    requires AcceptsMember(m, more) && (more == [] || more[0] > 32)
    requires Skip(s) == SpellNamed(m, more)
    ensures NamedValue(s) == Ok((ReadingAll(m.name), Means(m.value)), more)
    decreases m
  {
    var value := Spell(m.value, m.after + more);
    var colon: CStr := [COLON] + (m.afterColon + value);
    LiteralValue(m.name, true, m.beforeColon + colon);
    SkipsBlank(m.beforeColon, colon);
    assert colon[1..] == m.afterColon + value;
    SpelledVisible(m.value, m.after + more);
    SkipsBlank(m.afterColon, value);
    SpellingReads(m.value, m.after + more);
    SkipsBlank(m.after, more);
  }

  lemma {:induction false} MembersRead(members: SpelledMembers, post: CStr, s: CStr)
    requires AcceptsMembers(members, post) && Skip(s) == Skip(SpellMembers(members, post))
    ensures MemberList(s) == Ok(MembersMean(members), post)
    decreases members, 0
  {
    match members
    case LastMember(m) =>
      var more: CStr := [RBRACE] + post;
      MemberStarts(m, more);
      MemberReads(m, more, s);
      assert more[1..] == post;
    case MoreMembers(m, rest) =>
      var next := SpellMembers(rest, post);
      var more: CStr := [COMMA] + next;
      MemberStarts(m, more);
      MemberReads(m, more, s);
      assert more[1..] == next;
      MembersRead(rest, post, next);
  }

  /** A whole text: white space, a value in any proper spelling, white space. */
  lemma {:induction false} DocumentReads(v: Spelled, before: CStr, after: CStr, requireEnd: bool)
    requires Proper(v) && Blank(before) && Blank(after)
    ensures Document(before + Spell(v, after), requireEnd) == Ok(Means(v), if requireEnd then [] else after)
  {
    assert after + [] == after;
    BlankEndsNumber(after, []);
    ProperAccepted(v, after);
    SpelledVisible(v, after);
    SkipsBlank(before, Spell(v, after));
    SkipsBlank(after, []);
    SpellingReads(v, after);
  }
}
