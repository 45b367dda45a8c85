/**
  Minifying any proper spelling of a value, with comments wherever there may be
  white space: the tokens stay, all else goes, and the parser reads that value.
 */
module MinifySpelling {
  import opened JsonText
  import opened JsonGrammar
  import opened JsonEscapes
  import opened JsonNumerals
  import opened JsonSpelling
  import opened JsonMinify
  import opened Options

  import Chunks = MinifyChunks

  predicate Fillers(cs: seq<Chunks.Chunk>) {
    forall i :: 0 <= i < |cs| ==>
      Chunks.Shaped(cs[i]) && (cs[i].White? || cs[i].LineComment? || cs[i].BlockComment?)
  }

  /** White space, line comments with their line feed, and block comments, in any order and number. */
  ghost predicate Gap(s: CStr) {
    exists cs: seq<Chunks.Chunk> :: Fillers(cs) && Chunks.WrittenAll(cs) == s
  }

  /** A line comment without a line feed, which only the end of a text can follow. */
  predicate OpenComment(s: CStr) {
    |s| >= 2 && s[0] == SLASH && s[1] == SLASH && LF !in s
  }

  // ----- proper spellings with such gaps between their tokens -----

  ghost predicate Tidy(v: Spelled) {
    match v
    case EmptyArray(blank) => Gap(blank)
    case Elements(items) => TidyItems(items)
    case EmptyObject(blank) => Gap(blank)
    case Fields(members) => TidyMembers(members)
    case _ => Proper(v)
  }

  ghost predicate TidyItem(item: SpelledItem) {
    Gap(item.before) && Tidy(item.value) && Gap(item.after)
  }

  ghost predicate TidyItems(items: SpelledItems) {
    match items
    case LastItem(item) => TidyItem(item)
    case MoreItems(item, rest) => TidyItem(item) && TidyItems(rest)
  }

  ghost predicate TidyMember(m: SpelledMember) {
    && Gap(m.before) && AllWellFormed(m.name) && Gap(m.beforeColon) && Gap(m.afterColon)
    && Tidy(m.value) && Gap(m.after)
  }

  ghost predicate TidyMembers(members: SpelledMembers) {
    match members
    case LastMember(m) => TidyMember(m)
    case MoreMembers(m, rest) => TidyMember(m) && TidyMembers(rest)
  }

  // ----- the same value without gaps -----

  function Bare(v: Spelled): Spelled {
    match v
    case EmptyArray(_) => EmptyArray([])
    case Elements(items) => Elements(BareItems(items))
    case EmptyObject(_) => EmptyObject([])
    case Fields(members) => Fields(BareMembers(members))
    case _ => v
  }

  function BareItem(item: SpelledItem): SpelledItem {
    SpelledItem([], Bare(item.value), [])
  }

  function BareItems(items: SpelledItems): SpelledItems {
    match items
    case LastItem(item) => LastItem(BareItem(item))
    case MoreItems(item, rest) => MoreItems(BareItem(item), BareItems(rest))
  }

  function BareMember(m: SpelledMember): SpelledMember {
    SpelledMember([], m.name, [], [], Bare(m.value), [])
  }

  function BareMembers(members: SpelledMembers): SpelledMembers {
    match members
    case LastMember(m) => LastMember(BareMember(m))
    case MoreMembers(m, rest) => MoreMembers(BareMember(m), BareMembers(rest))
  }

  /** It means the same, and is proper. */
  lemma {:induction false} BareMeans(v: Spelled)
    requires Tidy(v)
    ensures Means(Bare(v)) == Means(v) && Proper(Bare(v))
    decreases v
  {
    match v
    case Elements(items) => BareItemsMean(items);
    case Fields(members) => BareMembersMean(members);
    case _ =>
  }

  lemma {:induction false} BareItemsMean(items: SpelledItems)
    requires TidyItems(items)
    ensures ItemsMean(BareItems(items)) == ItemsMean(items) && ProperItems(BareItems(items))
    decreases items
  {
    BareMeans(items.item.value);
    if items.MoreItems? {
      BareItemsMean(items.rest);
    }
  }

  lemma {:induction false} BareMembersMean(members: SpelledMembers)
    requires TidyMembers(members)
    ensures MembersMean(BareMembers(members)) == MembersMean(members) && ProperMembers(BareMembers(members))
    decreases members
  {
    BareMeans(members.member.value);
    if members.MoreMembers? {
      BareMembersMean(members.rest);
    }
  }

  // ----- what minifying does -----

  lemma {:induction false} DropsFillers(cs: seq<Chunks.Chunk>, s: CStr)
    requires Fillers(cs)
    ensures Minified(Chunks.WrittenAll(cs) + s) == Minified(s)
  {
    if cs == [] {
      Nothing(s);
    } else {
      hide Minified, Chunks.Written, Chunks.Shaped;
      var a, b := Chunks.Written(cs[0]), Chunks.WrittenAll(cs[1..]);
      DropsFillers(cs[1..], s);
      Chunks.MinifiesChunk(cs[0], b + s);
      KeepNothing(Minified(b + s));
      assert a + b + s == a + (b + s);
    }
  }

  lemma {:induction false} DropsGap(gap: CStr, s: CStr)
    requires Gap(gap)
    ensures Minified(gap + s) == Minified(s)
  {
    var cs: seq<Chunks.Chunk> :| Fillers(cs) && Chunks.WrittenAll(cs) == gap;
    DropsFillers(cs, s);
  }

  lemma {:induction false} DropsLast(last: CStr)
    requires last == [] || OpenComment(last)
    ensures Minified(last) == Some([])
  {
    if last != [] {
      Chunks.LineEnds(last);
    }
  }

  /** A token outside literals. */
  lemma {:induction false} KeepsToken(token: CStr, s: CStr)
    requires AllSolid(token)
    ensures Minified(token + s) == Keep(token, Minified(s))
  {
    ShrinksSolid(token);
  }

  lemma {:induction false} CodeLength(u: code16, k: Cases, more: CStr)
    requires LiteralLength(more).Some?
    ensures LiteralLength([BACKSLASH, 117] + (FourDigits(u, k) + more)) == Some(6 + LiteralLength(more).value)
  {
    hide LiteralLength;
    HexDigitReads(u / 4096, k.a);
    HexDigitReads(u / 256 % 16, k.b);
    HexDigitReads(u / 16 % 16, k.c);
    HexDigitReads(u % 16, k.d);
    PlainLength(FourDigits(u, k), more);
    AfterBackslash(117, FourDigits(u, k) + more);
  }

  lemma {:induction false} PairLength(p: Piece, more: CStr)
    requires p.Pair? && LiteralLength(more).Some?
    ensures LiteralLength(Source(p) + more) == Some(12 + LiteralLength(more).value)
  {
    hide LiteralLength, FourDigits;
    var low := FourDigits(p.low, p.lowCases);
    CodeLength(p.low, p.lowCases, more);
    CodeLength(p.high, p.highCases, [BACKSLASH, 117] + (low + more));
    PairJoined([BACKSLASH, 117], FourDigits(p.high, p.highCases), low, more);
  }

  lemma {:induction false} PairJoined(mark: CStr, h: CStr, l: CStr, more: CStr)
    ensures mark + h + mark + l + more == mark + (h + (mark + (l + more)))
  {}

  lemma {:induction false} PieceLength(p: Piece, more: CStr)
    requires WellFormed(p) && LiteralLength(more).Some?
    ensures LiteralLength(Source(p) + more) == Some(|Source(p)| + LiteralLength(more).value)
  {
    hide LiteralLength, FourDigits;
    match p
    case Plain(b) => PlainLength([b], more);
    case Simple(c) => AfterBackslash(c, more);
    case Code(u, k) =>
      CodeLength(u, k, more);
      assert Source(p) + more == [BACKSLASH, 117] + (FourDigits(u, k) + more);
    case Pair(_, _, _, _) => PairLength(p, more);
  }

  lemma {:induction false} FirstSource(ps: seq<Piece>, post: CStr)
    requires ps != []
    ensures SourceAll(ps) + post == Source(ps[0]) + (SourceAll(ps[1..]) + post)
    ensures |SourceAll(ps)| == |Source(ps[0])| + |SourceAll(ps[1..])|
  {
    var a, b := Source(ps[0]), SourceAll(ps[1..]);
    assert SourceAll(ps) == a + b;
    hide Source, SourceAll;
    assert a + b + post == a + (b + post);
  }

  lemma {:induction false} PiecesLength(ps: seq<Piece>, post: CStr)
    requires AllWellFormed(ps)
    ensures LiteralLength(SourceAll(ps) + ([QUOTE] + post)) == Some(|SourceAll(ps)| + 1)
  {
    if ps == [] {
      assert SourceAll(ps) + ([QUOTE] + post) == [QUOTE] + post;
    } else {
      hide LiteralLength, SourceAll, WellFormed;
      FirstSource(ps, [QUOTE] + post);
      PiecesLength(ps[1..], post);
      PieceLength(ps[0], SourceAll(ps[1..]) + ([QUOTE] + post));
    }
  }

  /** A literal is kept as it is written. */
  lemma {:induction false} KeepsLiteral(ps: seq<Piece>, post: CStr)
    requires AllWellFormed(ps)
    ensures Minified(LiteralText(ps, true, post)) == Keep(LiteralText(ps, true, []), Minified(post))
  {
    hide Minified, LiteralLength, SourceAll, AllWellFormed;
    PiecesLength(ps, post);
    LiteralAround(SourceAll(ps), post);
    LiteralJoined(SourceAll(ps), post);
  }

  lemma {:induction false} LiteralJoined(body: CStr, post: CStr)
    ensures [QUOTE] + (body + ([QUOTE] + post)) == [QUOTE] + body + [QUOTE] + post
    ensures [QUOTE] + (body + ([QUOTE] + [])) == [QUOTE] + body + [QUOTE]
  {}

  /** The text without gaps, before `post`. */
  function Flat(v: Spelled, post: CStr): CStr {
    Spell(Bare(v), post)
  }

  /** What is kept of a value is its text without gaps. */
  lemma {:induction false} MinifiesValue(v: Spelled, post: CStr, m: CStr)
    requires Tidy(v) && Minified(post) == Some(m)
    ensures Minified(Spell(v, post)) == Some(Flat(v, m))
    decreases v
  {
    hide Minified, LiteralText, NumeralText;
    match v
    case NullWord => KeepsToken(NULL_TEXT, post);
    case FalseWord => KeepsToken(FALSE_TEXT, post);
    case TrueWord => KeepsToken(TRUE_TEXT, post);
    case Integer(numeral) => KeepsNumeral(numeral, post);
    case Literal(pieces, _) =>
      KeepsLiteral(pieces, post);
      LiteralBefore(pieces, m);
    case EmptyArray(blank) => MinifiesPair(LBRACKET, blank, RBRACKET, post, m);
    case EmptyObject(blank) => MinifiesPair(LBRACE, blank, RBRACE, post, m);
    case Elements(items) =>
      MinifiesItems(items, post, m);
      KeepsToken([LBRACKET], SpellItems(items, post));
    case Fields(members) =>
      MinifiesMembers(members, post, m);
      KeepsToken([LBRACE], SpellMembers(members, post));
  }

  lemma {:induction false} KeepsNumeral(numeral: Numeral, post: CStr)
    requires ProperNumeral(numeral)
    ensures Minified(NumeralText(numeral) + post) == Keep(NumeralText(numeral), Minified(post))
  {
    hide Minified;
    KeepsToken(NumeralText(numeral), post);
  }

  lemma {:induction false} LiteralBefore(ps: seq<Piece>, post: CStr)
    ensures LiteralText(ps, true, post) == LiteralText(ps, true, []) + post
  {}

  /** An opening and a closing token with a gap between them. */
  lemma {:induction false} MinifiesPair(open: cbyte, blank: CStr, close: cbyte, post: CStr, m: CStr)
    requires Solid(open) && Solid(close) && Gap(blank) && Minified(post) == Some(m)
    ensures Minified([open] + (blank + ([close] + post))) == Some([open] + ([] + ([close] + m)))
  {
    hide Minified;
    KeepsToken([close], post);
    DropsGap(blank, [close] + post);
    KeepsToken([open], blank + ([close] + post));
    Nothing([close] + m);
  }

  lemma {:induction false} Nothing(s: CStr)
    ensures [] + s == s
  {}

  lemma {:induction false} MinifiesItem(item: SpelledItem, post: CStr, m: CStr)
    requires TidyItem(item) && Minified(post) == Some(m)
    ensures Minified(SpellItem(item, post)) == Some(SpellItem(BareItem(item), m))
    decreases item
  {
    hide Minified, Spell;
    DropsGap(item.after, post);
    MinifiesValue(item.value, item.after + post, m);
    DropsGap(item.before, Spell(item.value, item.after + post));
    Nothing(m);
    Nothing(Flat(item.value, m));
  }

  lemma {:induction false} MinifiesItems(items: SpelledItems, post: CStr, m: CStr)
    requires TidyItems(items) && Minified(post) == Some(m)
    ensures Minified(SpellItems(items, post)) == Some(SpellItems(BareItems(items), m))
    decreases items
  {
    match items
    case LastItem(item) =>
      KeepsToken([RBRACKET], post);
      MinifiesItem(item, [RBRACKET] + post, [RBRACKET] + m);
    case MoreItems(item, rest) =>
      MinifiesItems(rest, post, m);
      KeepsToken([COMMA], SpellItems(rest, post));
      MinifiesItem(item, [COMMA] + SpellItems(rest, post), [COMMA] + SpellItems(BareItems(rest), m));
  }

  lemma {:induction false} MinifiesMember(d: SpelledMember, post: CStr, m: CStr)
    requires TidyMember(d) && Minified(post) == Some(m)
    ensures Minified(SpellMember(d, post)) == Some(SpellMember(BareMember(d), m))
    decreases d
  {
    hide Minified, LiteralText, Spell;
    var value := Spell(d.value, d.after + post);
    var colon: CStr := [COLON] + (d.afterColon + value);
    DropsGap(d.after, post);
    MinifiesValue(d.value, d.after + post, m);
    DropsGap(d.afterColon, value);
    KeepsToken([COLON], d.afterColon + value);
    DropsGap(d.beforeColon, colon);
    KeepsLiteral(d.name, d.beforeColon + colon);
    DropsGap(d.before, SpellNamed(d, post));
    BareMemberText(d, m);
  }

  lemma {:induction false} BareMemberText(d: SpelledMember, m: CStr)
    ensures SpellMember(BareMember(d), m) == LiteralText(d.name, true, []) + ([COLON] + Flat(d.value, m))
  {
    var colon: CStr := [COLON] + Flat(d.value, m);
    Nothing(m);
    Nothing(Flat(d.value, m));
    Nothing(colon);
    Nothing(SpellNamed(BareMember(d), m));
    LiteralBefore(d.name, colon);
    hide LiteralText;
  }

  lemma {:induction false} MinifiesMembers(members: SpelledMembers, post: CStr, m: CStr)
    requires TidyMembers(members) && Minified(post) == Some(m)
    ensures Minified(SpellMembers(members, post)) == Some(SpellMembers(BareMembers(members), m))
    decreases members
  {
    match members
    case LastMember(d) =>
      KeepsToken([RBRACE], post);
      MinifiesMember(d, [RBRACE] + post, [RBRACE] + m);
    case MoreMembers(d, rest) =>
      MinifiesMembers(rest, post, m);
      KeepsToken([COMMA], SpellMembers(rest, post));
      MinifiesMember(d, [COMMA] + SpellMembers(rest, post), [COMMA] + SpellMembers(BareMembers(rest), m));
  }

  /** A text of a value, its gaps included, up to the end or to a comment that only the end closes. */
  function Whole(v: Spelled, before: CStr, after: CStr, last: CStr): CStr {
    before + Spell(v, after + last)
  }

  ghost predicate TidyText(v: Spelled, before: CStr, after: CStr, last: CStr) {
    Tidy(v) && Gap(before) && Gap(after) && (last == [] || OpenComment(last))
  }

  /**
    Minifying a proper text leaves its tokens, which are read as its value; so
    is the text itself if there are no comments in it.
   */
  lemma {:induction false} MinifyKeepsValue(v: Spelled, before: CStr, after: CStr, last: CStr, requireEnd: bool)
    requires TidyText(v, before, after, last)
    ensures Minified(Whole(v, before, after, last)) == Some(Flat(v, []))
    ensures Document(Flat(v, []), requireEnd) == Ok(Means(v), [])
    ensures Proper(v) && JsonSpelling.Blank(before) && JsonSpelling.Blank(after) && last == [] ==>
              Document(Whole(v, before, after, last), true) == Ok(Means(v), [])
  {
    DropsLast(last);
    DropsGap(after, last);
    MinifiesValue(v, after + last, []);
    DropsGap(before, Spell(v, after + last));
    if Proper(v) && JsonSpelling.Blank(before) && JsonSpelling.Blank(after) && last == [] {
      assert after + last == after;
      DocumentReads(v, before, after, true);
    }
    BareMeans(v);
    DocumentReads(Bare(v), [], [], requireEnd);
    Nothing(Flat(v, []));
  }

  /** Comments and white space between the tokens make no difference. */
  lemma {:induction false} CommentsIgnored(v: Spelled, before: CStr, after: CStr, last: CStr,
                                           v': Spelled, before': CStr, after': CStr, last': CStr)
    requires TidyText(v, before, after, last) && TidyText(v', before', after', last')
    requires Bare(v) == Bare(v')
    ensures Minified(Whole(v, before, after, last)) == Minified(Whole(v', before', after', last'))
  {
    MinifyKeepsValue(v, before, after, last, true);
    MinifyKeepsValue(v', before', after', last', true);
  }
}
