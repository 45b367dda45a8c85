/**
  The language the parser accepts: every text it reads is an accepted spelling
  of the value it returns, and every accepted spelling is read so.
 */
module JsonLanguage {
  import opened JsonText
  import opened JsonGrammar
  import opened JsonEscapes
  import opened JsonNumerals
  import opened JsonSpelling

  /** The white space at the start of a text. */
  lemma {:induction false} BlankOf(s: CStr) returns (blank: CStr)
    ensures Blank(blank) && s == blank + Skip(s)
  {
    if s != [] && s[0] <= 32 {
      blank := BlankOf(s[1..]);
      blank := [s[0]] + blank;
    } else {
      blank := [];
    }
  }

  lemma {:induction false} FirstByte(s: CStr)
    ensures Head(s) != 0 ==> s != [] && s == [s[0]] + s[1..]
  {}

  /** Whatever is read as a string literal is one. */
  lemma {:induction false} LiteralOf(s: CStr) returns (pieces: seq<Piece>, closed: bool)
    requires StringLiteral(s).Ok?
    ensures var rest := StringLiteral(s).rest;
            && s == LiteralText(pieces, closed, rest) && AllRead(pieces, LiteralEnd(closed, rest))
            && (closed || rest == []) && StringLiteral(s).value == ReadingAll(pieces)
  {
    FirstByte(s);
    pieces, closed := PiecesOf(s[1..]);
    hide Unescape, SourceAll, AllRead, ReadingAll;
  }

  lemma {:induction false} WordOf(s: CStr, word: CStr)
    requires word <= s
    ensures s == word + s[|word|..]
  {}

  /** The text of `v` before `rest` is `s`, and is read as `t`. */
  predicate Spells(s: CStr, v: Spelled, t: Json, rest: CStr) {
    Accepts(v, rest) && s == Spell(v, rest) && t == Means(v)
  }

  /** Every text that is read is an accepted spelling of the value returned. */
  lemma {:induction false} SpellingOf(s: CStr) returns (v: Spelled)
    requires Value(s).Ok?
    ensures Spells(s, v, Value(s).value, Value(s).rest)
    decreases |s|, 1
  {
    if NULL_TEXT <= s || FALSE_TEXT <= s || TRUE_TEXT <= s {
      v := WordSpelling(s);
    } else if Head(s) == QUOTE {
      var pieces, closed := LiteralOf(s);
      v := Literal(pieces, closed);
    } else if Head(s) == MINUS || IsDigit(Head(s)) {
      v := IntegerSpelling(s);
    } else if Head(s) == LBRACKET {
      v := ArraySpelling(s);
    } else {
      v := ObjectSpelling(s);
    }
  }

  lemma {:induction false} WordSpelling(s: CStr) returns (v: Spelled)
    requires NULL_TEXT <= s || FALSE_TEXT <= s || TRUE_TEXT <= s
    ensures Value(s).Ok? && Spells(s, v, Value(s).value, Value(s).rest)
  {
    if NULL_TEXT <= s {
      WordOf(s, NULL_TEXT);
      v := NullWord;
    } else if FALSE_TEXT <= s {
      WordOf(s, FALSE_TEXT);
      v := FalseWord;
    } else {
      WordOf(s, TRUE_TEXT);
      v := TrueWord;
    }
  }

  /** A text that starts with no word. */
  predicate NoWord(s: CStr) {
    !(NULL_TEXT <= s) && !(FALSE_TEXT <= s) && !(TRUE_TEXT <= s)
  }

  lemma {:induction false} IntegerSpelling(s: CStr) returns (v: Spelled)
    requires NoWord(s) && Value(s).Ok? && (Head(s) == MINUS || IsDigit(Head(s)))
    ensures Spells(s, v, Value(s).value, Value(s).rest)
  {
    var numeral := NumeralOf(s);
    v := Integer(numeral);
    hide NumberLiteral, NumeralText, NumeralValue;
  }

  lemma {:induction false} ArrayParts(s: CStr)
    requires NoWord(s) && Value(s).Ok? && Head(s) == LBRACKET
    ensures var inside := Skip(s[1..]);
            if Head(inside) == RBRACKET then Value(s) == Ok(Array(NoItem), inside[1..])
            else ItemList(inside).Ok? && Value(s) == Ok(Array(ItemList(inside).value), ItemList(inside).rest)
  {
    hide Skip, ItemList;
  }

  lemma {:induction false} ArraySpelling(s: CStr) returns (v: Spelled)
    requires NoWord(s) && Value(s).Ok? && Head(s) == LBRACKET
    ensures Spells(s, v, Value(s).value, Value(s).rest)
    decreases |s|, 0
  {
    ArrayParts(s);
    hide Value, ItemList, NoWord, Skip, Accepts, AcceptsItems, Spell, SpellItems, Means, ItemsMean, Spells;
    var inside := Skip(s[1..]);
    var blank := BlankOf(s[1..]);
    FirstByte(s);
    if Head(inside) == RBRACKET {
      FirstByte(inside);
      v := EmptyArraySpelled(s, blank, inside);
    } else {
      var items := ItemsOf(inside);
      items := BlankFirst(blank, items, Value(s).rest);
      v := ElementsSpelled(s, items, Value(s).rest);
    }
  }

  lemma {:induction false} EmptyArraySpelled(s: CStr, blank: CStr, inside: CStr) returns (v: Spelled)
    requires s != [] && s == [LBRACKET] + s[1..] && s[1..] == blank + inside && Blank(blank)
    requires inside != [] && inside == [RBRACKET] + inside[1..]
    ensures Spells(s, v, Array(NoItem), inside[1..])
  {
    v := EmptyArray(blank);
  }

  lemma {:induction false} ElementsSpelled(s: CStr, items: SpelledItems, rest: CStr) returns (v: Spelled)
    requires s != [] && s == [LBRACKET] + s[1..] && AcceptsItems(items, rest) && s[1..] == SpellItems(items, rest)
    ensures Spells(s, v, Array(ItemsMean(items)), rest)
  {
    v := Elements(items);
  }

  /** White space in front of the first element belongs to it. */
  lemma {:induction false} BlankFirst(blank: CStr, items: SpelledItems, rest: CStr) returns (r: SpelledItems)
    requires Blank(blank) && AcceptsItems(items, rest)
    ensures AcceptsItems(r, rest) && SpellItems(r, rest) == blank + SpellItems(items, rest) &&
            ItemsMean(r) == ItemsMean(items)
  {
    match items
    case LastItem(item) =>
      r := LastItem(item.(before := blank + item.before));
      WiderItem(blank, item, [RBRACKET] + rest);
    case MoreItems(item, more) =>
      r := MoreItems(item.(before := blank + item.before), more);
      WiderItem(blank, item, [COMMA] + SpellItems(more, rest));
  }

  lemma {:induction false} WiderItem(blank: CStr, item: SpelledItem, post: CStr)
    requires Blank(blank) && AcceptsItem(item, post)
    ensures var wider := item.(before := blank + item.before);
            AcceptsItem(wider, post) && SpellItem(wider, post) == blank + SpellItem(item, post)
  {
    hide Accepts, Spell;
  }

  /** The first element, and the text at its comma or bracket. */
  lemma {:induction false} ItemOf(s: CStr) returns (item: SpelledItem, after: CStr)
    requires Value(Skip(s)).Ok?
    ensures after == Skip(Value(Skip(s)).rest) && AcceptsItem(item, after) && s == SpellItem(item, after)
    ensures Means(item.value) == Value(Skip(s)).value
    decreases |s|, 2
  {
    var before := BlankOf(s);
    var v := SpellingOf(Skip(s));
    var blank := BlankOf(Value(Skip(s)).rest);
    after := Skip(Value(Skip(s)).rest);
    item := SpelledItem(before, v, blank);
  }

  lemma {:induction false} ItemsOf(s: CStr) returns (items: SpelledItems)
    requires ItemList(s).Ok?
    ensures var rest := ItemList(s).rest;
            AcceptsItems(items, rest) && s == SpellItems(items, rest) && ItemsMean(items) == ItemList(s).value
    decreases |s|, 3
  {
    var item, after := ItemOf(s);
    FirstByte(after);
    if Head(after) == COMMA {
      var rest := ItemsOf(after[1..]);
      items := MoreItems(item, rest);
    } else {
      items := LastItem(item);
    }
  }

  lemma {:induction false} ObjectParts(s: CStr)
    requires NoWord(s) && Value(s).Ok? && Head(s) == LBRACE
    ensures var inside := Skip(s[1..]);
            if Head(inside) == RBRACE then Value(s) == Ok(Object(NoMember), inside[1..])
            else MemberList(inside).Ok? && Value(s) == Ok(Object(MemberList(inside).value), MemberList(inside).rest)
  {
    hide Skip, MemberList;
  }

  lemma {:induction false} ObjectSpelling(s: CStr) returns (v: Spelled)
    requires NoWord(s) && Value(s).Ok? && Head(s) == LBRACE
    ensures Spells(s, v, Value(s).value, Value(s).rest)
    decreases |s|, 0
  {
    ObjectParts(s);
    hide Value, MemberList, NoWord, Skip, Accepts, AcceptsMembers, Spell, SpellMembers, Means, MembersMean, Spells;
    var inside := Skip(s[1..]);
    var blank := BlankOf(s[1..]);
    FirstByte(s);
    if Head(inside) == RBRACE {
      FirstByte(inside);
      v := EmptyObjectSpelled(s, blank, inside);
    } else {
      var members := MembersOf(inside);
      members := BlankFirstMember(blank, members, Value(s).rest);
      v := FieldsSpelled(s, members, Value(s).rest);
    }
  }

  lemma {:induction false} EmptyObjectSpelled(s: CStr, blank: CStr, inside: CStr) returns (v: Spelled)
    requires s != [] && s == [LBRACE] + s[1..] && s[1..] == blank + inside && Blank(blank)
    requires inside != [] && inside == [RBRACE] + inside[1..]
    ensures Spells(s, v, Object(NoMember), inside[1..])
  {
    v := EmptyObject(blank);
  }

  lemma {:induction false} FieldsSpelled(s: CStr, members: SpelledMembers, rest: CStr) returns (v: Spelled)
    requires s != [] && s == [LBRACE] + s[1..] && AcceptsMembers(members, rest) && s[1..] == SpellMembers(members, rest)
    ensures Spells(s, v, Object(MembersMean(members)), rest)
  {
    v := Fields(members);
  }

  lemma {:induction false} BlankFirstMember(blank: CStr, members: SpelledMembers, rest: CStr)
    returns (r: SpelledMembers)
    requires Blank(blank) && AcceptsMembers(members, rest)
    ensures AcceptsMembers(r, rest) && SpellMembers(r, rest) == blank + SpellMembers(members, rest)
    ensures MembersMean(r) == MembersMean(members)
  {
    match members
    case LastMember(m) =>
      r := LastMember(m.(before := blank + m.before));
      WiderMember(blank, m, [RBRACE] + rest);
    case MoreMembers(m, more) =>
      r := MoreMembers(m.(before := blank + m.before), more);
      WiderMember(blank, m, [COMMA] + SpellMembers(more, rest));
  }

  lemma {:induction false} SameNamed(a: SpelledMember, b: SpelledMember, post: CStr)
    requires a == b.(before := a.before)
    ensures AfterName(a, post) == AfterName(b, post) && SpellNamed(a, post) == SpellNamed(b, post)
  {}

  lemma {:induction false} WiderMember(blank: CStr, m: SpelledMember, post: CStr)
    requires Blank(blank) && AcceptsMember(m, post)
    ensures var wider := m.(before := blank + m.before);
            AcceptsMember(wider, post) && SpellMember(wider, post) == blank + SpellMember(m, post)
  {
    var wider := m.(before := blank + m.before);
    SameNamed(wider, m, post);
    hide AfterName, SpellNamed, AllRead, Accepts, LiteralEnd;
    assert blank + m.before + SpellNamed(m, post) == blank + (m.before + SpellNamed(m, post));
  }

  /** The first member, and the text at its comma or brace. */
  lemma {:induction false} MemberOf(s: CStr) returns (m: SpelledMember)
    requires NamedValue(s).Ok?
    ensures var after := NamedValue(s).rest;
            && AcceptsMember(m, after) && s == SpellMember(m, after)
            && (ReadingAll(m.name), Means(m.value)) == NamedValue(s).value
    decreases |s|, 2
  {
    var before := BlankOf(s);
    var name, closed := LiteralOf(Skip(s));
    var more := StringLiteral(Skip(s)).rest;
    var beforeColon := BlankOf(more);
    var colon := Skip(more);
    FirstByte(colon);
    var afterColon := BlankOf(colon[1..]);
    var v := SpellingOf(Skip(colon[1..]));
    var rest := Value(Skip(colon[1..])).rest;
    var after := BlankOf(rest);
    m := SpelledMember(before, name, beforeColon, afterColon, v, after);
    hide Value, StringLiteral, Spell, Accepts, AllRead, ReadingAll, SourceAll, Skip;
    assert closed;
    assert AfterName(m, Skip(rest)) == more;
  }

  lemma {:induction false} MembersOf(s: CStr) returns (members: SpelledMembers)
    requires MemberList(s).Ok?
    ensures var rest := MemberList(s).rest;
            AcceptsMembers(members, rest) && s == SpellMembers(members, rest) &&
            MembersMean(members) == MemberList(s).value
    decreases |s|, 3
  {
    var m := MemberOf(s);
    var after := NamedValue(s).rest;
    FirstByte(after);
    if Head(after) == COMMA {
      var rest := MembersOf(after[1..]);
      members := MoreMembers(m, rest);
    } else {
      members := LastMember(m);
    }
  }

  /** The parser reads a value exactly where an accepted spelling of it stands. */
  lemma {:induction false} ValueIff(s: CStr, t: Json, rest: CStr)
    ensures Value(s) == Ok(t, rest) <==> exists v: Spelled :: Spells(s, v, t, rest)
  {
    if Value(s) == Ok(t, rest) {
      var v := SpellingOf(s);
    }
    forall v: Spelled | Spells(s, v, t, rest) ensures Value(s) == Ok(t, rest) {
      SpellingReads(v, rest);
    }
  }

  /** `s` is white space, an accepted spelling of `t`, and a rest: any, or white space if the end is required. */
  predicate SpellsDocument(s: CStr, requireEnd: bool, before: CStr, v: Spelled, after: CStr, t: Json, rest: CStr) {
    && Blank(before) && s == before + Spell(v, after) && Accepts(v, after) && t == Means(v)
    && if requireEnd then Blank(after) && rest == [] else rest == after
  }

  lemma {:induction false} DocumentOf(s: CStr, requireEnd: bool) returns (before: CStr, v: Spelled, after: CStr)
    requires Document(s, requireEnd).Ok?
    ensures SpellsDocument(s, requireEnd, before, v, after, Document(s, requireEnd).value, Document(s, requireEnd).rest)
  {
    before := BlankOf(s);
    v := SpellingOf(Skip(s));
    after := Value(Skip(s)).rest;
    if requireEnd {
      var blank := BlankOf(after);
      assert blank + [] == blank;
    }
  }

  lemma {:induction false} AcceptedDocument(s: CStr, requireEnd: bool, before: CStr, v: Spelled, after: CStr,
                                            t: Json, rest: CStr)
    requires SpellsDocument(s, requireEnd, before, v, after, t, rest)
    ensures Document(s, requireEnd) == Ok(t, rest)
  {
    SpelledVisible(v, after);
    SkipsBlank(before, Spell(v, after));
    SpellingReads(v, after);
    if requireEnd {
      assert after + [] == after;
      SkipsBlank(after, []);
    }
  }

  /** The texts `cJSON_ParseWithOpts` accepts, and what it returns for each. */
  lemma {:induction false} DocumentIff(s: CStr, requireEnd: bool, t: Json, rest: CStr)
    ensures Document(s, requireEnd) == Ok(t, rest)
       <==> exists before: CStr, v: Spelled, after: CStr :: SpellsDocument(s, requireEnd, before, v, after, t, rest)
  {
    if Document(s, requireEnd) == Ok(t, rest) {
      var before, v, after := DocumentOf(s, requireEnd);
    }
    forall before: CStr, v: Spelled, after: CStr | SpellsDocument(s, requireEnd, before, v, after, t, rest)
      ensures Document(s, requireEnd) == Ok(t, rest)
    {
      AcceptedDocument(s, requireEnd, before, v, after, t, rest);
    }
  }
}
