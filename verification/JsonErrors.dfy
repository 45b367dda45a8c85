/**
  Where the parser's error pointer stands: the texts that fail, each as what was
  read of it and the place where nothing fits, and the theorem that they fail
  there and no other texts fail.
 */
module JsonErrors {
  import opened JsonText
  import opened JsonGrammar
  import opened JsonEscapes
  import opened JsonNumerals
  import opened JsonSpelling
  import opened JsonLanguage

  /** How far into a value the parser gets: to where a value is missing, or into an array or object. */
  datatype Stop = NoValue | InArray(items: ItemStop) | InObject(members: MemberStop)

  /** The elements read, and what is missing: a part of a value, or what separates elements. */
  datatype ItemStop =
    | BadItem(before: CStr, value: Stop)
    | NoBracket(item: SpelledItem)
    | NextItem(item: SpelledItem, rest: ItemStop)

  /** The members read, and what is missing: a name, a colon, a part of a value, or what separates members. */
  datatype MemberStop =
    | NoName(before: CStr)
    | NoColon(before: CStr, name: seq<Piece>, closed: bool, after: CStr)
    | BadMember(before: CStr, name: seq<Piece>, beforeColon: CStr, afterColon: CStr, value: Stop)
    | NoBrace(member: SpelledMember)
    | NextMember(member: SpelledMember, rest: MemberStop)

  // ----- the text, with `at` where the parser stops -----

  function Upto(o: Stop, at: CStr): CStr
    decreases o, 0
  {
    match o
    case NoValue => at
    case InArray(items) => [LBRACKET] + ItemsUpto(items, at)
    case InObject(members) => [LBRACE] + MembersUpto(members, at)
  }

  function ItemsUpto(o: ItemStop, at: CStr): CStr
    decreases o, 0
  {
    match o
    case BadItem(before, value) => before + Upto(value, at)
    case NoBracket(item) => SpellItem(item, at)
    case NextItem(item, rest) => SpellItem(item, [COMMA] + ItemsUpto(rest, at))
  }

  /** A name, its colon and a value the parser stops in. */
  function NamedUpto(name: seq<Piece>, beforeColon: CStr, afterColon: CStr, value: Stop, at: CStr): CStr
    decreases value, 1
  {
    LiteralText(name, true, beforeColon + ([COLON] + (afterColon + Upto(value, at))))
  }

  function MembersUpto(o: MemberStop, at: CStr): CStr
    decreases o, 0
  {
    match o
    case NoName(before) => before + at
    case NoColon(before, name, closed, after) => before + LiteralText(name, closed, after + at)
    case BadMember(before, name, beforeColon, afterColon, value) =>
      before + NamedUpto(name, beforeColon, afterColon, value, at)
    case NoBrace(member) => SpellMember(member, at)
    case NextMember(member, rest) => SpellMember(member, [COMMA] + MembersUpto(rest, at))
  }

  // ----- what does not fit -----

  predicate Visible(s: CStr) {
    s == [] || s[0] > 32
  }

  /** No value begins here. */
  predicate NoValueAt(s: CStr) {
    Visible(s) && NoWord(s) && Head(s) !in {QUOTE, MINUS, LBRACKET, LBRACE} && !IsDigit(Head(s))
  }

  predicate Stops(o: Stop, at: CStr)
    decreases o
  {
    match o
    case NoValue => NoValueAt(at)
    case InArray(items) => ItemStops(items, at) && !(items.BadItem? && items.value.NoValue? && Head(at) == RBRACKET)
    case InObject(members) => MemberStops(members, at) && !(members.NoName? && Head(at) == RBRACE)
  }

  predicate ItemStops(o: ItemStop, at: CStr)
    decreases o
  {
    match o
    case BadItem(before, value) => Blank(before) && Stops(value, at)
    case NoBracket(item) => AcceptsItem(item, at) && Visible(at) && Head(at) != COMMA && Head(at) != RBRACKET
    case NextItem(item, rest) => AcceptsItem(item, [COMMA] + ItemsUpto(rest, at)) && ItemStops(rest, at)
  }

  predicate MemberStops(o: MemberStop, at: CStr)
    decreases o
  {
    match o
    case NoName(before) => Blank(before) && Visible(at) && Head(at) != QUOTE
    case NoColon(before, name, closed, after) =>
      && Blank(before) && AllRead(name, LiteralEnd(closed, after + at)) && (closed || after + at == [])
      && Blank(after) && Visible(at) && Head(at) != COLON
    case BadMember(before, name, beforeColon, afterColon, value) =>
      && Blank(before) && Blank(beforeColon) && Blank(afterColon) && Stops(value, at)
      && AllRead(name, LiteralEnd(true, beforeColon + ([COLON] + (afterColon + Upto(value, at)))))
    case NoBrace(member) => AcceptsMember(member, at) && Visible(at) && Head(at) != COMMA && Head(at) != RBRACE
    case NextMember(member, rest) => AcceptsMember(member, [COMMA] + MembersUpto(rest, at)) && MemberStops(rest, at)
  }

  // ----- such a text fails there -----

  lemma {:induction false} StopsVisible(o: Stop, at: CStr)
    requires Stops(o, at)
    ensures Visible(Upto(o, at))
  {}

  /** A part of a value, as the parser meets it behind white space. */
  lemma {:induction false} StopStarts(blank: CStr, o: Stop, at: CStr)
    requires Blank(blank) && Stops(o, at)
    ensures Skip(blank + Upto(o, at)) == Upto(o, at)
  {
    StopsVisible(o, at);
    SkipsBlank(blank, Upto(o, at));
  }

  lemma {:induction false} SkipTwice(s: CStr)
    ensures Skip(Skip(s)) == Skip(s)
  {
    SkipsBlank([], Skip(s));
    assert [] + Skip(s) == Skip(s);
  }

  lemma {:induction false} NoneFails(s: CStr)
    requires NoValueAt(s)
    ensures Value(s) == Fail(s)
  {}

  /** An array is what its list is, unless it is empty. */
  lemma {:induction false} ArrayFailsIff(s: CStr, at: CStr)
    requires s != [] && s[0] == LBRACKET
    ensures Value(s) == Fail(at) <==> Head(Skip(s[1..])) != RBRACKET && ItemList(s[1..]) == Fail(at)
  {
    SkipTwice(s[1..]);
    SameItems(s[1..], Skip(s[1..]));
    hide Skip, ItemList;
    assert NULL_TEXT[0] == 110 && FALSE_TEXT[0] == 102 && TRUE_TEXT[0] == 116;
  }

  lemma {:induction false} SameItems(s: CStr, t: CStr)
    requires Skip(s) == Skip(t)
    ensures ItemList(s) == ItemList(t)
  {
    hide Skip, Value;
  }

  lemma {:induction false} ObjectFailsIff(s: CStr, at: CStr)
    requires s != [] && s[0] == LBRACE
    ensures Value(s) == Fail(at) <==> Head(Skip(s[1..])) != RBRACE && MemberList(s[1..]) == Fail(at)
  {
    SkipTwice(s[1..]);
    SameMembers(s[1..], Skip(s[1..]));
    hide Skip, MemberList;
    assert NULL_TEXT[0] == 110 && FALSE_TEXT[0] == 102 && TRUE_TEXT[0] == 116;
  }

  lemma {:induction false} SameMembers(s: CStr, t: CStr)
    requires Skip(s) == Skip(t)
    ensures MemberList(s) == MemberList(t)
  {
    hide Skip, Value, StringLiteral;
    assert NamedValue(s) == NamedValue(t);
  }

  /** The parser stops where the text says. */
  lemma {:induction false} StopsRead(o: Stop, at: CStr)
    requires Stops(o, at)
    ensures Value(Upto(o, at)) == Fail(at)
    decreases o, 1
  {
    match o
    case NoValue => NoneFails(at);
    case InArray(items) =>
      var s, inside := Upto(o, at), ItemsUpto(items, at);
      assert s[1..] == inside;
      ItemsOpen(items, at);
      ItemsFail(items, at, inside);
      ArrayFailsIff(s, at);
    case InObject(members) =>
      var s, inside := Upto(o, at), MembersUpto(members, at);
      assert s[1..] == inside;
      MembersOpen(members, at);
      MembersFail(members, at, inside);
      ObjectFailsIff(s, at);
  }

  /** A list that is not empty does not begin with a bracket. */
  lemma {:induction false} ItemsOpen(o: ItemStop, at: CStr)
    requires ItemStops(o, at) && !(o.BadItem? && o.value.NoValue? && Head(at) == RBRACKET)
    ensures Head(Skip(ItemsUpto(o, at))) != RBRACKET
  {
    match o
    case BadItem(before, value) => StopStarts(before, value, at);
    case NoBracket(item) => ItemStarts(item, at);
    case NextItem(item, rest) => ItemStarts(item, [COMMA] + ItemsUpto(rest, at));
  }

  lemma {:induction false} ItemsFail(o: ItemStop, at: CStr, s: CStr)
    requires ItemStops(o, at) && Skip(s) == Skip(ItemsUpto(o, at))
    ensures ItemList(s) == Fail(at)
    decreases o, 0
  {
    match o
    case BadItem(before, value) =>
      StopStarts(before, value, at);
      StopsRead(value, at);
    case NoBracket(item) =>
      ItemStarts(item, at);
      ItemReads(item, at);
    case NextItem(item, rest) =>
      var next := ItemsUpto(rest, at);
      var more: CStr := [COMMA] + next;
      ItemStarts(item, more);
      ItemReads(item, more);
      assert more[1..] == next;
      ItemsFail(rest, at, next);
  }

  lemma {:induction false} MembersOpen(o: MemberStop, at: CStr)
    requires MemberStops(o, at) && !(o.NoName? && Head(at) == RBRACE)
    ensures Head(Skip(MembersUpto(o, at))) != RBRACE
  {
    match o
    case NoName(before) => SkipsBlank(before, at);
    case NoColon(before, name, closed, after) => SkipsBlank(before, LiteralText(name, closed, after + at));
    case BadMember(before, name, beforeColon, afterColon, value) =>
      SkipsBlank(before, NamedUpto(name, beforeColon, afterColon, value, at));
    case NoBrace(member) => MemberStarts(member, at);
    case NextMember(member, rest) => MemberStarts(member, [COMMA] + MembersUpto(rest, at));
  }

  lemma {:induction false} MembersFail(o: MemberStop, at: CStr, s: CStr)
    requires MemberStops(o, at) && Skip(s) == Skip(MembersUpto(o, at))
    ensures MemberList(s) == Fail(at)
    decreases o, 1
  {
    match o
    case NoName(before) => SkipsBlank(before, at);
    case NoColon(before, name, closed, after) => NoColonFails(before, name, closed, after, at, s);
    case BadMember(before, name, beforeColon, afterColon, value) => BadMemberFails(o, at, s);
    case NoBrace(member) =>
      MemberStarts(member, at);
      MemberReads(member, at, s);
    case NextMember(member, rest) =>
      var next := MembersUpto(rest, at);
      var more: CStr := [COMMA] + next;
      MemberStarts(member, more);
      MemberReads(member, more, s);
      assert more[1..] == next;
      MembersFail(rest, at, next);
  }

  lemma {:induction false} NoColonFails(before: CStr, name: seq<Piece>, closed: bool, after: CStr, at: CStr, s: CStr)
    requires MemberStops(NoColon(before, name, closed, after), at)
    requires Skip(s) == Skip(before + LiteralText(name, closed, after + at))
    ensures MemberList(s) == Fail(at)
  {
    SkipsBlank(before, LiteralText(name, closed, after + at));
    LiteralValue(name, closed, after + at);
    SkipsBlank(after, at);
    assert NamedValue(s) == Fail(at);
  }

  lemma {:induction false} BadMemberFails(o: MemberStop, at: CStr, s: CStr)
    requires o.BadMember? && MemberStops(o, at) && Skip(s) == Skip(MembersUpto(o, at))
    ensures MemberList(s) == Fail(at)
    decreases o, 0
  {
    var colon: CStr := [COLON] + (o.afterColon + Upto(o.value, at));
    SkipsBlank(o.before, LiteralText(o.name, true, o.beforeColon + colon));
    LiteralValue(o.name, true, o.beforeColon + colon);
    SkipsBlank(o.beforeColon, colon);
    assert colon[1..] == o.afterColon + Upto(o.value, at);
    StopStarts(o.afterColon, o.value, at);
    StopsRead(o.value, at);
    assert NamedValue(s) == Fail(at);
  }

  // ----- every text that fails is such a text -----

  lemma {:induction false} StopOf(s: CStr) returns (o: Stop)
    requires Value(s).Fail? && Visible(s)
    ensures Stops(o, Value(s).at) && Upto(o, Value(s).at) == s
    decreases |s|, 1
  {
    FirstByte(s);
    var at := Value(s).at;
    if Head(s) == LBRACKET {
      ArrayFailsIff(s, at);
      var items := ItemStopOf(s[1..]);
      o := InArray(items);
      if items.BadItem? && items.value.NoValue? {
        StopStarts(items.before, NoValue, at);
      }
    } else if Head(s) == LBRACE {
      ObjectFailsIff(s, at);
      var members := MemberStopOf(s[1..]);
      o := InObject(members);
      if members.NoName? {
        SkipsBlank(members.before, at);
      }
    } else {
      o := NoValue;
    }
  }

  lemma {:induction false} ItemStopOf(s: CStr) returns (o: ItemStop)
    requires ItemList(s).Fail?
    ensures ItemStops(o, ItemList(s).at) && ItemsUpto(o, ItemList(s).at) == s
    decreases |s|, 2
  {
    if Value(Skip(s)).Fail? {
      var before := BlankOf(s);
      var value := StopOf(Skip(s));
      o := BadItem(before, value);
    } else {
      var item, after := ItemOf(s);
      FirstByte(after);
      if Head(after) == COMMA {
        var rest := ItemStopOf(after[1..]);
        o := NextItem(item, rest);
      } else {
        o := NoBracket(item);
      }
    }
  }

  lemma {:induction false} MemberStopOf(s: CStr) returns (o: MemberStop)
    requires MemberList(s).Fail?
    ensures MemberStops(o, MemberList(s).at) && MembersUpto(o, MemberList(s).at) == s
    decreases |s|, 3
  {
    if NamedValue(s).Fail? {
      o := NamedStopOf(s);
    } else {
      var member := MemberOf(s);
      var after := NamedValue(s).rest;
      FirstByte(after);
      if Head(after) == COMMA {
        var rest := MemberStopOf(after[1..]);
        o := NextMember(member, rest);
      } else {
        o := NoBrace(member);
      }
    }
  }

  lemma {:induction false} NamedStopOf(s: CStr) returns (o: MemberStop)
    requires NamedValue(s).Fail?
    ensures MemberStops(o, NamedValue(s).at) && MembersUpto(o, NamedValue(s).at) == s
    decreases |s|, 2
  {
    var before := BlankOf(s);
    if StringLiteral(Skip(s)).Fail? {
      o := NoName(before);
    } else {
      var name, closed := LiteralOf(Skip(s));
      var more := StringLiteral(Skip(s)).rest;
      var blank := BlankOf(more);
      var colon := Skip(more);
      FirstByte(colon);
      if Head(colon) != COLON {
        o := NoColon(before, name, closed, blank);
      } else {
        var afterColon := BlankOf(colon[1..]);
        var value := StopOf(Skip(colon[1..]));
        o := BadMember(before, name, blank, afterColon, value);
        assert closed;
      }
    }
  }

  // ----- whole texts -----

  /** White space, and a value that the parser stops in at `at`. */
  predicate StopsDocument(s: CStr, before: CStr, o: Stop, at: CStr) {
    Blank(before) && Stops(o, at) && s == before + Upto(o, at)
  }

  /** A value, and something visible behind it. */
  predicate GoesOn(s: CStr, before: CStr, v: Spelled, after: CStr, at: CStr) {
    && Blank(before) && Accepts(v, after + at) && Blank(after) && at != [] && Visible(at)
    && s == before + Spell(v, after + at)
  }

  /**
    `cJSON_ParseWithOpts` fails with its error pointer at `at` if and only if the
    text stops there: inside its value, or behind it where the end is required.
   */
  lemma {:induction false} ErrorIff(s: CStr, requireEnd: bool, at: CStr)
    ensures Document(s, requireEnd) == Fail(at)
       <==> || (exists before: CStr, o: Stop :: StopsDocument(s, before, o, at))
            || (requireEnd && exists before: CStr, v: Spelled, after: CStr :: GoesOn(s, before, v, after, at))
  {
    if Document(s, requireEnd) == Fail(at) {
      var before := BlankOf(s);
      if Value(Skip(s)).Fail? {
        var o := StopOf(Skip(s));
        assert StopsDocument(s, before, o, at);
      } else {
        var v := SpellingOf(Skip(s));
        var after := BlankOf(Value(Skip(s)).rest);
        assert GoesOn(s, before, v, after, at);
      }
    }
    forall before: CStr, o: Stop | StopsDocument(s, before, o, at) ensures Document(s, requireEnd) == Fail(at) {
      StopStarts(before, o, at);
      StopsRead(o, at);
    }
    forall before: CStr, v: Spelled, after: CStr | GoesOn(s, before, v, after, at)
      ensures Document(s, true) == Fail(at)
    {
      SpelledVisible(v, after + at);
      SkipsBlank(before, Spell(v, after + at));
      SpellingReads(v, after + at);
      SkipsBlank(after, at);
    }
  }
}
