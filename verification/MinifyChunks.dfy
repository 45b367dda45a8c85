/**
  What `cJSON_Minify` does to any text whatever: the text falls into white
  space, comments, literals and other bytes, and the last two stay.
 */
module MinifyChunks {
  import opened JsonText
  import opened JsonGrammar
  import opened JsonMinify
  import opened Options

  /** The white space of section 2 of RFC 8259: space, tab, line feed and carriage return. */
  const WHITE: CStr := [0x20, 0x09, 0x0A, 0x0D]

  /** A piece of a text; the star of `text` opens a block comment and may close it as well. */
  datatype Chunk =
    | White(b: cbyte)
    | LineComment(text: CStr)
    | LastComment(text: CStr)
    | BlockComment(text: CStr)
    | Literal(body: CStr)
    | Other(b: cbyte)

  function Written(c: Chunk): CStr {
    match c
    case White(b) => [b]
    case LineComment(text) => [0x2F, 0x2F] + text + [0x0A]
    case LastComment(text) => [0x2F, 0x2F] + text
    case BlockComment(text) => [0x2F] + text + [0x2A, 0x2F]
    case Literal(body) => [0x22] + body + [0x22]
    case Other(b) => [b]
  }

  function Kept(c: Chunk): CStr {
    if c.Literal? || c.Other? then Written(c) else []
  }

  predicate Shaped(c: Chunk) {
    match c
    case White(b) => b in WHITE
    case LineComment(text) => 0x0A !in text
    case LastComment(text) => 0x0A !in text
    case BlockComment(text) =>
      && (text != [] ==> text[0] == 0x2A)
      && forall k: nat :: k <= |text| ==> !ClosesComment(Written(c), k)
    case Literal(body) => Closes(body + [0x22], |body|) && forall k: nat :: k < |body| ==> !Closes(body + [0x22], k)
    case Other(b) => b !in WHITE && b != 0x22
  }

  /** What may follow: a slash that stays must not open a comment. */
  predicate Stands(c: Chunk, rest: CStr) {
    && (c == Other(0x2F) && rest != [] ==> rest[0] != 0x2F && rest[0] != 0x2A)
    && (c.LastComment? ==> rest == [])
  }

  function WrittenAll(cs: seq<Chunk>): CStr
    decreases |cs|
  {
    if cs == [] then [] else Written(cs[0]) + WrittenAll(cs[1..])
  }

  function KeptAll(cs: seq<Chunk>): CStr
    decreases |cs|
  {
    if cs == [] then [] else Kept(cs[0]) + KeptAll(cs[1..])
  }

  predicate AllStand(cs: seq<Chunk>)
    decreases |cs|
  {
    cs != [] ==> Shaped(cs[0]) && Stands(cs[0], WrittenAll(cs[1..])) && AllStand(cs[1..])
  }

  // ----- where comments and literals end -----

  /** The first line feed. */
  predicate EndsLine(s: CStr, k: nat) {
    k < |s| && s[k] == LF && forall i :: 0 <= i < k ==> s[i] != LF
  }

  lemma {:induction false} EndsLineLater(s: CStr, k: nat)
    requires s != [] && s[0] != LF && EndsLine(s[1..], k)
    ensures EndsLine(s, k + 1) && s[1..][k..] == s[k + 1..]
  {
    forall i | 0 <= i < k + 1 ensures s[i] != LF {
      assert i > 0 ==> s[i] == s[1..][i - 1];
    }
  }

  /** A line comment ends before the first line feed, or with the text if and only if there is none. */
  lemma {:induction false} LineEnds(s: CStr)
    ensures if LF in s then exists k: nat :: EndsLine(s, k) && LineEnd(s) == s[k..] else LineEnd(s) == []
  {
    if s != [] && s[0] == LF {
      assert EndsLine(s, 0);
    } else if s != [] {
      LineEnds(s[1..]);
      if LF in s {
        var k: nat :| EndsLine(s[1..], k) && LineEnd(s[1..]) == s[1..][k..];
        EndsLineLater(s, k);
      }
    }
  }

  /** Before a line feed. */
  lemma {:induction false} LineEndAt(a: CStr, rest: CStr)
    requires LF !in a
    ensures LineEnd(a + [LF] + rest) == [LF] + rest
  {
    var s := a + [LF] + rest;
    LineEnds(s);
    assert s[|a|] == LF && s[|a|..] == [LF] + rest;
  }

  lemma {:induction false} CommentEndAt(a: CStr, rest: CStr)
    requires |a| >= 2 && ClosesComment(a, |a| - 2) && forall k: nat :: k < |a| - 2 ==> !ClosesComment(a, k)
    ensures CommentEnd(a + rest) == Some(rest)
  {
    var s := a + rest;
    ClosingStar(s);
    assert ClosesComment(s, |a| - 2);
    var k: nat :| ClosesComment(s, k) && CommentEnd(s).value == s[k + 2..]
                  && forall j: nat :: j < k ==> !ClosesComment(s, j);
    assert k < |a| - 2 ==> ClosesComment(a, k);
    assert s[|a|..] == rest;
  }

  lemma {:induction false} SamePrefix(a: CStr, rest: CStr, k: nat)
    requires k < |a|
    ensures Backslashes(a + rest, k) == Backslashes(a, k)
    ensures Closes(a + rest, k) <==> Closes(a, k)
  {
    if k > 0 {
      SamePrefix(a, rest, k - 1);
    }
  }

  lemma {:induction false} LiteralEndAt(body: CStr, rest: CStr)
    requires Shaped(Literal(body))
    ensures LiteralLength(body + ([QUOTE] + rest)) == Some(|body| + 1)
  {
    var a := body + [QUOTE];
    var s := a + rest;
    assert s == body + ([QUOTE] + rest);
    ClosingQuote(s);
    SamePrefix(a, rest, |body|);
    if LiteralLength(s).Some? && LiteralLength(s).value <= |body| {
      SamePrefix(a, rest, LiteralLength(s).value - 1);
    }
  }

  // ----- a text that falls into chunks -----

  lemma {:induction false} MinifiesComment(c: Chunk, rest: CStr)
    requires Shaped(c) && Stands(c, rest) && (c.LineComment? || c.LastComment? || c.BlockComment?)
    ensures Minified(Written(c) + rest) == Minified(rest)
  {
    var s := Written(c) + rest;
    match c
    case LineComment(text) =>
      LineEndAt([SLASH, SLASH] + text, rest);
      assert ([LF] + rest)[1..] == rest;
    case LastComment(text) =>
      assert s == Written(c);
      LineEnds(s);
    case BlockComment(text) =>
      assert s[1] == STAR;
      CommentEndAt(Written(c), rest);
  }

  lemma {:induction false} MinifiesChunk(c: Chunk, rest: CStr)
    requires Shaped(c) && Stands(c, rest)
    ensures Minified(Written(c) + rest) == Keep(Kept(c), Minified(rest))
  {
    KeepNothing(Minified(rest));
    match c
    case White(b) => assert ([b] + rest)[1..] == rest;
    case Other(b) => assert ([b] + rest)[1..] == rest;
    case Literal(body) =>
      LiteralEndAt(body, rest);
      LiteralAround(body, rest);
    case _ => MinifiesComment(c, rest);
  }

  /** Minifying a text keeps exactly the literals and other bytes among its chunks. */
  lemma {:induction false} ChunksKept(cs: seq<Chunk>)
    requires AllStand(cs)
    ensures Minified(WrittenAll(cs)) == Some(KeptAll(cs))
  {
    if cs != [] {
      hide Minified, Written, Shaped, Stands;
      ChunksKept(cs[1..]);
      MinifiesChunk(cs[0], WrittenAll(cs[1..]));
    }
  }

  // ----- any text falls into chunks -----

  /** The first chunk of a text that can be minified. */
  lemma {:induction false} FirstChunk(s: CStr) returns (c: Chunk, rest: CStr)
    requires s != [] && Minified(s).Some?
    ensures Shaped(c) && Stands(c, rest) && s == Written(c) + rest && |rest| < |s|
  {
    if Blank(s[0]) {
      c, rest := White(s[0]), s[1..];
    } else if s[0] == SLASH && Head(s[1..]) == SLASH {
      c, rest := FirstLine(s);
    } else if s[0] == SLASH && Head(s[1..]) == STAR {
      c, rest := FirstBlock(s);
    } else if s[0] == QUOTE {
      c, rest := FirstLiteral(s);
    } else {
      c, rest := Other(s[0]), s[1..];
    }
  }

  lemma {:induction false} FirstLine(s: CStr) returns (c: Chunk, rest: CStr)
    requires |s| >= 2 && s[0] == SLASH && s[1] == SLASH
    ensures Shaped(c) && Stands(c, rest) && s == Written(c) + rest && |rest| < |s|
  {
    if LF in s {
      LineEnds(s);
      var k: nat :| EndsLine(s, k);
      c, rest := LineComment(s[2..k]), s[k + 1..];
      assert s == [SLASH, SLASH] + s[2..k] + [LF] + rest;
    } else {
      c, rest := LastComment(s[2..]), [];
    }
  }

  lemma {:induction false} FirstBlock(s: CStr) returns (c: Chunk, rest: CStr)
    requires |s| >= 2 && s[0] == SLASH && s[1] == STAR && CommentEnd(s).Some?
    ensures Shaped(c) && Stands(c, rest) && s == Written(c) + rest && |rest| < |s|
  {
    ClosingStar(s);
    var k: nat :| ClosesComment(s, k) && CommentEnd(s).value == s[k + 2..]
                  && forall j: nat :: j < k ==> !ClosesComment(s, j);
    c, rest := BlockComment(s[1..k]), s[k + 2..];
    assert s == [SLASH] + s[1..k] + [STAR, SLASH] + rest;
    forall j: nat | j < k ensures !ClosesComment(Written(c), j) {
      assert ClosesComment(Written(c), j) ==> ClosesComment(s, j);
    }
  }

  lemma {:induction false} FirstLiteral(s: CStr) returns (c: Chunk, rest: CStr)
    requires s != [] && s[0] == QUOTE && LiteralLength(s[1..]).Some?
    ensures Shaped(c) && Stands(c, rest) && s == Written(c) + rest && |rest| < |s|
  {
    ClosingQuote(s[1..]);
    var n := LiteralLength(s[1..]).value;
    c, rest := Literal(s[1..n]), s[n + 1..];
    var a := s[1..n] + [QUOTE];
    assert s[1..] == a + rest;
    forall k: nat | k < n ensures Closes(a, k) <==> Closes(s[1..], k) {
      SamePrefix(a, rest, k);
    }
    assert s == [QUOTE] + s[1..n] + [QUOTE] + rest;
  }

  /** Whatever can be minified falls into chunks, so the chunks say all there is to say. */
  lemma {:induction false} ChunksOf(s: CStr) returns (cs: seq<Chunk>)
    requires Minified(s).Some?
    ensures AllStand(cs) && WrittenAll(cs) == s
    decreases |s|
  {
    if s == [] {
      cs := [];
    } else {
      var c, rest := FirstChunk(s);
      MinifiesChunk(c, rest);
      hide Minified, Written, Shaped, Stands;
      cs := ChunksOf(rest);
      assert ([c] + cs)[1..] == cs;
      cs := [c] + cs;
    }
  }

  // ----- block comments as they are meant -----

  /**
    A block comment ends where its text does if and only if that text does not
    begin with a slash: the opening star would close it at once.
   */
  lemma {:induction false} CommentEndsIff(body: CStr, rest: CStr)
    requires forall k: nat :: k < |body| ==> !ClosesComment(body + [STAR, SLASH], k)
    ensures CommentEnd([SLASH, STAR] + body + [STAR, SLASH] + rest) == Some(rest) <==> body == [] || body[0] != SLASH
  {
    var a := body + [STAR, SLASH];
    var s := [SLASH, STAR] + body + [STAR, SLASH] + rest;
    if body != [] && body[0] == SLASH {
      assert ClosesComment(s, 1);
      CommentEndAt([SLASH, STAR, SLASH], body[1..] + [STAR, SLASH] + rest);
      assert s == [SLASH, STAR, SLASH] + (body[1..] + [STAR, SLASH] + rest);
    } else {
      var w := [SLASH, STAR] + a;
      assert s == w + rest;
      forall k: nat | k < |w| - 2 ensures !ClosesComment(w, k) {
        assert k >= 2 ==> (ClosesComment(w, k) <==> ClosesComment(a, k - 2));
      }
      CommentEndAt(w, rest);
    }
  }

  /** Of a comment around `/a` the last three bytes stay. */
  lemma {:induction false} SlashAfterStar()
    ensures Minified([SLASH, STAR, SLASH, 97, STAR, SLASH]) == Some([97, STAR, SLASH])
  {
    var a, b: CStr, c: CStr := [97, STAR, SLASH], [STAR, SLASH], [SLASH];
    assert Minified([]) == Some([]);
    hide Minified;
    OtherKept(SLASH, []);
    OtherKept(STAR, c);
    OtherKept(97, b);
    assert [97] + b == a && [STAR] + c == b && c + [] == c;
    MinifiesChunk(BlockComment([]), a);
    assert Written(BlockComment([])) + a == [SLASH, STAR, SLASH, 97, STAR, SLASH];
    KeepNothing(Minified(a));
  }

  lemma {:induction false} OtherKept(b: cbyte, rest: CStr)
    requires Shaped(Other(b)) && Stands(Other(b), rest)
    ensures Minified([b] + rest) == Keep([b], Minified(rest))
  {
    hide Minified;
    MinifiesChunk(Other(b), rest);
  }
}
