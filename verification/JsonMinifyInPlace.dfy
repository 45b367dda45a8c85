/**
  The loop of `cJSON_Minify`: the text is rewritten in its own buffer, and the
  write position never passes the read position.
 */
module JsonMinifyInPlace {
  import opened JsonText
  import opened JsonGrammar
  import opened Options
  import opened JsonMinify

  /** The buffer holds the C string `s`: its bytes, then a terminator. */
  ghost predicate HoldsString(buf: array<byte>, s: CStr)
    reads buf
  {
    |s| < buf.Length && buf[..|s|] == s && buf[|s|] == 0
  }

  /** A text being rewritten: its original bytes, and the buffer from its terminator on. */
  datatype Scan = Scan(text: CStr, tail: seq<byte>)

  /** `out` has been written, `at` bytes have been read, and the rest is still there to read. */
  ghost predicate Scanning(buf: array<byte>, scan: Scan, out: CStr, at: nat)
    reads buf
  {
    && |out| <= at <= |scan.text| < buf.Length
    && buf[..|out|] == out
    && buf[at..|scan.text|] == scan.text[at..]
    && buf[|scan.text|..] == scan.tail
    && scan.tail[0] == 0
  }

  lemma {:induction false} ReadsAhead(buf: array<byte>, scan: Scan, out: CStr, at: nat)
    requires Scanning(buf, scan, out, at)
    ensures buf[at] == Head(scan.text[at..])
    ensures at < |scan.text| ==> buf[at + 1] == Head(scan.text[at + 1..])
    ensures at < |scan.text| ==> scan.text[at..][1..] == scan.text[at + 1..]
  {
    assert buf[|scan.text|] == buf[|scan.text|..][0];
    if at < |scan.text| {
      assert buf[at] == buf[at..|scan.text|][0];
      if at + 1 < |scan.text| {
        assert buf[at + 1] == buf[at..|scan.text|][1];
      }
    }
  }

  method SkipLine(json: array<byte>, ghost scan: Scan, ghost out: CStr, start: nat) returns (at: nat)
    requires Scanning(json, scan, out, start)
    ensures start <= at && Scanning(json, scan, out, at)
    ensures scan.text[at..] == LineEnd(scan.text[start..])
  {
    at := start;
    ReadsAhead(json, scan, out, at);
    while json[at] != 0 && json[at] != LF
      invariant start <= at && Scanning(json, scan, out, at)
      invariant json[at] == Head(scan.text[at..])
      invariant LineEnd(scan.text[at..]) == LineEnd(scan.text[start..])
      decreases |scan.text| - at
    {
      ReadsAhead(json, scan, out, at);
      at := at + 1;
      ReadsAhead(json, scan, out, at);
    }
  }

  /** Skips a block comment; false when that would step over the terminator. */
  method SkipComment(json: array<byte>, ghost scan: Scan, ghost out: CStr, start: nat) returns (at: nat, inside: bool)
    requires Scanning(json, scan, out, start)
    ensures inside <==> CommentEnd(scan.text[start..]).Some?
    ensures inside ==> start <= at && Scanning(json, scan, out, at)
    ensures inside ==> Some(scan.text[at..]) == CommentEnd(scan.text[start..])
  {
    at := start;
    ReadsAhead(json, scan, out, at);
    while json[at] != 0 && !(json[at] == STAR && json[at + 1] == SLASH)
      invariant start <= at && Scanning(json, scan, out, at)
      invariant json[at] == Head(scan.text[at..])
      invariant at < |scan.text| ==> json[at + 1] == Head(scan.text[at + 1..])
      invariant at < |scan.text| ==> scan.text[at..][1..] == scan.text[at + 1..]
      invariant CommentEnd(scan.text[at..]) == CommentEnd(scan.text[start..])
      decreases |scan.text| - at
    {
      at := at + 1;
      ReadsAhead(json, scan, out, at);
    }
    inside := json[at] != 0;
    at := at + 2;
  }

  method CopyByte(json: array<byte>, ghost scan: Scan, ghost out: CStr, into: nat, at: nat)
    requires Scanning(json, scan, out, at) && at < |scan.text| && into == |out|
    modifies json
    ensures Scanning(json, scan, out + [scan.text[at]], at + 1)
  {
    ReadsAhead(json, scan, out, at);
    json[into] := json[at];
  }

  function Plus(n: nat, r: Option<nat>): Option<nat> {
    if r.Some? then Some(n + r.value) else None
  }

  /** Asks for what `Measuring` says of a text. */
  ghost predicate Recall(text: CStr) {
    true
  }

  /** The length of the literal from `start` on, with the part up to `at` measured. */
  ghost predicate Measuring(text: CStr, start: nat, at: nat) {
    && start <= at <= |text|
    && forall t: CStr {:trigger Recall(t)} :: Recall(t) && t == text ==>
         LiteralLength(t[start..]) == Plus(at - start, LiteralLength(t[at..]))
  }

  lemma {:induction false} LiteralBegins(text: CStr, start: nat)
    requires start <= |text|
    ensures Measuring(text, start, start)
  {}

  /** What the next byte or escape adds to the length. */
  lemma {:induction false} UnitLength(s: CStr)
    requires s != [] && s[0] != QUOTE
    ensures s[0] != BACKSLASH ==> LiteralLength(s) == Plus(1, LiteralLength(s[1..]))
    ensures s[0] == BACKSLASH ==> LiteralLength(s) == if |s| == 1 then None else Plus(2, LiteralLength(s[2..]))
  {}

  lemma {:induction false} MeasuredOn(text: CStr, start: nat, at: nat, n: nat)
    requires Measuring(text, start, at) && at + n <= |text|
    requires LiteralLength(text[at..]) == Plus(n, LiteralLength(text[at..][n..]))
    ensures Measuring(text, start, at + n)
  {
    assert Recall(text);
    assert text[at..][n..] == text[at + n..];
  }

  /** The next byte or escape is measured too. */
  lemma {:induction false} LiteralUnit(text: CStr, start: nat, at: nat)
    requires Measuring(text, start, at) && at < |text| && text[at] != QUOTE
    ensures text[at] != BACKSLASH ==> Measuring(text, start, at + 1)
    ensures text[at] == BACKSLASH && at + 1 == |text| ==> LiteralLength(text[start..]) == None
    ensures text[at] == BACKSLASH && at + 1 < |text| ==> Measuring(text, start, at + 2)
  {
    UnitLength(text[at..]);
    if text[at] != BACKSLASH {
      MeasuredOn(text, start, at, 1);
    } else if at + 1 < |text| {
      MeasuredOn(text, start, at, 2);
    } else {
      assert Recall(text);
    }
  }

  /** The literal is measured up to its closing quote, or up to the terminator. */
  lemma {:induction false} LiteralEnds(text: CStr, start: nat, at: nat)
    requires Measuring(text, start, at) && (at == |text| || text[at] == QUOTE)
    ensures LiteralLength(text[start..]) == if at == |text| then None else Some(at + 1 - start)
  {
    assert Recall(text);
    assert at < |text| ==> text[at..][0] == QUOTE;
  }

  /** The state inside a literal that began at `start`, with `at` reached. */
  ghost predicate Copying(json: array<byte>, scan: Scan, out: CStr, start: nat, into: nat, at: nat)
    reads json
  {
    && |out| <= start <= at <= |scan.text| && into == |out| + (at - start)
    && Scanning(json, scan, out + scan.text[start..at], at)
    && Measuring(scan.text, start, at)
  }

  /** `Copying`, one byte on. */
  method CopyOne(json: array<byte>, ghost scan: Scan, ghost out: CStr, ghost start: nat, into: nat, at: nat)
    requires |out| <= start <= at < |scan.text| && into == |out| + (at - start)
    requires Scanning(json, scan, out + scan.text[start..at], at)
    modifies json
    ensures Scanning(json, scan, out + scan.text[start..at + 1], at + 1)
  {
    Joined(out, scan.text, start, at, at + 1);
    CopyByte(json, scan, out + scan.text[start..at], into, at);
  }

  /** A byte of a literal, or a backslash and the byte it escapes; false when that would copy the terminator. */
  method CopyUnit(json: array<byte>, ghost scan: Scan, ghost out: CStr, ghost start: nat, into0: nat, at0: nat)
    returns (into: nat, at: nat, inside: bool)
    requires Copying(json, scan, out, start, into0, at0) && at0 < |scan.text| && scan.text[at0] != QUOTE
    modifies json
    ensures inside ==> at0 < at && Copying(json, scan, out, start, into, at)
    ensures !inside ==> LiteralLength(scan.text[start..]).None? && json[|scan.text|..] == scan.tail
  {
    LiteralUnit(scan.text, start, at0);
    ReadsAhead(json, scan, out + scan.text[start..at0], at0);
    var escape := json[at0] == BACKSLASH;
    inside := !escape || json[at0 + 1] != 0;
    CopyOne(json, scan, out, start, into0, at0);
    into, at := into0 + 1, at0 + 1;
    if escape && inside {
      CopyOne(json, scan, out, start, into, at);
      into, at := into + 1, at + 1;
    }
  }

  /** Copies a literal from after its opening quote to its closing quote; false when there is none. */
  method CopyLiteral(json: array<byte>, ghost scan: Scan, ghost out: CStr, into0: nat, start: nat)
    returns (into: nat, at: nat, inside: bool)
    requires Scanning(json, scan, out, start) && into0 == |out|
    modifies json
    ensures inside <==> LiteralLength(scan.text[start..]).Some?
    ensures json[|scan.text|..] == scan.tail
    ensures inside ==> at == start + LiteralLength(scan.text[start..]).value && into - into0 == at - start
    ensures inside ==> Scanning(json, scan, out + scan.text[start..at], at)
  {
    into, at, inside := into0, start, true;
    assert out + scan.text[start..at] == out;
    LiteralBegins(scan.text, start);
    ReadsAhead(json, scan, out, at);
    while json[at] != 0 && json[at] != QUOTE
      invariant Copying(json, scan, out, start, into, at) && json[at] == Head(scan.text[at..])
      decreases |scan.text| - at
    {
      into, at, inside := CopyUnit(json, scan, out, start, into, at);
      if !inside {
        return;
      }
      ReadsAhead(json, scan, out + scan.text[start..at], at);
    }
    into, at, inside := CloseLiteral(json, scan, out, start, into, at);
  }

  /** Copies the closing quote, if that is what ended the loop. */
  method CloseLiteral(json: array<byte>, ghost scan: Scan, ghost out: CStr, ghost start: nat, into0: nat, at0: nat)
    returns (into: nat, at: nat, inside: bool)
    requires Copying(json, scan, out, start, into0, at0) && (at0 == |scan.text| || scan.text[at0] == QUOTE)
    modifies json
    ensures LiteralLength(scan.text[start..]) == if inside then Some(at - start) else None
    ensures start <= at && json[|scan.text|..] == scan.tail
    ensures inside ==> into - |out| == at - start && at <= |scan.text|
    ensures inside ==> Scanning(json, scan, out + scan.text[start..at], at)
  {
    hide LiteralLength, Measuring;
    LiteralEnds(scan.text, start, at0);
    ReadsAhead(json, scan, out + scan.text[start..at0], at0);
    into, at, inside := into0, at0, json[at0] != 0;
    if inside {
      CopyOne(json, scan, out, start, into, at);
      into, at := into + 1, at + 1;
    }
  }

  lemma {:induction false} Joined(out: CStr, text: CStr, start: nat, a: nat, at: nat)
    requires start <= a <= at <= |text|
    ensures out + text[start..a] + text[a..at] == out + text[start..at]
    ensures at == a + 1 ==> text[a..at] == [text[a]]
  {}

  /**
    `cJSON_Minify`. The scan stays inside the text, and `inside` is true, if and
    only if every literal and block comment is closed. Where the code would go
    on to step over the terminator, the model stops.
   */
  method Minify(json: array<byte>, ghost text: CStr) returns (inside: bool)
    requires HoldsString(json, text)
    modifies json
    ensures inside <==> Minified(text).Some?
    ensures inside ==> HoldsString(json, Minified(text).value)
    ensures json[|text| + 1..] == old(json[|text| + 1..])
  {
    ghost var scan := Scan(text, json[|text|..]);
    ghost var out: CStr := [];
    var into: nat, at: nat := 0, 0;
    inside := true;
    KeepNothing(Minified(text));
    ReadsAhead(json, scan, out, at);
    while json[at] != 0
      invariant Turning(json, scan, out, into, at) && json[at] == Head(text[at..])
      decreases |text| - at
    {
      into, at, inside, out := Step(json, scan, out, into, at);
      if !inside {
        TailAfter(json[..], scan);
        return;
      }
      ReadsAhead(json, scan, out, at);
    }
    Finish(json, scan, out, into, at);
  }

  /** The state between turns of the loop: what is written stands for what was read. */
  ghost predicate Turning(json: array<byte>, scan: Scan, out: CStr, into: nat, at: nat)
    reads json
  {
    && Scanning(json, scan, out, at) && into == |out|
    && Minified(scan.text) == Keep(out, Minified(scan.text[at..]))
  }

  lemma {:induction false} TailAfter(buffer: seq<byte>, scan: Scan)
    requires |scan.text| < |buffer| && buffer[|scan.text|..] == scan.tail
    ensures buffer[|scan.text| + 1..] == scan.tail[1..]
  {
    assert buffer[|scan.text| + 1..] == buffer[|scan.text|..][1..];
  }

  /** One turn of the loop. */
  method Step(json: array<byte>, ghost scan: Scan, ghost out0: CStr, into0: nat, start: nat)
    returns (into: nat, at: nat, inside: bool, ghost out: CStr)
    requires Turning(json, scan, out0, into0, start) && start < |scan.text|
    modifies json
    ensures inside ==> start < at && Turning(json, scan, out, into, at)
    ensures !inside ==> Minified(scan.text).None? && json[|scan.text|..] == scan.tail
  {
    into, at, inside, out := into0, start, true, out0;
    ReadsAhead(json, scan, out, at);
    if json[at] == SPACE || json[at] == TAB || json[at] == CR || json[at] == LF {
      at := at + 1;
    } else if json[at] == SLASH && json[at + 1] == SLASH {
      at := SkipLine(json, scan, out, at);
    } else if json[at] == SLASH && json[at + 1] == STAR {
      at, inside := SkipComment(json, scan, out, at);
    } else if json[at] == QUOTE {
      into, at, inside := StepLiteral(json, scan, out, into, at);
      out := if inside then out + scan.text[start..at] else out;
    } else {
      KeepTwice(out, [scan.text[at]], Minified(scan.text[at + 1..]));
      CopyByte(json, scan, out, into, at);
      out := out + [scan.text[at]];
      into, at := into + 1, at + 1;
    }
  }

  method StepLiteral(json: array<byte>, ghost scan: Scan, ghost out: CStr, into0: nat, start: nat)
    returns (into: nat, at: nat, inside: bool)
    requires Scanning(json, scan, out, start) && into0 == |out|
    requires start < |scan.text| && scan.text[start] == QUOTE
    modifies json
    ensures json[|scan.text|..] == scan.tail
    ensures !inside ==> Minified(scan.text[start..]).None?
    ensures inside ==> start < at <= |scan.text| && into - into0 == at - start
    ensures inside ==> Scanning(json, scan, out + scan.text[start..at], at)
    ensures inside ==>
              Keep(out, Minified(scan.text[start..])) == Keep(out + scan.text[start..at], Minified(scan.text[at..]))
  {
    hide Minified, LiteralLength;
    ReadsAhead(json, scan, out, start);
    LiteralStep(scan.text[start..]);
    CopyByte(json, scan, out, into0, start);
    into, at, inside := CopyLiteral(json, scan, out + [scan.text[start]], into0 + 1, start + 1);
    if inside {
      LiteralKept(out, scan.text, start, at);
    }
  }

  lemma {:induction false} LiteralKept(out: CStr, text: CStr, start: nat, at: nat)
    requires start < at <= |text|
    requires Minified(text[start..]) == Keep(text[start..][..at - start], Minified(text[start..][at - start..]))
    ensures Keep(out, Minified(text[start..])) == Keep(out + text[start..at], Minified(text[at..]))
    ensures out + [text[start]] + text[start + 1..at] == out + text[start..at]
  {
    assert text[start..][..at - start] == text[start..at] && text[start..][at - start..] == text[at..];
    KeepTwice(out, text[start..at], Minified(text[at..]));
  }

  lemma {:induction false} LiteralStep(s: CStr)
    requires s != [] && s[0] == QUOTE
    ensures LiteralLength(s[1..]).None? ==> Minified(s).None?
    ensures LiteralLength(s[1..]).Some? ==>
              var n := 1 + LiteralLength(s[1..]).value; Minified(s) == Keep(s[..n], Minified(s[n..]))
  {}

  method Finish(json: array<byte>, ghost scan: Scan, ghost out: CStr, into: nat, at: nat)
    requires Turning(json, scan, out, into, at) && json[at] == 0 && Head(scan.text[at..]) == 0
    modifies json
    ensures Minified(scan.text) == Some(out) && HoldsString(json, out)
    ensures json[|scan.text| + 1..] == scan.tail[1..]
  {
    assert scan.text[at..] == [];
    assert out + [] == out;
    TailAfter(json[..], scan);
    json[into] := 0;
    assert json[|scan.text| + 1..] == scan.tail[1..];
  }

  /** `"abc` without its closing quote is scanned past its end. */
  lemma {:induction false} UnclosedLiteralEscapes()
    ensures Minified([QUOTE, 97, 98, 99]) == None
  {
    var s: CStr := [97, 98, 99];
    UnitLength(s);
    assert s[1..] == [98, 99];
    UnitLength(s[1..]);
    assert s[1..][1..] == [99];
    UnitLength(s[1..][1..]);
    assert s[1..][1..][1..] == [];
    assert [QUOTE, 97, 98, 99][1..] == s;
  }

  /** A block comment without its end is scanned past its end. */
  lemma {:induction false} UnclosedCommentEscapes()
    ensures Minified([SLASH, STAR, 97]) == None
  {
    var s: CStr := [SLASH, STAR, 97];
    forall k: nat ensures !ClosesComment(s, k) {}
    ClosingStar(s);
    assert s[1..][0] == STAR;
  }
}
