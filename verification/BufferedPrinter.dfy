/**
  The printer that grows a buffer in place (`cJSON_PrintBuffered`): `ensure`,
  `update` and every `print_` function given a `printbuffer`.
 */
module BufferedPrinter {
  import opened JsonText
  import opened PrintedParts
  import WordBits

  /** Beyond this size `pow2gt` no longer fits an `int`. */
  const LIMIT := 0x4000_0000

  /** The least power of two that is at least `x`. */
  ghost predicate LeastPower(r: nat, x: nat) {
    && x <= r && (exists k: nat :: r == WordBits.Pow2(k))
    && forall k: nat :: x <= WordBits.Pow2(k) ==> r <= WordBits.Pow2(k)
  }

  /** The room asked for a number, the largest request beyond the text itself. */
  const SLACK := 21

  class PrintBuffer {
    var buffer: array<byte>
    var length: nat
    var offset: nat

    /** The text printed and passed so far. */
    ghost var done: seq<byte>

    ghost predicate Sized()
      reads this
    {
      offset <= length == buffer.Length <= LIMIT
    }

    /** All that was printed lies before `offset`. */
    ghost predicate Settled()
      reads this, buffer
    {
      Sized() && offset == |done| && buffer[..offset] == done
    }

    /** The buffer holds `s`, then a terminator. */
    ghost predicate Holds(s: seq<byte>)
      reads this, buffer
    {
      |s| < buffer.Length && buffer[..|s|] == s && buffer[|s|] == 0
    }

    /** What `print_value` leaves: `s` after the earlier text, terminated, and `offset` somewhere in it. */
    ghost predicate Printed(s: CStr)
      reads this, buffer
    {
      Sized() && |done| <= offset <= |done| + |s| && Holds(done + s)
    }

    constructor (prebuffer: nat)
      requires prebuffer <= LIMIT
      ensures Settled() && done == [] && fresh(buffer)
    {
      buffer := new byte[prebuffer];
      length := prebuffer;
      offset := 0;
      done := [];
    }

    /** Makes room for `needed` bytes at `offset`: a new buffer only if they do not fit; every old byte is kept. */
    method Ensure(needed: nat)
      requires Sized() && offset + needed <= LIMIT
      modifies this`buffer, this`length
      ensures Sized() && offset + needed <= length
      ensures old(length) <= length && buffer[..old(length)] == old(buffer[..])
      ensures if offset + needed <= old(length) then buffer == old(buffer)
              else fresh(buffer) && LeastPower(length, offset + needed)
    {
      if offset + needed > length {
        var newSize, _ := WordBits.Pow2gt(offset + needed);
        var newBuffer := new byte[newSize];
        forall i | 0 <= i < length {
          newBuffer[i] := buffer[i];
        }
        assert newBuffer[..length] == buffer[..];
        length := newSize;
        buffer := newBuffer;
      }
    }

    /** Moves `offset` past the string there. */
    method Update(ghost s: CStr)
      requires Printed(s)
      modifies this`offset, this`done
      ensures Settled() && done == old(done) + s
    {
      ghost var all := done + s;
      var end := offset;
      assert forall i :: offset <= i < |all| ==> buffer[i] == all[i] == s[i - |done|];
      while buffer[end] != 0
        invariant offset <= end <= |all| < buffer.Length && buffer[..|all|] == all && buffer[|all|] == 0
        decreases |all| - end
      {
        end := end + 1;
      }
      offset := end;
      done := all;
    }

    /** Asks for `needed` bytes and stores `s` at `offset`, with its terminator if there is one. */
    method Store(s: CStr, needed: nat, terminated: bool)
      requires Settled() && offset + needed <= LIMIT
      requires |s| + (if terminated then 1 else 0) <= needed
      modifies this`buffer, this`length, buffer
      ensures buffer == old(buffer) || fresh(buffer)
      ensures Sized() && offset + needed <= length && buffer[..offset + |s|] == done + s
      ensures terminated ==> Printed(s)
    {
      Ensure(needed);
      assert buffer[..offset] == done;
      Put(buffer, offset, s);
      if terminated {
        buffer[offset + |s|] := 0;
      }
    }

    /** Stores `s` and moves past it. */
    method Append(s: CStr, needed: nat, terminated: bool)
      requires Settled() && offset + needed <= LIMIT
      requires |s| + (if terminated then 1 else 0) <= needed
      modifies this, buffer
      ensures buffer == old(buffer) || fresh(buffer)
      ensures Settled() && done == old(done) + s
    {
      Store(s, needed, terminated);
      offset := offset + |s|;
      done := done + s;
    }

    method PrintNumber(n: int32)
      requires Settled() && offset + |Decimal(n)| + SLACK <= LIMIT
      modifies this, buffer
      ensures buffer == old(buffer) || fresh(buffer)
      ensures done == old(done) && Printed(Decimal(n))
    {
      DecimalFits(n);
      if n == 0 {
        Store(Decimal(0), 2, true);
      } else {
        Store(Decimal(n), 21, true);
      }
    }

    method PrintString(str: CStr)
      requires Settled() && offset + |Quoted(str)| + SLACK <= LIMIT
      modifies this, buffer
      ensures buffer == old(buffer) || fresh(buffer)
      ensures done == old(done) && Printed(Quoted(str))
    {
      var flag := AnyEscape(str);
      if !flag {
        PlainIsUnescaped(str);
        Store([QUOTE] + str + [QUOTE], |str| + 3, true);
      } else {
        var len := EscapedLength(str);
        Ensure(len + 3);
        assert buffer[..offset] == done;
        PutQuoted(buffer, offset, str);
      }
    }

    /** `print_value`; `at` is where the returned pointer points. */
    method PrintValue(t: Json, depth: nat, fmt: bool) returns (at: nat)
      requires Settled() && offset + |Text(t, depth, fmt)| + SLACK <= LIMIT
      modifies this, buffer
      ensures buffer == old(buffer) || fresh(buffer)
      ensures done == old(done) && Printed(Text(t, depth, fmt))
      ensures at == ReturnedAt(t, old(offset), depth, fmt)
      decreases t, 2
    {
      at := offset;
      match t
      case Null => Store(NULL_TEXT, 5, true);
      case False => Store(FALSE_TEXT, 6, true);
      case True => Store(TRUE_TEXT, 5, true);
      case Number(n) => PrintNumber(n);
      case String(s) => PrintString(s);
      case Array(items) => PrintArray(items, depth, fmt);
      case Object(members) => at := PrintObject(members, depth, fmt);
    }

    method PrintArray(items: Items, depth: nat, fmt: bool)
      requires Settled() && offset + |Text(Array(items), depth, fmt)| + SLACK <= LIMIT
      modifies this, buffer
      ensures buffer == old(buffer) || fresh(buffer)
      ensures done == old(done) && Printed(Text(Array(items), depth, fmt))
      decreases items, 3
    {
      if items.NoItem? {
        Store([LBRACKET, RBRACKET], 3, true);
        return;
      }
      PrintFilledArray(items, depth, fmt);
    }

    method PrintFilledArray(items: Items, depth: nat, fmt: bool)
      requires items.Item? && Settled() && offset + |Text(Array(items), depth, fmt)| + SLACK <= LIMIT
      modifies this, buffer
      ensures buffer == old(buffer) || fresh(buffer)
      ensures done == old(done) && Printed(Text(Array(items), depth, fmt))
      decreases items, 2
    {
      ghost var start, all := done, ItemsText(items, depth + 1, fmt);
      ghost var text := [LBRACKET] + all + [RBRACKET];
      assert text == Text(Array(items), depth, fmt);
      Append([LBRACKET], 1, false);
      PrintItems(items, depth + 1, fmt);
      Store([RBRACKET], 2, true);
      Finished(start, [LBRACKET], all, [RBRACKET]);
    }

    /** What was printed in three pieces, the last not yet passed, is one text after `start`. */
    ghost method Finished(start: seq<byte>, a: CStr, b: CStr, c: CStr)
      requires Printed(c) && done == start + a + b
      modifies this`done
      ensures done == start && Printed(a + b + c)
    {
      Joined(start, a, b, c);
      assert start + a + b + c == start + (a + b + c);
      done := start;
    }

    method PrintItems(items: Items, depth: nat, fmt: bool)
      requires Settled() && offset + |ItemsText(items, depth, fmt)| + SLACK <= LIMIT
      modifies this, buffer
      ensures buffer == old(buffer) || fresh(buffer)
      ensures Settled() && done == old(done) + ItemsText(items, depth, fmt)
      decreases items, 1
    {
      ghost var all := old(done) + ItemsText(items, depth, fmt);
      var child := items;
      while child.Item?
        invariant Settled() && (buffer == old(buffer) || fresh(buffer))
        invariant done + ItemsText(child, depth, fmt) == all
        invariant child == items || child < items
        decreases child
      {
        ItemsUnfold(done, child, depth, fmt);
        PrintItem(child, depth, fmt);
        child := child.rest;
      }
    }

    /** An element, and the separator after it if it is not the last. */
    method PrintItem(child: Items, depth: nat, fmt: bool)
      requires child.Item? && Settled() && offset + |ItemText(child, depth, fmt)| + SLACK <= LIMIT
      modifies this, buffer
      ensures buffer == old(buffer) || fresh(buffer)
      ensures Settled() && done == old(done) + ItemText(child, depth, fmt)
      decreases child, 0
    {
      var _ := PrintValue(child.value, depth, fmt);
      Update(Text(child.value, depth, fmt));
      if child.rest.Item? {
        Append(ItemSep(fmt), if fmt then 3 else 2, true);
      }
    }

    method PrintObject(members: Members, depth: nat, fmt: bool) returns (at: nat)
      requires Settled() && offset + |Text(Object(members), depth, fmt)| + SLACK <= LIMIT
      modifies this, buffer
      ensures buffer == old(buffer) || fresh(buffer)
      ensures done == old(done) && Printed(Text(Object(members), depth, fmt))
      ensures at == ReturnedAt(Object(members), old(offset), depth, fmt)
      decreases members, 3
    {
      at := offset;
      if members.NoMember? {
        EmptyObjectText(depth, fmt);
        Store(Text(Object(NoMember), depth, fmt), if fmt then depth + 4 else 3, true);
        return;
      }
      PrintFilledObject(members, depth, fmt);
      if fmt {
        at := depth;
      }
    }

    method PrintFilledObject(members: Members, depth: nat, fmt: bool)
      requires members.Member? && Settled() && offset + |Text(Object(members), depth, fmt)| + SLACK <= LIMIT
      modifies this, buffer
      ensures buffer == old(buffer) || fresh(buffer)
      ensures done == old(done) && Printed(Text(Object(members), depth, fmt))
      decreases members, 2
    {
      ghost var start := done;
      ghost var open, all := [LBRACE] + NewLine(fmt), MembersText(members, depth + 1, fmt);
      ghost var close := Indent(depth, fmt) + [RBRACE];
      ObjectText(members, depth, fmt);
      assert |Text(Object(members), depth, fmt)| == |open| + |all| + |close|;
      Append([LBRACE] + NewLine(fmt), if fmt then 3 else 2, true);
      PrintMembers(members, depth + 1, fmt);
      Store(Indent(depth, fmt) + [RBRACE], if fmt then depth + 2 else 2, true);
      Finished(start, open, all, close);
    }

    method PrintMembers(members: Members, depth: nat, fmt: bool)
      requires Settled() && offset + |MembersText(members, depth, fmt)| + SLACK <= LIMIT
      modifies this, buffer
      ensures buffer == old(buffer) || fresh(buffer)
      ensures Settled() && done == old(done) + MembersText(members, depth, fmt)
      decreases members, 1
    {
      ghost var all := old(done) + MembersText(members, depth, fmt);
      var child := members;
      while child.Member?
        invariant Settled() && (buffer == old(buffer) || fresh(buffer))
        invariant done + MembersText(child, depth, fmt) == all
        invariant child == members || child < members
        decreases child
      {
        MembersUnfold(done, child, depth, fmt);
        PrintMember(child, depth, fmt);
        child := child.rest;
      }
    }

    /** The indentation, the name, the colon, the value, and what separates it from the next. */
    method PrintMember(child: Members, depth: nat, fmt: bool)
      requires child.Member? && Settled() && offset + |MemberText(child, depth, fmt)| + SLACK <= LIMIT
      modifies this, buffer
      ensures buffer == old(buffer) || fresh(buffer)
      ensures Settled() && done == old(done) + MemberText(child, depth, fmt)
      decreases child, 0
    {
      var last := child.rest.NoMember?;
      ghost var start := done;
      PrintMemberHead(child.name, depth, fmt);
      var _ := PrintValue(child.value, depth, fmt);
      Update(Text(child.value, depth, fmt));
      TailLength(last, fmt);
      Append(MemberTail(last, fmt), (if fmt then 1 else 0) + (if last then 0 else 1) + 1, true);
      Joined(start, MemberHead(child.name, depth, fmt), Text(child.value, depth, fmt), MemberTail(last, fmt));
    }

    method PrintMemberHead(name: CStr, depth: nat, fmt: bool)
      requires Settled() && offset + |MemberHead(name, depth, fmt)| + SLACK <= LIMIT
      modifies this, buffer
      ensures buffer == old(buffer) || fresh(buffer)
      ensures Settled() && done == old(done) + MemberHead(name, depth, fmt)
    {
      ghost var start := done;
      if fmt {
        TabsLength(depth);
        Append(Tabs(depth), depth, false);
      }
      PrintString(name);
      Update(Quoted(name));
      Append(NameSep(fmt), if fmt then 2 else 1, false);
      Joined(start, Indent(depth, fmt), Quoted(name), NameSep(fmt));
    }
  }

  /**
    Where the pointer `print_value` returns points.  A formatted, non-empty
    object reuses the variable holding its start as a loop counter, so it
    returns its depth instead of its start.
   */
  function ReturnedAt(t: Json, start: nat, depth: nat, fmt: bool): nat {
    if t.Object? && t.members.Member? && fmt then depth else start
  }

  /**
    `cJSON_PrintBuffered`: for every tree, format and initial size, the text of
    the other printer, from the start of the returned buffer.
   */
  method PrintBuffered(t: Json, prebuffer: nat, fmt: bool) returns (out: array<byte>, at: nat)
    requires prebuffer <= LIMIT && |Text(t, 0, fmt)| + SLACK <= LIMIT
    ensures at == 0 && |Text(t, 0, fmt)| < out.Length
    ensures out[..|Text(t, 0, fmt)|] == Text(t, 0, fmt) && out[|Text(t, 0, fmt)|] == 0
  {
    var p := new PrintBuffer(prebuffer);
    at := p.PrintValue(t, 0, fmt);
    out := p.buffer;
    assert [] + Text(t, 0, fmt) == Text(t, 0, fmt);
  }
}
