/**
  The printer that allocates (`cJSON_Print`, `cJSON_PrintUnformatted`): every
  value is printed to a string of its own and the strings are copied together.
  A returned C string is only read and freed, so it is its bytes; the buffer
  it is composed in has exactly the length the code computes, and every write
  is inside it.
 */
module AllocatingPrinter {
  import opened JsonText
  import opened PrintedParts

  method PrintNumber(n: int32) returns (out: CStr)
    ensures out == Decimal(n)
  {
    DecimalFits(n);
    var buffer := new byte[if n == 0 then 2 else 21];
    Put(buffer, 0, Decimal(n));
    buffer[|Decimal(n)|] := 0;
    assert buffer[..|Decimal(n)|] == Decimal(n);
    out := buffer[..|Decimal(n)|];
  }

  method PrintString(str: CStr) returns (out: CStr)
    ensures out == Quoted(str)
  {
    var buffer: array<byte>;
    var flag := AnyEscape(str);
    ghost var q := Quoted(str);
    if !flag {
      PlainIsUnescaped(str);
      buffer := new byte[|str| + 3];
      buffer[0] := QUOTE;
      Put(buffer, 1, str);
      buffer[|str| + 1] := QUOTE;
      buffer[|str| + 2] := 0;
      assert buffer[..|str| + 2] == q;
      out := buffer[..|str| + 2];
    } else {
      var len := EscapedLength(str);
      buffer := new byte[len + 3];
      PutQuoted(buffer, 0, str);
      assert buffer[..len + 2] == q;
      out := buffer[..len + 2];
    }
  }

  method PrintValue(t: Json, depth: nat, fmt: bool) returns (out: CStr)
    ensures out == Text(t, depth, fmt)
    decreases t, 1
  {
    match t
    case Null => out := NULL_TEXT;
    case False => out := FALSE_TEXT;
    case True => out := TRUE_TEXT;
    case Number(n) => out := PrintNumber(n);
    case String(s) => out := PrintString(s);
    case Array(items) => out := PrintArray(items, depth, fmt);
    case Object(members) => out := PrintObject(members, depth, fmt);
  }

  // ----- arrays -----

  function JoinItems(entries: seq<CStr>, fmt: bool): CStr {
    if |entries| == 0 then []
    else if |entries| == 1 then entries[0]
    else entries[0] + ItemSep(fmt) + JoinItems(entries[1..], fmt)
  }

  /** The strings of the elements, in the order of the chain. */
  function ItemEntries(items: Items, depth: nat, fmt: bool): seq<CStr> {
    match items
    case NoItem => []
    case Item(v, rest) => [Text(v, depth, fmt)] + ItemEntries(rest, depth, fmt)
  }

  lemma {:induction false} JoinedItems(items: Items, depth: nat, fmt: bool)
    ensures JoinItems(ItemEntries(items, depth, fmt), fmt) == ItemsText(items, depth, fmt)
  {
    if items.Item? {
      JoinedItems(items.rest, depth, fmt);
      assert ItemEntries(items, depth, fmt)[1..] == ItemEntries(items.rest, depth, fmt);
    }
  }

  method PrintArray(items: Items, depth: nat, fmt: bool) returns (out: CStr)
    ensures out == Text(Array(items), depth, fmt)
    decreases items, 1
  {
    if items.NoItem? {
      return [LBRACKET, RBRACKET];
    }
    var entries, len := CollectItems(items, depth + 1, fmt);
    JoinedItems(items, depth + 1, fmt);
    out := ComposeArray(entries, len, fmt);
  }

  function ItemsRoom(items: Items, depth: nat, fmt: bool): nat {
    match items
    case NoItem => 0
    case Item(v, rest) => |Text(v, depth, fmt)| + 2 + (if fmt then 1 else 0) + ItemsRoom(rest, depth, fmt)
  }

  lemma {:induction false} ItemsRoomSuffices(items: Items, depth: nat, fmt: bool)
    ensures |ItemsText(items, depth, fmt)| <= ItemsRoom(items, depth, fmt)
  {
    if items.Item? {
      ItemsRoomSuffices(items.rest, depth, fmt);
      ItemsUnfold([], items, depth, fmt);
    }
  }

  /** Prints every element and adds up the room the array needs. */
  method CollectItems(items: Items, depth: nat, fmt: bool) returns (entries: seq<CStr>, len: nat)
    ensures entries == ItemEntries(items, depth, fmt)
    ensures |ItemsText(items, depth, fmt)| + 5 <= len
    decreases items, 0
  {
    ItemsRoomSuffices(items, depth, fmt);
    entries, len := [], 5;
    var child := items;
    while child.Item?
      invariant entries + ItemEntries(child, depth, fmt) == ItemEntries(items, depth, fmt)
      invariant len + ItemsRoom(child, depth, fmt) == 5 + ItemsRoom(items, depth, fmt)
      invariant child == items || child < items
      decreases child
    {
      var ret := PrintValue(child.value, depth, fmt);
      Collected(entries, ItemEntries(child, depth, fmt));
      entries := entries + [ret];
      len := len + |ret| + 2 + (if fmt then 1 else 0);
      child := child.rest;
    }
  }

  /** An element's string, then a separator and a terminator if it is not the last. */
  method PutItem(buffer: array<byte>, ptr0: nat, entry: CStr, last: bool, fmt: bool) returns (ptr: nat)
    requires ptr0 + |entry| + 3 <= buffer.Length
    modifies buffer
    ensures ptr == ptr0 + |entry| + (if last then 0 else |ItemSep(fmt)|)
    ensures buffer[..ptr] == old(buffer[..ptr0]) + (entry + (if last then [] else ItemSep(fmt)))
  {
    Put(buffer, ptr0, entry);
    ptr := ptr0 + |entry|;
    if !last {
      Put(buffer, ptr, ItemSep(fmt));
      ptr := ptr + |ItemSep(fmt)|;
      buffer[ptr] := 0;
    }
  }

  lemma {:induction false} JoinStep(done: CStr, entries: seq<CStr>, i: nat, fmt: bool)
    requires i < |entries|
    ensures var unit := entries[i] + (if i == |entries| - 1 then [] else ItemSep(fmt));
            JoinItems(entries[i..], fmt) == unit + JoinItems(entries[i + 1..], fmt)
            && done + JoinItems(entries[i..], fmt) == done + unit + JoinItems(entries[i + 1..], fmt)
  {
    assert entries[i..][1..] == entries[i + 1..];
  }

  method ComposeArray(entries: seq<CStr>, len: nat, fmt: bool) returns (out: CStr)
    requires |JoinItems(entries, fmt)| + 5 <= len
    ensures out == [LBRACKET] + JoinItems(entries, fmt) + [RBRACKET]
  {
    var buffer := new byte[len];
    buffer[0] := LBRACKET;
    var ptr := 1;
    buffer[ptr] := 0;
    ghost var done: CStr, all := [LBRACKET], [LBRACKET] + JoinItems(entries, fmt);
    assert entries[0..] == entries;
    for i := 0 to |entries|
      invariant ptr == |done| && |done| + |JoinItems(entries[i..], fmt)| == |all|
      invariant buffer[..ptr] == done
      invariant done + JoinItems(entries[i..], fmt) == all
    {
      JoinStep(done, entries, i, fmt);
      ptr := PutItem(buffer, ptr, entries[i], i == |entries| - 1, fmt);
      done := done + (entries[i] + (if i == |entries| - 1 then [] else ItemSep(fmt)));
    }
    assert done == all by {
      assert done + [] == done;
    }
    buffer[ptr] := RBRACKET;
    buffer[ptr + 1] := 0;
    assert buffer[..ptr + 1] == all + [RBRACKET];
    out := buffer[..ptr + 1];
  }

  // ----- objects -----

  /** One member composed from its strings. */
  function Joint(name: CStr, entry: CStr, last: bool, depth: nat, fmt: bool): CStr {
    Indent(depth, fmt) + name + NameSep(fmt) + entry + MemberTail(last, fmt)
  }

  function JoinMembers(names: seq<CStr>, entries: seq<CStr>, depth: nat, fmt: bool): CStr
    requires |names| == |entries|
  {
    if |names| == 0 then []
    else Joint(names[0], entries[0], |names| == 1, depth, fmt) + JoinMembers(names[1..], entries[1..], depth, fmt)
  }

  function MemberNames(members: Members): seq<CStr> {
    match members
    case NoMember => []
    case Member(name, _, rest) => [Quoted(name)] + MemberNames(rest)
  }

  function MemberEntries(members: Members, depth: nat, fmt: bool): (r: seq<CStr>)
    ensures |r| == |MemberNames(members)|
  {
    match members
    case NoMember => []
    case Member(_, v, rest) => [Text(v, depth, fmt)] + MemberEntries(rest, depth, fmt)
  }

  lemma {:induction false} JoinedMembers(members: Members, depth: nat, fmt: bool)
    ensures JoinMembers(MemberNames(members), MemberEntries(members, depth, fmt), depth, fmt)
         == MembersText(members, depth, fmt)
  {
    if members.Member? {
      JoinedMembers(members.rest, depth, fmt);
      assert MemberNames(members)[1..] == MemberNames(members.rest);
      assert MemberEntries(members, depth, fmt)[1..] == MemberEntries(members.rest, depth, fmt);
      assert |MemberNames(members)| == 1 <==> members.rest.NoMember?;
      assert Joint(Quoted(members.name), Text(members.value, depth, fmt), members.rest.NoMember?, depth, fmt)
          == MemberText(members, depth, fmt);
      MembersUnfold([], members, depth, fmt);
    }
  }

  method PrintObject(members: Members, depth0: nat, fmt: bool) returns (out: CStr)
    ensures out == Text(Object(members), depth0, fmt)
    decreases members, 1
  {
    if members.NoMember? {
      out := PrintEmptyObject(depth0, fmt);
      return;
    }
    var names, entries, len := CollectMembers(members, depth0 + 1, fmt);
    JoinedMembers(members, depth0 + 1, fmt);
    ObjectText(members, depth0, fmt);
    out := ComposeObject(names, entries, len, depth0 + 1, fmt);
  }

  lemma {:induction false} Collected(done: seq<CStr>, more: seq<CStr>)
    requires more != []
    ensures done + more == done + [more[0]] + more[1..]
  {}

  function MembersRoom(members: Members, depth: nat, fmt: bool): nat {
    match members
    case NoMember => 0
    case Member(name, v, rest) =>
      |Text(v, depth, fmt)| + |Quoted(name)| + 2 + (if fmt then 2 + depth else 0) + MembersRoom(rest, depth, fmt)
  }

  lemma {:induction false} MembersRoomSuffices(members: Members, depth: nat, fmt: bool)
    ensures |MembersText(members, depth, fmt)| <= MembersRoom(members, depth, fmt)
  {
    if members.Member? {
      MembersRoomSuffices(members.rest, depth, fmt);
      MembersUnfold([], members, depth, fmt);
      TabsLength(depth);
      TailLength(members.rest.NoMember?, fmt);
    }
  }

  /** Prints every name and value and adds up the room the object needs. */
  method CollectMembers(members: Members, depth: nat, fmt: bool)
    returns (names: seq<CStr>, entries: seq<CStr>, len: nat)
    ensures names == MemberNames(members) && entries == MemberEntries(members, depth, fmt)
    ensures |MembersText(members, depth, fmt)| + 7 + (if fmt then depth else 0) <= len
    decreases members, 0
  {
    MembersRoomSuffices(members, depth, fmt);
    names, entries := [], [];
    len := if fmt then 7 + depth else 7;
    var child := members;
    while child.Member?
      invariant names + MemberNames(child) == MemberNames(members)
      invariant entries + MemberEntries(child, depth, fmt) == MemberEntries(members, depth, fmt)
      invariant len + MembersRoom(child, depth, fmt)
             == 7 + (if fmt then depth else 0) + MembersRoom(members, depth, fmt)
      invariant child == members || child < members
      decreases child
    {
      var str := PrintString(child.name);
      var ret := PrintValue(child.value, depth, fmt);
      Collected(names, MemberNames(child));
      Collected(entries, MemberEntries(child, depth, fmt));
      names := names + [str];
      entries := entries + [ret];
      len := len + |ret| + |str| + 2 + (if fmt then 2 + depth else 0);
      child := child.rest;
    }
  }

  method PrintEmptyObject(depth: nat, fmt: bool) returns (out: CStr)
    ensures out == Text(Object(NoMember), depth, fmt)
  {
    var d := if depth == 0 then 0 else depth - 1;
    TabsLength(d);
    var buffer := new byte[if fmt then depth + 4 else 3];
    Put(buffer, 0, [LBRACE] + NewLine(fmt));
    Put(buffer, |NewLine(fmt)| + 1, Indent(d, fmt));
    var ptr := 1 + |NewLine(fmt)| + |Indent(d, fmt)|;
    buffer[ptr] := RBRACE;
    buffer[ptr + 1] := 0;
    assert buffer[..ptr + 1] == [LBRACE] + NewLine(fmt) + Indent(d, fmt) + [RBRACE];
    out := buffer[..ptr + 1];
  }

  method PutMember(buffer: array<byte>, ptr0: nat, name: CStr, entry: CStr, last: bool, depth: nat, fmt: bool)
    returns (ptr: nat)
    requires ptr0 + |Joint(name, entry, last, depth, fmt)| + 1 <= buffer.Length
    modifies buffer
    ensures ptr == ptr0 + |Joint(name, entry, last, depth, fmt)|
    ensures buffer[..ptr] == old(buffer[..ptr0]) + Joint(name, entry, last, depth, fmt)
  {
    ghost var head := buffer[..ptr0];
    ptr := PutTwo(buffer, ptr0, Indent(depth, fmt), name);
    ptr := PutTwo(buffer, ptr, NameSep(fmt), entry);
    Put(buffer, ptr, MemberTail(last, fmt));
    ptr := ptr + |MemberTail(last, fmt)|;
    FiveParts(head, Indent(depth, fmt), name, NameSep(fmt), entry, MemberTail(last, fmt));
    buffer[ptr] := 0;
  }

  method PutTwo(buffer: array<byte>, ptr0: nat, a: CStr, b: CStr) returns (ptr: nat)
    requires ptr0 + |a| + |b| <= buffer.Length
    modifies buffer
    ensures ptr == ptr0 + |a| + |b| && buffer[..ptr] == old(buffer[..ptr0]) + a + b
  {
    Put(buffer, ptr0, a);
    Put(buffer, ptr0 + |a|, b);
    ptr := ptr0 + |a| + |b|;
  }

  lemma {:induction false} FiveParts(h: seq<byte>, a: CStr, b: CStr, c: CStr, d: CStr, e: CStr)
    ensures h + a + b + c + d + e == h + (a + b + c + d + e)
  {}

  lemma {:induction false} JoinMember(done: seq<byte>, names: seq<CStr>, entries: seq<CStr>, i: nat, depth: nat,
                                      fmt: bool)
    requires |names| == |entries| && i < |names|
    ensures var unit := Joint(names[i], entries[i], i == |names| - 1, depth, fmt);
            var more := JoinMembers(names[i + 1..], entries[i + 1..], depth, fmt);
            JoinMembers(names[i..], entries[i..], depth, fmt) == unit + more
            && done + JoinMembers(names[i..], entries[i..], depth, fmt) == done + unit + more
  {
    assert names[i..][1..] == names[i + 1..];
    assert entries[i..][1..] == entries[i + 1..];
  }

  method PutMembers(buffer: array<byte>, ptr0: nat, names: seq<CStr>, entries: seq<CStr>, depth: nat, fmt: bool)
    returns (ptr: nat)
    requires |names| == |entries|
    requires ptr0 + |JoinMembers(names, entries, depth, fmt)| + 1 <= buffer.Length
    modifies buffer
    ensures ptr == ptr0 + |JoinMembers(names, entries, depth, fmt)|
    ensures buffer[..ptr] == old(buffer[..ptr0]) + JoinMembers(names, entries, depth, fmt)
  {
    ptr := ptr0;
    ghost var done: seq<byte> := buffer[..ptr0];
    ghost var all := done + JoinMembers(names, entries, depth, fmt);
    assert names[0..] == names && entries[0..] == entries;
    for i := 0 to |names|
      invariant ptr == |done| && |done| + |JoinMembers(names[i..], entries[i..], depth, fmt)| == |all|
      invariant buffer[..ptr] == done
      invariant done + JoinMembers(names[i..], entries[i..], depth, fmt) == all
    {
      JoinMember(done, names, entries, i, depth, fmt);
      ptr := PutMember(buffer, ptr, names[i], entries[i], i == |names| - 1, depth, fmt);
      done := done + Joint(names[i], entries[i], i == |names| - 1, depth, fmt);
    }
    assert done + [] == done;
  }

  method ComposeObject(names: seq<CStr>, entries: seq<CStr>, len: nat, depth: nat, fmt: bool) returns (out: CStr)
    requires |names| == |entries| && depth > 0
    requires |JoinMembers(names, entries, depth, fmt)| + 7 + (if fmt then depth else 0) <= len
    ensures out == [LBRACE] + NewLine(fmt) + JoinMembers(names, entries, depth, fmt)
                   + (Indent(depth - 1, fmt) + [RBRACE])
  {
    var buffer := new byte[len];
    ghost var head := [LBRACE] + NewLine(fmt);
    Put(buffer, 0, [LBRACE] + NewLine(fmt));
    var ptr := 1 + |NewLine(fmt)|;
    assert buffer[..ptr] == head;
    buffer[ptr] := 0;
    assert buffer[..ptr] == head;
    ptr := PutMembers(buffer, ptr, names, entries, depth, fmt);
    assert buffer[..ptr] == head + JoinMembers(names, entries, depth, fmt);
    ptr := PutClose(buffer, ptr, depth - 1, fmt);
    out := buffer[..ptr];
  }

  method PutClose(buffer: array<byte>, ptr0: nat, depth: nat, fmt: bool) returns (ptr: nat)
    requires ptr0 + 2 + (if fmt then depth else 0) <= buffer.Length
    modifies buffer
    ensures ptr0 < ptr < buffer.Length && buffer[..ptr] == old(buffer[..ptr0]) + (Indent(depth, fmt) + [RBRACE])
  {
    TabsLength(depth);
    Put(buffer, ptr0, Indent(depth, fmt));
    ptr := ptr0 + |Indent(depth, fmt)|;
    buffer[ptr] := RBRACE;
    buffer[ptr + 1] := 0;
    ptr := ptr + 1;
  }

  /** `cJSON_Print` and `cJSON_PrintUnformatted`. */
  method Print(t: Json, fmt: bool) returns (out: CStr)
    ensures out == Text(t, 0, fmt)
  {
    out := PrintValue(t, 0, fmt);
  }
}
