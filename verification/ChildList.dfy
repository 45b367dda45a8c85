/**
  Editing the children of an array: the doubly linked chain that starts at
  `child`, and the sequence it stands for.
 */
module ChildList {

  class Node {
    var next: Node?
    var prev: Node?
    var child: Node?

    constructor ()
      ensures next == null && prev == null && child == null
    {
      next, prev, child := null, null, null;
    }
  }

  /** `s` is the chain from `first`: each node links to its neighbours, the ends to nothing. */
  ghost predicate Chain(first: Node?, s: seq<Node>)
    reads s
  {
    && (s == [] <==> first == null)
    && (s != [] ==> s[0] == first && s[0].prev == null && s[|s| - 1].next == null)
    && (forall i {:trigger s[i].next} :: 0 <= i < |s| - 1 ==> s[i].next == s[i + 1])
    && (forall i {:trigger s[i].prev} :: 1 <= i < |s| ==> s[i].prev == s[i - 1])
    && (forall i, j :: 0 <= i < j < |s| ==> s[i] != s[j])
  }

  /** The children of `parent`, which is not its own child. */
  ghost predicate Children(parent: Node, s: seq<Node>)
    reads parent, s
  {
    Chain(parent.child, s) && parent !in s
  }

  /** A chain stands for one sequence only. */
  lemma {:induction false} ChainUnique(first: Node?, s: seq<Node>, t: seq<Node>)
    requires Chain(first, s) && Chain(first, t)
    ensures s == t
  {
    if s != [] {
      SamePrefix(first, s, t, if |s| <= |t| then |s| else |t|);
    }
  }

  lemma {:induction false} SamePrefix(first: Node?, s: seq<Node>, t: seq<Node>, n: nat)
    requires Chain(first, s) && Chain(first, t) && n <= |s| && n <= |t|
    ensures s[..n] == t[..n]
    ensures 0 < n < |s| ==> t[n - 1].next == s[n]
    ensures 0 < n < |t| ==> s[n - 1].next == t[n]
  {
    if n > 0 {
      SamePrefix(first, s, t, n - 1);
      assert s[n - 1] == t[n - 1];
      assert n < |s| ==> s[n - 1].next == s[n];
      assert n < |t| ==> t[n - 1].next == t[n];
    }
  }

  /** The position the loops `while (c && which > 0)` reach. */
  function Position(which: int, size: nat): (k: nat)
    ensures k <= size
  {
    if which <= 0 then 0 else if which <= size then which else size
  }

  function Inserted<T>(s: seq<T>, k: nat, x: T): seq<T>
    requires k <= |s|
  {
    s[..k] + [x] + s[k..]
  }

  function Removed<T>(s: seq<T>, k: nat): seq<T>
    requires k <= |s|
  {
    if k < |s| then s[..k] + s[k + 1..] else s
  }

  function Replaced<T>(s: seq<T>, k: nat, x: T): seq<T>
    requires k <= |s|
  {
    if k < |s| then s[k := x] else s
  }

  /** Detaching at the position of an insertion undoes it, also where an index beyond the end appended. */
  lemma {:induction false} RemovedUndoesInserted<T>(s: seq<T>, which: int, x: T)
    ensures var t := Inserted(s, Position(which, |s|), x);
            var k := if which < |s| then which else |s|;
            t[Position(k, |t|)] == x && Removed(t, Position(k, |t|)) == s
  {}

  method GetArraySize(parent: Node, ghost s: seq<Node>) returns (n: nat)
    requires Children(parent, s)
    ensures n == |s|
  {
    var c := parent.child;
    n := 0;
    while c != null
      invariant n <= |s| && c == (if n < |s| then s[n] else null)
      decreases |s| - n
    {
      assert n + 1 < |s| ==> s[n].next == s[n + 1];
      n, c := n + 1, c.next;
    }
  }

  /** The node at position `which`, if there is one; `cJSON_GetArrayItem`, and how the edits find theirs. */
  method GetArrayItem(parent: Node, which: int, ghost s: seq<Node>) returns (c: Node?)
    requires Children(parent, s)
    ensures var k := Position(which, |s|); c == if k < |s| then s[k] else null
  {
    c := parent.child;
    var left := which;
    ghost var n := 0;
    while c != null && left > 0
      invariant n <= |s| && c == (if n < |s| then s[n] else null)
      invariant left == (if which <= 0 then which else which - n) && (which <= 0 ==> n == 0) &&
                (which > 0 ==> n <= which)
      decreases |s| - n
    {
      assert n + 1 < |s| ==> s[n].next == s[n + 1];
      c, left, n := c.next, left - 1, n + 1;
    }
  }

  method AddItemToArray(parent: Node?, item: Node?, ghost s: seq<Node>)
    requires parent != null ==> Children(parent, s)
    requires parent != null && item != null ==> item !in s && item != parent && item.next == null && item.prev == null
    modifies if parent != null && item != null then {parent} else {}`child
    modifies if parent != null && item != null then {item} else {}`prev
    modifies if parent != null && item != null && s != [] then {s[|s| - 1]} else {}`next
    ensures parent != null && item != null ==> Children(parent, s + [item])
  {
    if parent == null || item == null {
      return;
    }
    var c := parent.child;
    if c == null {
      parent.child := item;
    } else {
      ghost var n := 0;
      while c.next != null
        invariant n < |s| && c == s[n]
        invariant c.next == if n < |s| - 1 then s[n + 1] else null
        decreases |s| - n
      {
        c, n := c.next, n + 1;
        assert n < |s| - 1 ==> s[n].next == s[n + 1];
      }
      c.next := item;
      item.prev := c;
    }
  }

  /** The neighbours of position `k` are the only other nodes an edit there may change. */
  ghost function Around(s: seq<Node>, k: nat): set<Node> {
    (if 0 < k <= |s| then {s[k - 1]} else {}) + (if k < |s| then {s[k]} else {})
  }

  /** The nodes of `s` are distinct and linked in order, but for the links between positions `from` and `to`. */
  ghost predicate LinkedBut(s: seq<Node>, from: int, to: int)
    reads s
  {
    && (s != [] && to > 0 ==> s[0].prev == null)
    && (s != [] && from < |s| - 1 ==> s[|s| - 1].next == null)
    && (forall i {:trigger s[i].next} :: 0 <= i < |s| - 1 && !(from <= i < to) ==> s[i].next == s[i + 1])
    && (forall i {:trigger s[i].prev} :: 1 <= i < |s| && !(from < i <= to) ==> s[i].prev == s[i - 1])
    && (forall i, j :: 0 <= i < j < |s| ==> s[i] != s[j])
  }

  lemma {:induction false} InsertedChain(first: Node?, s: seq<Node>, k: nat, x: Node)
    requires k < |s| && x !in s && LinkedBut(s, k - 1, k)
    requires x.next == s[k] && s[k].prev == x && x.prev == if k > 0 then s[k - 1] else null
    requires if k > 0 then s[k - 1].next == x && first == s[0] else first == x
    ensures Chain(first, Inserted(s, k, x))
  {
    var t := Inserted(s, k, x);
    assert t[k] == x && (forall i :: 0 <= i < k ==> t[i] == s[i]) && (forall i :: k < i < |t| ==> t[i] == s[i - 1]);
  }

  method InsertItemInArray(parent: Node, which: int, newitem: Node, ghost s: seq<Node>)
    requires Children(parent, s) && newitem !in s && newitem != parent
    requires Position(which, |s|) == |s| ==> newitem.next == null && newitem.prev == null
    modifies parent`child, newitem`next, newitem`prev
    modifies Around(s, Position(which, |s|))`next, Around(s, Position(which, |s|))`prev
    ensures Children(parent, Inserted(s, Position(which, |s|), newitem))
  {
    ghost var k := Position(which, |s|);
    var c := GetArrayItem(parent, which, s);
    if c == null {
      AddItemToArray(parent, newitem, s);
      assert Inserted(s, k, newitem) == s + [newitem];
      return;
    }
    newitem.next := c;
    newitem.prev := c.prev;
    c.prev := newitem;
    if c == parent.child {
      parent.child := newitem;
    } else {
      newitem.prev.next := newitem;
    }
    InsertedChain(parent.child, s, k, newitem);
  }

  lemma {:induction false} RemovedChain(first: Node?, s: seq<Node>, k: nat)
    requires k < |s| && LinkedBut(s, k - 1, k + 1)
    requires k > 0 ==> s[k - 1].next == (if k + 1 < |s| then s[k + 1] else null) && first == s[0]
    requires k + 1 < |s| ==> s[k + 1].prev == (if k > 0 then s[k - 1] else null)
    requires k == 0 ==> first == if |s| > 1 then s[1] else null
    ensures Chain(first, Removed(s, k))
  {
    var t := Removed(s, k);
    assert |t| == |s| - 1 && (forall i :: 0 <= i < k ==> t[i] == s[i]) &&
           (forall i :: k <= i < |t| ==> t[i] == s[i + 1]);
  }

  /** Links the neighbours of the child at `k` to each other. */
  method Bypass(parent: Node, c: Node, ghost s: seq<Node>, ghost k: nat)
    requires Children(parent, s) && k < |s| && c == s[k]
    modifies parent`child, s`next, s`prev
    ensures Children(parent, Removed(s, k))
  {
    if c.prev != null {
      c.prev.next := c.next;
    }
    if c.next != null {
      c.next.prev := c.prev;
    }
    if c == parent.child {
      parent.child := c.next;
    }
    RemovedChain(parent.child, s, k);
  }

  method DetachItemFromArray(parent: Node, which: int, ghost s: seq<Node>) returns (c: Node?)
    requires Children(parent, s)
    modifies parent`child, s`next, s`prev
    ensures var k := Position(which, |s|);
            if k < |s| then c == s[k] && c.next == null && c.prev == null else c == null
    ensures Children(parent, Removed(s, Position(which, |s|)))
  {
    c := GetArrayItem(parent, which, s);
    if c == null {
      return;
    }
    ghost var k := Position(which, |s|);
    assert c !in Removed(s, k);
    Bypass(parent, c, s, k);
    c.prev, c.next := null, null;
  }

  lemma {:induction false} ReplacedChain(first: Node?, s: seq<Node>, k: nat, x: Node)
    requires k < |s| && x !in s && LinkedBut(s, k - 1, k + 1)
    requires x.next == (if k + 1 < |s| then s[k + 1] else null) && x.prev == (if k > 0 then s[k - 1] else null)
    requires k + 1 < |s| ==> s[k + 1].prev == x
    requires if k > 0 then s[k - 1].next == x && first == s[0] else first == x
    ensures Chain(first, Replaced(s, k, x))
  {
    var t := Replaced(s, k, x);
    assert |t| == |s| && t[k] == x && forall i :: 0 <= i < |s| && i != k ==> t[i] == s[i];
  }

  /** Puts `newitem` between the neighbours of the child at `k`. */
  method Substitute(parent: Node, c: Node, newitem: Node, ghost s: seq<Node>, ghost k: nat)
    requires Children(parent, s) && k < |s| && c == s[k] && newitem !in s && newitem != parent
    modifies parent`child, newitem`next, newitem`prev, s`next, s`prev
    ensures Children(parent, Replaced(s, k, newitem))
  {
    newitem.next := c.next;
    newitem.prev := c.prev;
    if newitem.next != null {
      newitem.next.prev := newitem;
    }
    if c == parent.child {
      parent.child := newitem;
    } else {
      newitem.prev.next := newitem;
    }
    ReplacedChain(parent.child, s, k, newitem);
  }

  /** The replaced node is unlinked, then freed. */
  method ReplaceItemInArray(parent: Node, which: int, newitem: Node, ghost s: seq<Node>)
    requires Children(parent, s) && newitem !in s && newitem != parent
    modifies parent`child, newitem`next, newitem`prev, s`next, s`prev
    ensures Children(parent, Replaced(s, Position(which, |s|), newitem))
    ensures var k := Position(which, |s|); k < |s| ==> s[k].next == null && s[k].prev == null
  {
    var c := GetArrayItem(parent, which, s);
    if c == null {
      return;
    }
    ghost var k := Position(which, |s|);
    assert c !in Replaced(s, k, newitem);
    Substitute(parent, c, newitem, s, k);
    c.next, c.prev := null, null;
  }
}
