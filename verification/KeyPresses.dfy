/**
  The key scanner over whole runs of presses: keys that are held or tapped,
  change with or without a pause, and the events they lead to.
 */
module KeyPresses {
  import opened KeyDriver
  import opened Options

  // ----- presses and their events -----

  /** `held` accepted readings of a key and then `pause` readings of none. */
  datatype Press = Press(key: byte, held: nat, pause: nat)

  function Taken(presses: seq<Press>): seq<byte>
    decreases |presses|
  {
    if presses == [] then []
    else Copies(presses[0].key, presses[0].held) + Copies(NO_KEY, presses[0].pause) + Taken(presses[1..])
  }

  /** The presses are told apart: by a pause, or by another key. */
  predicate Apart(presses: seq<Press>) {
    && (forall i :: 0 <= i < |presses| ==> presses[i].key != NO_KEY && presses[i].held > 0)
    && (forall i :: 0 <= i < |presses| - 1 && presses[i].pause == 0 ==> presses[i].key != presses[i + 1].key)
  }

  const KINDS := [Click, DoubleClick, TripleClick, FourthClick, FifthClick]

  /** The event due after `k` presses of a key: five kinds, the last for any more. */
  function Due(key: byte, k: nat): Event
    requires k > 0
  {
    Event(KINDS[(if k < 5 then k else 5) - 1], key)
  }

  /** What `k` presses of one key are reported as: the count is kept in 8 bits. */
  function ClickEvents(key: byte, k: nat): seq<Event> {
    if k % 256 == 0 then [] else [Due(key, k % 256)]
  }

  /** How many presses of its key in a row a press makes, if `k` of `key` wait for more. */
  function InRow(press: Press, key: byte, k: nat): nat {
    if press.key == key then k + 1 else 1
  }

  predicate Short(c: Config, press: Press) {
    press.held < c.longTime
  }

  /** Whether the pause after a press lets the click delay end. */
  predicate Ends(c: Config, press: Press) {
    press.pause >= c.clickDelayTime + 2
  }

  /** What one press reports, if `k` presses of `key` wait for more. */
  function PressEvents(c: Config, press: Press, key: byte, k: nat): seq<Event>
    requires Timed(c)
  {
    if !Short(c, press) then
      HeldEvents(c, press.key, press.held) + (if press.pause > 0 then [Event(Up, press.key)] else [])
    else if Ends(c, press) then ClickEvents(press.key, InRow(press, key, k))
    else []
  }

  /**
    The events of a run of presses, `k` of `key` waiting: a long press reports
    itself and drops what waits; short ones are counted while they are of the
    same key, and reported once a pause is long enough.
   */
  function RunEvents(c: Config, key: byte, k: nat, presses: seq<Press>): seq<Event>
    requires Timed(c)
    decreases |presses|
  {
    if presses == [] then []
    else
      var first := presses[0];
      PressEvents(c, first, key, k)
      + if Short(c, first) && !Ends(c, first) then RunEvents(c, first.key, InRow(first, key, k), presses[1..])
        else RunEvents(c, NO_KEY, 0, presses[1..])
  }

  // ----- the waiting clicks -----

  /** `k` presses of `key` count, or none does. */
  predicate Counted(p: Para, key: byte, k: nat) {
    p.clickCnt == k % 256 && if k == 0 then key == NO_KEY else p.notifyValue == key
  }

  /** `key` was let go, `k` clicks of it are waiting and the delay has run for `d` readings. */
  predicate Waiting(p: Para, key: byte, k: nat, d: nat) {
    p.lastKey == NO_KEY && p.clickCnt == k % 256 && p.notifyValue == key && (p.clickCnt > 0 ==> p.clickDelayCnt == d)
  }

  lemma {:induction false} Waits(c: Config, p: Para, key: byte, k: nat, d: nat, n: nat)
    requires Waiting(p, key, k, d) && d + n <= c.clickDelayTime + 1 <= 255
    ensures Judge(c, p, Copies(NO_KEY, n)).1 == []
    ensures Waiting(Judge(c, p, Copies(NO_KEY, n)).0, key, k, d + n)
    decreases n
  {
    if n == 0 {
      JudgeNone(c, p, NO_KEY);
    } else {
      JudgeCopies(c, p, NO_KEY, n);
      Waits(c, Accept(c, p, NO_KEY).0, key, k, d + 1, n - 1);
      Unit([]);
    }
  }

  /** `key` is held down, not yet long, and `k` clicks of it count. */
  predicate Clicking(c: Config, p: Para, key: byte, k: nat) {
    p.lastKey == key && p.pressCnt < c.longTime && p.clickCnt == k % 256 && p.notifyValue == key
  }

  lemma {:induction false} PressEnds(c: Config, p: Para, key: byte, k: nat, b: nat)
    requires key != NO_KEY && Clicking(c, p, key, k) && 1 <= b <= c.clickDelayTime + 1 <= 255
    ensures Judge(c, p, Copies(NO_KEY, b)).1 == []
    ensures Waiting(Judge(c, p, Copies(NO_KEY, b)).0, key, k, b)
  {
    JudgeCopies(c, p, NO_KEY, b);
    Waits(c, Accept(c, p, NO_KEY).0, key, k, 1, b - 1);
    Unit([]);
  }

  lemma {:induction false} Reported(c: Config, p: Para, key: byte, k: nat, n: nat)
    requires Waiting(p, key, k, c.clickDelayTime + 1) && c.clickDelayTime < 255 && n > 0
    ensures Judge(c, p, Copies(NO_KEY, n)).1 == ClickEvents(key, k)
    ensures Quiet(Judge(c, p, Copies(NO_KEY, n)).0)
  {
    JudgeCopies(c, p, NO_KEY, n);
    QuietStays(c, Accept(c, p, NO_KEY).0, n - 1);
    Unit(ClickEvents(key, k));
  }

  /** The pause that ends the clicks reports them once. */
  lemma {:induction false} DelayEnds(c: Config, p: Para, key: byte, k: nat, n: nat)
    requires key != NO_KEY && Clicking(c, p, key, k) && c.clickDelayTime < 255 && n >= c.clickDelayTime + 2
    ensures Judge(c, p, Copies(NO_KEY, n)).1 == ClickEvents(key, k)
    ensures Quiet(Judge(c, p, Copies(NO_KEY, n)).0)
  {
    var m := c.clickDelayTime + 1;
    PressEnds(c, p, key, k, m);
    CopiesJoin(NO_KEY, m, n - m);
    JudgeJoin(c, p, Copies(NO_KEY, m), Copies(NO_KEY, n - m));
    Reported(c, Judge(c, p, Copies(NO_KEY, m)).0, key, k, n - m);
    Unit(ClickEvents(key, k));
  }

  // ----- one press -----

  /** The first reading of a press, after a pause or after another key. */
  lemma {:induction false} PressBegins(c: Config, p: Para, press: Press, key: byte, k: nat)
    requires press.key != NO_KEY && press.key != p.lastKey && Counted(p, key, k)
    ensures var (q, e) := Accept(c, p, press.key);
            && e == None && Pressed(q, press.key, 1)
            && q.clickCnt == InRow(press, key, k) % 256 && q.notifyValue == press.key
  {
    assert (k % 256 + 1) % 256 == (k + 1) % 256;
  }

  lemma {:induction false} ShortDown(c: Config, p: Para, press: Press, key: byte, k: nat)
    requires Timed(c) && Short(c, press) && press.held > 0
    requires press.key != NO_KEY && press.key != p.lastKey && Counted(p, key, k)
    ensures Judge(c, p, Copies(press.key, press.held)).1 == []
    ensures Clicking(c, Judge(c, p, Copies(press.key, press.held)).0, press.key, InRow(press, key, k))
  {
    PressBegins(c, p, press, key, k);
    JudgeCopies(c, p, press.key, press.held);
    Counting(c, Accept(c, p, press.key).0, press.key, 1, press.held - 1);
    Unit([]);
  }

  lemma {:induction false} LongDown(c: Config, p: Para, press: Press, key: byte, k: nat)
    requires Timed(c) && !Short(c, press)
    requires press.key != NO_KEY && press.key != p.lastKey && Counted(p, key, k)
    ensures Judge(c, p, Copies(press.key, press.held)).1 == HeldEvents(c, press.key, press.held)
    ensures var q := Judge(c, p, Copies(press.key, press.held)).0;
            q.lastKey == press.key && q.pressCnt >= c.longTime && Counted(q, NO_KEY, 0)
  {
    PressBegins(c, p, press, key, k);
    JudgeCopies(c, p, press.key, press.held);
    LongRuns(c, Accept(c, p, press.key).0, press.key, press.held);
    Unit(HeldEvents(c, press.key, press.held));
  }

  /** Which clicks count after a press. */
  predicate Left(c: Config, q: Para, press: Press, key: byte, k: nat) {
    && q.lastKey == (if press.pause == 0 then press.key else NO_KEY)
    && if Short(c, press) && !Ends(c, press) then Counted(q, press.key, InRow(press, key, k)) else Counted(q, NO_KEY, 0)
  }

  lemma {:induction false} ShortUp(c: Config, p: Para, press: Press, key: byte, k: nat)
    requires Timed(c) && c.clickDelayTime < 255 && Short(c, press) && press.key != NO_KEY
    requires Clicking(c, p, press.key, InRow(press, key, k))
    ensures Judge(c, p, Copies(NO_KEY, press.pause)).1 == PressEvents(c, press, key, k)
    ensures Left(c, Judge(c, p, Copies(NO_KEY, press.pause)).0, press, key, k)
  {
    if press.pause == 0 {
      JudgeNone(c, p, NO_KEY);
    } else if Ends(c, press) {
      DelayEnds(c, p, press.key, InRow(press, key, k), press.pause);
    } else {
      PressEnds(c, p, press.key, InRow(press, key, k), press.pause);
    }
  }

  lemma {:induction false} LongUp(c: Config, p: Para, press: Press, key: byte, k: nat)
    requires !Short(c, press) && press.key != NO_KEY
    requires p.lastKey == press.key && p.pressCnt >= c.longTime && Counted(p, NO_KEY, 0)
    ensures Judge(c, p, Copies(NO_KEY, press.pause)).1 == if press.pause > 0 then [Event(Up, press.key)] else []
    ensures Left(c, Judge(c, p, Copies(NO_KEY, press.pause)).0, press, key, k)
  {
    if press.pause == 0 {
      JudgeNone(c, p, NO_KEY);
    } else {
      LongRelease(c, p, press.key, press.pause);
    }
  }

  lemma {:induction false} OnePress(c: Config, p: Para, press: Press, key: byte, k: nat)
    requires Timed(c) && c.clickDelayTime < 255 && press.held > 0
    requires press.key != NO_KEY && press.key != p.lastKey && Counted(p, key, k)
    ensures Judge(c, p, Copies(press.key, press.held) + Copies(NO_KEY, press.pause)).1 == PressEvents(c, press, key, k)
    ensures Left(c, Judge(c, p, Copies(press.key, press.held) + Copies(NO_KEY, press.pause)).0, press, key, k)
  {
    JudgeJoin(c, p, Copies(press.key, press.held), Copies(NO_KEY, press.pause));
    var q := Judge(c, p, Copies(press.key, press.held)).0;
    if Short(c, press) {
      ShortDown(c, p, press, key, k);
      ShortUp(c, q, press, key, k);
      Unit(PressEvents(c, press, key, k));
    } else {
      LongDown(c, p, press, key, k);
      LongUp(c, q, press, key, k);
    }
  }

  // ----- whole runs -----

  lemma {:induction false} JudgeNothing(c: Config, p: Para)
    ensures Judge(c, p, []) == (p, [])
  {}

  /** The presses of a run, whatever their keys, lengths and pauses, report what is due for them. */
  lemma {:induction false} PressesJudged(c: Config, p: Para, key: byte, k: nat, presses: seq<Press>)
    requires Timed(c) && c.clickDelayTime < 255 && Apart(presses) && Counted(p, key, k)
    requires presses != [] ==> presses[0].key != p.lastKey
    ensures Judge(c, p, Taken(presses)).1 == RunEvents(c, key, k, presses)
    decreases |presses|
  {
    hide Judge, PressEvents;
    if presses == [] {
      JudgeNothing(c, p);
    } else {
      var first := presses[0];
      var readings := Copies(first.key, first.held) + Copies(NO_KEY, first.pause);
      OnePress(c, p, first, key, k);
      JudgeJoin(c, p, readings, Taken(presses[1..]));
      var q := Judge(c, p, readings).0;
      if Short(c, first) && !Ends(c, first) {
        PressesJudged(c, q, first.key, InRow(first, key, k), presses[1..]);
      } else {
        PressesJudged(c, q, NO_KEY, 0, presses[1..]);
      }
    }
  }

  /** From rest, after any pause, a run reports exactly what is due for its presses. */
  lemma {:induction false} RunIsTold(c: Config, p: Para, n: nat, presses: seq<Press>, readings: seq<byte>)
    requires Timed(c) && c.clickDelayTime < 255 && Quiet(p) && Apart(presses)
    requires Debounced(c, p, readings) == Copies(NO_KEY, n) + Taken(presses)
    ensures Run(c, p, readings).1 == RunEvents(c, NO_KEY, 0, presses)
  {
    RunIsJudged(c, p, p, readings);
    JudgeJoin(c, p, Copies(NO_KEY, n), Taken(presses));
    QuietStays(c, p, n);
    PressesJudged(c, p, NO_KEY, 0, presses);
    Unit(RunEvents(c, NO_KEY, 0, presses));
  }

  /** Any readings at all are a pause and presses told apart. */
  lemma {:induction false} PressesOf(readings: seq<byte>) returns (n: nat, presses: seq<Press>)
    ensures Apart(presses) && readings == Copies(NO_KEY, n) + Taken(presses)
    decreases |readings|
  {
    if readings == [] {
      n, presses := 0, [];
    } else {
      var first := readings[0];
      n, presses := PressesOf(readings[1..]);
      assert readings == [first] + (Copies(NO_KEY, n) + Taken(presses));
      if first == NO_KEY {
        assert [first] + Copies(NO_KEY, n) == Copies(NO_KEY, n + 1);
        n := n + 1;
      } else if n == 0 && presses != [] && presses[0].key == first {
        var longer := presses[0].(held := presses[0].held + 1);
        LongerTaken(presses, longer);
        presses := [longer] + presses[1..];
      } else {
        var one := Press(first, 1, n);
        OneMore(one, presses);
        presses := [one] + presses;
        n := 0;
      }
    }
  }

  lemma {:induction false} OneMore(one: Press, presses: seq<Press>)
    requires one.held == 1
    ensures Copies(NO_KEY, 0) + Taken([one] + presses) == [one.key] + (Copies(NO_KEY, one.pause) + Taken(presses))
  {
    assert ([one] + presses)[1..] == presses;
    assert Copies(one.key, 1) == [one.key];
  }

  lemma {:induction false} LongerTaken(presses: seq<Press>, longer: Press)
    requires presses != [] && longer == presses[0].(held := presses[0].held + 1)
    ensures Copies(NO_KEY, 0) + Taken([longer] + presses[1..]) == [longer.key] + (Copies(NO_KEY, 0) + Taken(presses))
  {
    assert ([longer] + presses[1..])[1..] == presses[1..];
    assert Copies(longer.key, longer.held) == [longer.key] + Copies(longer.key, presses[0].held);
  }

  // ----- short presses -----

  /** Every press is short, and only the last pause lets the click delay end. */
  predicate Quick(c: Config, presses: seq<Press>) {
    && (forall i :: 0 <= i < |presses| ==> Short(c, presses[i]))
    && (forall i :: 0 <= i < |presses| - 1 ==> !Ends(c, presses[i]))
    && (presses != [] ==> Ends(c, presses[|presses| - 1]))
  }

  /** The last `k` presses, and no more, are of one key. */
  predicate LastOfOneKey(presses: seq<Press>, k: nat) {
    && 0 < k <= |presses|
    && (forall i :: |presses| - k <= i < |presses| ==> presses[i].key == presses[|presses| - 1].key)
    && (k < |presses| ==> presses[|presses| - k - 1].key != presses[|presses| - 1].key)
  }

  /** How many of the presses after the first are the last ones of one key. */
  function RowAfter(presses: seq<Press>, k: nat): nat
    requires presses != [] && k <= |presses|
  {
    if k == |presses| then k - 1 else k
  }

  lemma {:induction false} QuickRest(c: Config, presses: seq<Press>, k: nat)
    requires |presses| > 1 && Quick(c, presses) && LastOfOneKey(presses, k)
    ensures Short(c, presses[0]) && !Ends(c, presses[0])
    ensures Quick(c, presses[1..]) && LastOfOneKey(presses[1..], RowAfter(presses, k))
    ensures k == |presses| ==> presses[0].key == presses[|presses| - 1].key
    ensures k == |presses| - 1 ==> presses[0].key != presses[|presses| - 1].key
  {
    var rest := presses[1..];
    assert forall i :: 0 <= i < |rest| ==> rest[i] == presses[i + 1];
  }

  /** What waits is reported with the presses in a row that follow it. */
  lemma {:induction false} QuickEvents(c: Config, key: byte, m: nat, presses: seq<Press>, k: nat)
    requires Timed(c) && presses != [] && Quick(c, presses) && LastOfOneKey(presses, k)
    ensures var last := presses[|presses| - 1].key;
            RunEvents(c, key, m, presses) == ClickEvents(last, if k == |presses| && key == last then m + k else k)
    decreases |presses|
  {
    var first, rest := presses[0], presses[1..];
    var n := InRow(first, key, m);
    if rest == [] {
      QuickLast(c, key, m, presses);
    } else {
      QuickRest(c, presses, k);
      hide Quick, LastOfOneKey, Short, Ends, ClickEvents;
      QuickEvents(c, first.key, n, rest, RowAfter(presses, k));
      Unit(RunEvents(c, first.key, n, rest));
    }
  }

  lemma {:induction false} QuickLast(c: Config, key: byte, m: nat, presses: seq<Press>)
    requires Timed(c) && |presses| == 1 && Short(c, presses[0]) && Ends(c, presses[0])
    ensures RunEvents(c, key, m, presses) == ClickEvents(presses[0].key, InRow(presses[0], key, m))
  {
    hide Short, Ends, ClickEvents;
    Unit(ClickEvents(presses[0].key, InRow(presses[0], key, m)));
    assert presses[1..] == [];
  }

  /**
    Short presses of any keys, each before the delay of the last ends, are
    reported as one event: that of the last key, for its presses in a row at the
    end.
   */
  lemma {:induction false} ShortPresses(c: Config, p: Para, presses: seq<Press>, k: nat, readings: seq<byte>)
    requires Timed(c) && c.clickDelayTime < 255 && Quiet(p) && Apart(presses)
    requires presses != [] && Quick(c, presses) && LastOfOneKey(presses, k)
    requires Debounced(c, p, readings) == Taken(presses)
    ensures Run(c, p, readings).1 == ClickEvents(presses[|presses| - 1].key, k)
  {
    assert Copies(NO_KEY, 0) + Taken(presses) == Taken(presses);
    RunIsTold(c, p, 0, presses, readings);
    QuickEvents(c, NO_KEY, 0, presses, k);
  }

  /**
    They are reported as the event due if and only if the last key was pressed
    fewer than 256 times in a row or the 8-bit count stands at five or more; and
    they are not reported at all if and only if it stands at zero.
   */
  lemma {:induction false} ClicksCounted(c: Config, p: Para, presses: seq<Press>, k: nat, readings: seq<byte>)
    requires Timed(c) && c.clickDelayTime < 255 && Quiet(p) && Apart(presses)
    requires presses != [] && Quick(c, presses) && LastOfOneKey(presses, k)
    requires Debounced(c, p, readings) == Taken(presses)
    ensures Run(c, p, readings).1 == [Due(presses[|presses| - 1].key, k)] <==> k < 256 || k % 256 >= 5
    ensures Run(c, p, readings).1 == [] <==> k % 256 == 0
  {
    assert k > 0;
    hide *;
    ShortPresses(c, p, presses, k, readings);
    DueIff(presses[|presses| - 1].key, k);
  }

  lemma {:induction false} DueIff(key: byte, k: nat)
    requires k > 0
    ensures ClickEvents(key, k) == [Due(key, k)] <==> k < 256 || k % 256 >= 5
    ensures ClickEvents(key, k) == [] <==> k % 256 == 0
  {}

  /** Without debouncing every reading is accepted. */
  lemma {:induction false} AllAccepted(c: Config, p: Para, readings: seq<byte>)
    requires c.filterTime == 0
    ensures Debounced(c, p, readings) == readings
    decreases |readings|
  {
    if readings != [] {
      AllAccepted(c, Scan(c, p, readings[0]).0, readings[1..]);
    }
  }

  /** `k` quick presses of a key, and a pause that ends them. */
  function Taps(key: byte, k: nat): (r: seq<Press>)
    requires k > 0
    ensures |r| == k
  {
    seq(k - 1, _ => Press(key, 1, 1)) + [Press(key, 1, 3)]
  }

  lemma {:induction false} TapsReported(key: byte, k: nat)
    requires key != NO_KEY && k > 0
    ensures Run(Config(0, 2, 3, 1), Boot(), Taken(Taps(key, k))).1 == ClickEvents(key, k)
  {
    var c := Config(0, 2, 3, 1);
    AllAccepted(c, Boot(), Taken(Taps(key, k)));
    ShortPresses(c, Boot(), Taps(key, k), k, Taken(Taps(key, k)));
  }

  /** 256 quick presses are lost, and 257 are reported as one click. */
  lemma {:induction false} LostPresses(key: byte)
    requires key != NO_KEY
    ensures var c := Config(0, 2, 3, 1);
            && Run(c, Boot(), Taken(Taps(key, 256))).1 == []
            && Run(c, Boot(), Taken(Taps(key, 257))).1 == [Event(Click, key)]
            && Due(key, 257) == Event(FifthClick, key)
  {
    TapsReported(key, 256);
    TapsReported(key, 257);
  }

  predicate IsClick(e: Event) {
    e.kind in {Click, DoubleClick, TripleClick, FourthClick, FifthClick}
  }

  /** A click delay of 255 readings never ends, as its 8-bit counter cannot pass 255: no run reports a click. */
  lemma {:induction false} LongestDelayNeverEnds(c: Config, p: Para, readings: seq<byte>, i: nat)
    requires c.clickDelayTime == 255 && i < |Run(c, p, readings).1|
    ensures !IsClick(Run(c, p, readings).1[i])
    decreases |readings|
  {
    var (q, e) := Scan(c, p, readings[0]);
    var first := |Emitted(e)|;
    if i >= first {
      LongestDelayNeverEnds(c, q, readings[1..], i - first);
    }
  }
}
