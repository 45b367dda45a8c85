/**
  The key scanner: debouncing, clicks, long presses and holds, and the events
  of whole runs of readings.
 */
module KeyDriver {
  import opened Options

  type byte = b: int | 0 <= b < 256

  const NO_KEY: byte := 0xFF

  datatype Kind = Click | DoubleClick | TripleClick | FourthClick | FifthClick | Long | Hold | Up

  datatype Event = Event(kind: Kind, value: byte)

  /** The fixed parameters of a key type. */
  datatype Config = Config(filterTime: byte, longTime: byte, holdTime: byte, clickDelayTime: byte)

  /** The counters of `struct key_driver_para`. */
  datatype Para = Para(lastKey: byte, filterValue: byte, filterCnt: byte, pressCnt: byte,
                       clickCnt: byte, clickDelayCnt: byte, notifyValue: byte)

  function Inc(b: byte): byte {
    (b + 1) % 256
  }

  /** Whether a reading gets past the debouncing. */
  predicate Accepts(c: Config, p: Para, cur: byte) {
    c.filterTime == 0 || (cur == p.filterValue && p.filterCnt >= c.filterTime)
  }

  function Filter(c: Config, p: Para, cur: byte): Para
    requires !Accepts(c, p, cur)
  {
    if cur != p.filterValue then p.(filterCnt := 0, filterValue := cur)
    else p.(filterCnt := p.filterCnt + 1)
  }

  function ClickKind(n: byte): Kind {
    if n >= 5 then FifthClick
    else if n == 4 then FourthClick
    else if n == 3 then TripleClick
    else if n == 2 then DoubleClick
    else Click
  }

  function Notified(p: Para): Para {
    p.(clickCnt := 0, notifyValue := NO_KEY)
  }

  /** An accepted reading. */
  function Accept(c: Config, p: Para, cur: byte): (Para, Option<Event>) {
    var q := p.(lastKey := cur);
    if cur != p.lastKey then
      if cur == NO_KEY then
        if p.pressCnt >= c.longTime then (Notified(q), Some(Event(Up, p.lastKey)))
        else (q.(clickDelayCnt := 1), None)
      else if cur != p.notifyValue then (q.(pressCnt := 1, clickCnt := 1, notifyValue := cur), None)
      else (q.(pressCnt := 1, clickCnt := Inc(p.clickCnt)), None)
    else if cur == NO_KEY then
      if p.clickCnt == 0 then (q, None)
      else if p.clickDelayCnt > c.clickDelayTime then (Notified(q), Some(Event(ClickKind(p.clickCnt), p.notifyValue)))
      else (q.(clickDelayCnt := Inc(p.clickDelayCnt)), None)
    else
      var n := Inc(p.pressCnt);
      if n == c.longTime then (Notified(q.(pressCnt := n)), Some(Event(Long, cur)))
      else if n == c.holdTime then (Notified(q.(pressCnt := c.longTime)), Some(Event(Hold, cur)))
      else (q.(pressCnt := n), None)
  }

  function Scan(c: Config, p: Para, cur: byte): (Para, Option<Event>) {
    if Accepts(c, p, cur) then Accept(c, p, cur) else (Filter(c, p, cur), None)
  }

  /** The driver's state, updated by each scan. */
  class Scanner {
    const config: Config
    var lastKey: byte
    var filterValue: byte
    var filterCnt: byte
    var pressCnt: byte
    var clickCnt: byte
    var clickDelayCnt: byte
    var notifyValue: byte

    ghost function State(): Para
      reads this
    {
      Para(lastKey, filterValue, filterCnt, pressCnt, clickCnt, clickDelayCnt, notifyValue)
    }

    /** The tables set only the last key; the other fields are zero. */
    constructor (config: Config)
      ensures this.config == config && State() == Boot()
    {
      this.config := config;
      lastKey := NO_KEY;
      filterValue, filterCnt, pressCnt, clickCnt, clickDelayCnt, notifyValue := 0, 0, 0, 0, 0, 0;
    }

    /** `key_driver_scan` on one reading; events are reported, as no remapping drops them. */
    method KeyDriverScan(cur: byte) returns (event: Option<Event>)
      modifies this
      ensures (State(), event) == Scan(config, old(State()), cur)
    {
      event := None;
      if cur != filterValue && config.filterTime != 0 {
        filterCnt := 0;
        filterValue := cur;
        return;
      }
      if filterCnt < config.filterTime {
        filterCnt := filterCnt + 1;
        return;
      }
      if cur != lastKey {
        if cur == NO_KEY {
          if pressCnt >= config.longTime {
            event := Some(Event(Up, lastKey));
          } else {
            clickDelayCnt := 1;
          }
        } else {
          pressCnt := 1;
          if cur != notifyValue {
            clickCnt := 1;
            notifyValue := cur;
          } else {
            clickCnt := Inc(clickCnt);
          }
        }
      } else if cur == NO_KEY {
        if clickCnt > 0 {
          if clickDelayCnt > config.clickDelayTime {
            event := Some(Event(ClickKind(clickCnt), notifyValue));
          } else {
            clickDelayCnt := Inc(clickDelayCnt);
          }
        }
      } else {
        pressCnt := Inc(pressCnt);
        if pressCnt == config.longTime {
          event := Some(Event(Long, cur));
        } else if pressCnt == config.holdTime {
          event := Some(Event(Hold, cur));
          pressCnt := config.longTime;
        }
      }
      if event.Some? {
        clickCnt := 0;
        notifyValue := NO_KEY;
      }
      lastKey := cur;
    }
  }

  function Boot(): Para {
    Para(NO_KEY, 0, 0, 0, 0, 0, 0)
  }

  // ----- runs -----

  function Emitted(e: Option<Event>): seq<Event> {
    if e.Some? then [e.value] else []
  }

  function Run(c: Config, p: Para, readings: seq<byte>): (Para, seq<Event>)
    decreases |readings|
  {
    if readings == [] then (p, [])
    else
      var (q, e) := Scan(c, p, readings[0]);
      var (r, es) := Run(c, q, readings[1..]);
      (r, Emitted(e) + es)
  }

  lemma {:induction false} Unit(es: seq<Event>)
    ensures [] + es == es && es + [] == es
  {}

  lemma {:induction false} RunLast(c: Config, p: Para, a: seq<byte>, cur: byte)
    ensures Run(c, p, a + [cur]).0 == Scan(c, Run(c, p, a).0, cur).0
    decreases |a|
  {
    if a == [] {
      assert ([] + [cur])[1..] == [];
      assert ([] + [cur])[0] == cur;
    } else {
      assert (a + [cur])[1..] == a[1..] + [cur];
      RunLast(c, Scan(c, p, a[0]).0, a[1..], cur);
    }
  }

  function Copies(v: byte, n: nat): (r: seq<byte>)
    ensures |r| == n
  {
    seq(n, _ => v)
  }

  // ----- debouncing -----

  /** The last `n` readings are all `v`. */
  predicate Steady(readings: seq<byte>, n: nat, v: byte) {
    n <= |readings| && forall i :: |readings| - n <= i < |readings| ==> readings[i] == v
  }

  /** From power-up, which counts as a reading too, the filter counts the equal readings before the last. */
  lemma {:induction false} FilterCounts(c: Config, p: Para, readings: seq<byte>)
    requires c.filterTime > 0 && p.filterCnt == 0
    ensures var q, all := Run(c, p, readings).0, [p.filterValue] + readings;
            && q.filterCnt <= c.filterTime && Steady(all, q.filterCnt + 1, q.filterValue)
            && (Steady(all, q.filterCnt + 2, q.filterValue) ==> q.filterCnt == c.filterTime)
    decreases |readings|
  {
    if readings != [] {
      var n := |readings| - 1;
      var before, last := readings[..n], readings[n];
      FilterCounts(c, p, before);
      assert before + [last] == readings;
      RunLast(c, p, before, last);
      SteadyNext([p.filterValue] + before, last, Run(c, p, before).0);
      assert [p.filterValue] + readings == [p.filterValue] + before + [last];
    }
  }

  /** One more reading: the row of equal ones gets longer, or starts anew. */
  lemma {:induction false} SteadyNext(all: seq<byte>, cur: byte, q: Para)
    requires Steady(all, q.filterCnt + 1, q.filterValue)
    ensures Steady(all + [cur], 1, cur)
    ensures cur != q.filterValue ==> !Steady(all + [cur], 2, cur)
    ensures forall n: nat {:trigger Steady(all, n, cur)} :: Steady(all + [cur], n + 1, cur) <==> Steady(all, n, cur)
  {
    forall n: nat ensures Steady(all + [cur], n + 1, cur) <==> Steady(all, n, cur) {
      var longer := all + [cur];
      if Steady(longer, n + 1, cur) {
        forall i | |all| - n <= i < |all| ensures all[i] == cur {
          assert longer[i] == cur;
        }
      }
    }
    if cur != q.filterValue {
      assert all[|all| - 1] == q.filterValue;
      assert (all + [cur])[|all| - 1] != cur;
    }
  }

  /**
    A reading is accepted if and only if the `filterTime` + 1 readings before it
    are like it, power-up counting as one.
   */
  lemma {:induction false} AcceptedIff(c: Config, p: Para, readings: seq<byte>, cur: byte)
    requires p.filterCnt == 0
    ensures Accepts(c, Run(c, p, readings).0, cur)
       <==> c.filterTime == 0 || Steady([p.filterValue] + readings + [cur], c.filterTime + 2, cur)
  {
    if c.filterTime > 0 {
      FilterCounts(c, p, readings);
      var q, all := Run(c, p, readings).0, [p.filterValue] + readings;
      SteadyNext(all, cur, q);
      assert Steady(all, c.filterTime + 1, cur) ==> cur == q.filterValue by {
        assert all[|all| - 1] == q.filterValue;
      }
      if Steady(all, c.filterTime + 1, cur) && q.filterCnt < c.filterTime {
        SteadyLess(all, c.filterTime + 1, q.filterCnt + 2, cur);
      }
    }
  }

  lemma {:induction false} SteadyLess(all: seq<byte>, m: nat, n: nat, v: byte)
    requires n <= m && Steady(all, m, v)
    ensures Steady(all, n, v)
  {}

  /** The readings that get past the debouncing. */
  function Debounced(c: Config, p: Para, readings: seq<byte>): seq<byte>
    decreases |readings|
  {
    if readings == [] then []
    else
      var rest := Debounced(c, Scan(c, p, readings[0]).0, readings[1..]);
      if Accepts(c, p, readings[0]) then [readings[0]] + rest else rest
  }

  /** The accepted readings, judged one after the other. */
  function Judge(c: Config, p: Para, accepted: seq<byte>): (Para, seq<Event>)
    decreases |accepted|
  {
    if accepted == [] then (p, [])
    else
      var (q, e) := Accept(c, p, accepted[0]);
      var (r, es) := Judge(c, q, accepted[1..]);
      (r, Emitted(e) + es)
  }

  /** The two states differ at most in the debouncing. */
  predicate SameKeys(p: Para, q: Para) {
    p.(filterValue := q.filterValue, filterCnt := q.filterCnt) == q
  }

  /** Whatever bounces a run holds, its events are those of its accepted readings. */
  lemma {:induction false} RunIsJudged(c: Config, p: Para, q: Para, readings: seq<byte>)
    requires SameKeys(p, q)
    ensures Run(c, p, readings).1 == Judge(c, q, Debounced(c, p, readings)).1
    ensures SameKeys(Run(c, p, readings).0, Judge(c, q, Debounced(c, p, readings)).0)
    decreases |readings|
  {
    if readings != [] {
      var (a, e) := Scan(c, p, readings[0]);
      var rest := Debounced(c, a, readings[1..]);
      if Accepts(c, p, readings[0]) {
        RunIsJudged(c, a, Accept(c, q, readings[0]).0, readings[1..]);
        assert ([readings[0]] + rest)[1..] == rest;
      } else {
        RunIsJudged(c, a, q, readings[1..]);
        Unit(Run(c, a, readings[1..]).1);
      }
    }
  }

  /** How many readings of a new value are passed over before one is accepted. */
  function Delay(c: Config): nat {
    if c.filterTime == 0 then 0 else c.filterTime + 1
  }

  lemma {:induction false} DebouncedCopies(c: Config, p: Para, v: byte, n: nat)
    requires n > 0
    ensures var rest := Debounced(c, Scan(c, p, v).0, Copies(v, n - 1));
            Debounced(c, p, Copies(v, n)) == if Accepts(c, p, v) then [v] + rest else rest
  {
    assert Copies(v, n)[1..] == Copies(v, n - 1) && Copies(v, n)[0] == v;
  }

  lemma {:induction false} FilterFills(c: Config, p: Para, v: byte, n: nat)
    requires c.filterTime == 0 || (p.filterValue == v && p.filterCnt <= c.filterTime)
    ensures var wait := if c.filterTime == 0 then 0 else c.filterTime - p.filterCnt;
            Debounced(c, p, Copies(v, wait + n)) == Copies(v, n)
    decreases if c.filterTime == 0 then 0 else c.filterTime - p.filterCnt, n
  {
    var wait := if c.filterTime == 0 then 0 else c.filterTime - p.filterCnt;
    if wait + n > 0 {
      DebouncedCopies(c, p, v, wait + n);
      if wait > 0 {
        FilterFills(c, Scan(c, p, v).0, v, n);
      } else {
        FilterFills(c, Scan(c, p, v).0, v, n - 1);
        assert [v] + Copies(v, n - 1) == Copies(v, n);
      }
    }
  }

  /** After a change of value exactly `Delay` readings are passed over; all later ones are accepted. */
  lemma {:induction false} ChangeIsDelayed(c: Config, p: Para, v: byte, n: nat)
    requires c.filterTime > 0 ==> p.filterValue != v
    ensures Debounced(c, p, Copies(v, Delay(c) + n)) == Copies(v, n)
  {
    if c.filterTime > 0 {
      DebouncedCopies(c, p, v, Delay(c) + n);
      FilterFills(c, Scan(c, p, v).0, v, n);
    } else {
      FilterFills(c, p, v, n);
    }
  }

  // ----- accepted readings -----

  lemma {:induction false} JudgeJoin(c: Config, p: Para, a: seq<byte>, b: seq<byte>)
    ensures Judge(c, p, a + b).0 == Judge(c, Judge(c, p, a).0, b).0
    ensures Judge(c, p, a + b).1 == Judge(c, p, a).1 + Judge(c, Judge(c, p, a).0, b).1
    decreases |a|
  {
    if a == [] {
      assert a + b == b;
      Unit(Judge(c, p, b).1);
    } else {
      assert (a + b)[1..] == a[1..] + b;
      var (q, e) := Accept(c, p, a[0]);
      JudgeJoin(c, q, a[1..], b);
      var (r, es) := Judge(c, q, a[1..]);
      assert Emitted(e) + (es + Judge(c, r, b).1) == Emitted(e) + es + Judge(c, r, b).1;
    }
  }

  lemma {:induction false} JudgeCopies(c: Config, p: Para, v: byte, n: nat)
    requires n > 0
    ensures Judge(c, p, Copies(v, n)).0 == Judge(c, Accept(c, p, v).0, Copies(v, n - 1)).0
    ensures Judge(c, p, Copies(v, n)).1 == Emitted(Accept(c, p, v).1) + Judge(c, Accept(c, p, v).0, Copies(v, n - 1)).1
  {
    assert Copies(v, n)[1..] == Copies(v, n - 1) && Copies(v, n)[0] == v;
  }

  lemma {:induction false} JudgeNone(c: Config, p: Para, v: byte)
    ensures Judge(c, p, Copies(v, 0)) == (p, [])
  {
    assert Copies(v, 0) == [];
  }

  lemma {:induction false} CopiesJoin(v: byte, m: nat, n: nat)
    ensures Copies(v, m) + Copies(v, n) == Copies(v, m + n)
  {}

  // ----- long presses -----

  predicate Timed(c: Config) {
    1 < c.longTime < c.holdTime
  }

  /** `key` is held down and `n` of its readings have been counted. */
  predicate Pressed(p: Para, key: byte, n: nat) {
    key != NO_KEY && p.lastKey == key && p.pressCnt == n
  }

  /** Accepted readings before the next mark only count. */
  lemma {:induction false} Counting(c: Config, p: Para, key: byte, n: nat, k: nat)
    requires Timed(c) && Pressed(p, key, n)
    requires n + k < c.longTime || (c.longTime <= n && n + k < c.holdTime)
    ensures Judge(c, p, Copies(key, k)) == (p.(pressCnt := n + k), [])
    decreases k
  {
    if k == 0 {
      JudgeNone(c, p, key);
    } else {
      assert Accept(c, p, key) == (p.(pressCnt := n + 1), None);
      JudgeCopies(c, p, key, k);
      Counting(c, p.(pressCnt := n + 1), key, n + 1, k - 1);
      Unit([]);
    }
  }

  lemma {:induction false} CountingThen(c: Config, p: Para, key: byte, n: nat, k: nat)
    requires Timed(c) && Pressed(p, key, n)
    requires n + k < c.longTime || (c.longTime <= n && n + k < c.holdTime)
    ensures var (q, e) := Accept(c, p.(pressCnt := n + k), key);
            Judge(c, p, Copies(key, k + 1)) == (q, Emitted(e))
  {
    var q := p.(pressCnt := n + k);
    Counting(c, p, key, n, k);
    CopiesJoin(key, k, 1);
    JudgeJoin(c, p, Copies(key, k), Copies(key, 1));
    JudgeCopies(c, q, key, 1);
    JudgeNone(c, Accept(c, q, key).0, key);
    Unit(Emitted(Accept(c, q, key).1));
  }

  function Holds(key: byte, n: nat): (r: seq<Event>)
    ensures |r| == n
  {
    seq(n, _ => Event(Hold, key))
  }

  /** How often `period` fits into `n`. */
  function Marks(n: nat, period: nat): nat
    requires period > 0
  {
    if n < period then 0 else 1 + Marks(n - period, period)
  }

  function Rest(n: nat, period: nat): (r: nat)
    requires period > 0
    ensures r < period
  {
    if n < period then n else Rest(n - period, period)
  }

  lemma {:induction false} MarksTile(n: nat, period: nat)
    requires period > 0
    ensures Marks(n, period) * period + Rest(n, period) == n
  {
    if n >= period {
      MarksTile(n - period, period);
      var m := Marks(n - period, period);
      assert (1 + m) * period == period + m * period;
    }
  }

  function Period(c: Config): (t: nat)
    requires Timed(c)
    ensures 0 < t && c.longTime + t == c.holdTime
  {
    c.holdTime - c.longTime
  }

  /** One period past the long mark: a HOLD, and the count is back at the mark. */
  lemma {:induction false} OneHold(c: Config, p: Para, key: byte)
    requires Timed(c) && Pressed(p, key, c.longTime) && p.clickCnt == 0 && p.notifyValue == NO_KEY
    ensures Judge(c, p, Copies(key, Period(c))) == (p, [Event(Hold, key)])
  {
    CountingThen(c, p, key, c.longTime, Period(c) - 1);
  }

  /** Every `holdTime - longTime` readings of a long press emit one HOLD. */
  lemma {:induction false} HoldRuns(c: Config, p: Para, key: byte, n: nat)
    requires Timed(c) && Pressed(p, key, c.longTime) && p.clickCnt == 0 && p.notifyValue == NO_KEY
    ensures Judge(c, p, Copies(key, n)).0 == p.(pressCnt := c.longTime + Rest(n, Period(c)))
    ensures Judge(c, p, Copies(key, n)).1 == Holds(key, Marks(n, Period(c)))
    decreases n
  {
    var t := Period(c);
    if n < t {
      Counting(c, p, key, c.longTime, n);
      assert Holds(key, 0) == [];
    } else {
      OneHold(c, p, key);
      HoldRuns(c, p, key, n - t);
      CopiesJoin(key, t, n - t);
      JudgeJoin(c, p, Copies(key, t), Copies(key, n - t));
      assert [Event(Hold, key)] + Holds(key, Marks(n - t, t)) == Holds(key, Marks(n, t));
    }
  }

  /** The events of a key held for `held` accepted readings. */
  function HeldEvents(c: Config, key: byte, held: nat): seq<Event>
    requires Timed(c)
  {
    if held < c.longTime then [] else [Event(Long, key)] + Holds(key, Marks(held - c.longTime, Period(c)))
  }

  lemma {:induction false} LongRuns(c: Config, p: Para, key: byte, held: nat)
    requires Timed(c) && Pressed(p, key, 1) && held >= c.longTime
    ensures Judge(c, p, Copies(key, held - 1)) ==
            (p.(pressCnt := c.longTime + Rest(held - c.longTime, Period(c)), clickCnt := 0, notifyValue := NO_KEY),
             HeldEvents(c, key, held))
  {
    var more := held - c.longTime;
    CountingThen(c, p, key, 1, c.longTime - 2);
    var q := p.(pressCnt := c.longTime, clickCnt := 0, notifyValue := NO_KEY);
    assert Judge(c, p, Copies(key, c.longTime - 1)) == (q, [Event(Long, key)]);
    HoldRuns(c, q, key, more);
    CopiesJoin(key, c.longTime - 1, more);
    JudgeJoin(c, p, Copies(key, c.longTime - 1), Copies(key, more));
  }

  /** No key is down and nothing is waiting to be reported. */
  predicate Quiet(p: Para) {
    p.lastKey == NO_KEY && p.clickCnt == 0
  }

  lemma {:induction false} QuietStays(c: Config, p: Para, n: nat)
    requires Quiet(p)
    ensures Judge(c, p, Copies(NO_KEY, n)) == (p, [])
    decreases n
  {
    if n == 0 {
      JudgeNone(c, p, NO_KEY);
    } else {
      assert Accept(c, p, NO_KEY) == (p, None);
      JudgeCopies(c, p, NO_KEY, n);
      QuietStays(c, p, n - 1);
      Unit([]);
    }
  }

  /**
    A key pressed from rest, at every moment of its press: nothing before the
    `longTime`-th accepted reading, LONG at it, a HOLD every
    `holdTime - longTime` after it.
   */
  lemma {:induction false} HeldKey(c: Config, p: Para, key: byte, held: nat)
    requires Timed(c) && Quiet(p) && key != NO_KEY && held > 0
    ensures Judge(c, p, Copies(key, held)).1 == HeldEvents(c, key, held)
    ensures var q := Judge(c, p, Copies(key, held)).0;
            q.lastKey == key && if held < c.longTime then q.pressCnt == held && q.clickCnt == 1 && q.notifyValue == key
                                else q.pressCnt >= c.longTime && q.clickCnt == 0
  {
    JudgeCopies(c, p, key, held);
    var q := Accept(c, p, key).0;
    if held < c.longTime {
      Counting(c, q, key, 1, held - 1);
    } else {
      LongRuns(c, q, key, held);
    }
    Unit(HeldEvents(c, key, held));
  }

  /**
    The `m`-th HOLD of a press falls on its accepted reading number
    `longTime + m * (holdTime - longTime)`: up to there and not before there are
    `m` of them.
   */
  lemma {:induction false} HoldsFall(c: Config, p: Para, key: byte, held: nat, m: nat)
    requires Timed(c) && Quiet(p) && key != NO_KEY && held >= c.longTime
    ensures Judge(c, p, Copies(key, held)).1 == [Event(Long, key)] + Holds(key, m)
       <==> c.longTime + m * Period(c) <= held < c.longTime + (m + 1) * Period(c)
  {
    HeldKey(c, p, key, held);
    var t, more := Period(c), held - c.longTime;
    MarksTile(more, t);
    MarksUnique(Marks(more, t), Rest(more, t), m, t);
    LongFirst(key, Marks(more, t), m);
  }

  lemma {:induction false} LongFirst(key: byte, a: nat, b: nat)
    ensures [Event(Long, key)] + Holds(key, a) == [Event(Long, key)] + Holds(key, b) <==> a == b
  {
    assert |[Event(Long, key)] + Holds(key, a)| == 1 + a && |[Event(Long, key)] + Holds(key, b)| == 1 + b;
  }

  lemma {:induction false} LaterMark(a: nat, b: nat, t: nat)
    requires a < b
    ensures a * t + t <= b * t
    decreases b
  {
    var c: nat := b - 1;
    assert b * t == c * t + t;
    if a < c {
      LaterMark(a, c, t);
    }
  }

  lemma {:induction false} MarksUnique(q: nat, r: nat, m: nat, t: nat)
    requires r < t
    ensures m * t <= q * t + r < (m + 1) * t <==> q == m
  {
    LaterMark(m, m + 1, t);
    if q < m {
      LaterMark(q, m, t);
    } else if q > m + 1 {
      LaterMark(m + 1, q, t);
    } else {
      assert (m + 1) * t == m * t + t;
    }
  }

  /** Letting go of a key held past the long mark: one UP, whatever is left to read, and no click. */
  lemma {:induction false} LongRelease(c: Config, p: Para, key: byte, n: nat)
    requires key != NO_KEY && p.lastKey == key && p.pressCnt >= c.longTime && n > 0
    ensures Judge(c, p, Copies(NO_KEY, n)).1 == [Event(Up, key)]
    ensures Quiet(Judge(c, p, Copies(NO_KEY, n)).0)
  {
    JudgeCopies(c, p, NO_KEY, n);
    QuietStays(c, Accept(c, p, NO_KEY).0, n - 1);
    Unit([Event(Up, key)]);
  }

  /** A whole long press, however its readings bounce: LONG, the HOLDs, one UP on release and no click. */
  lemma {:induction false} SteadyPress(c: Config, p: Para, key: byte, held: nat, n: nat, readings: seq<byte>)
    requires Timed(c) && Quiet(p) && key != NO_KEY && held >= c.longTime && n > 0
    requires Debounced(c, p, readings) == Copies(key, held) + Copies(NO_KEY, n)
    ensures Run(c, p, readings).1 == HeldEvents(c, key, held) + [Event(Up, key)]
    ensures Quiet(Run(c, p, readings).0)
  {
    RunIsJudged(c, p, p, readings);
    HeldKey(c, p, key, held);
    LongRelease(c, Judge(c, p, Copies(key, held)).0, key, n);
    JudgeJoin(c, p, Copies(key, held), Copies(NO_KEY, n));
  }
}
