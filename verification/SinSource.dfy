/**
  The phase-continuous sample source behind the DAC interrupt: one period of
  a signal in a table, handed out in requests of any length.
 */
module SinSource {

  type sample = s: int | -128 <= s < 128

  // ----- the signal -----

  /** Sample `i` of the table repeated forever. */
  function Forever<T>(table: seq<T>, i: nat): T
    requires table != []
    decreases i
  {
    if i < |table| then table[i] else Forever(table, i - |table|)
  }

  /** `n` samples of the signal from sample `from` on. */
  function Wave<T>(table: seq<T>, from: nat, n: nat): (w: seq<T>)
    requires table != []
    ensures |w| == n && forall i :: 0 <= i < n ==> w[i] == Forever(table, from + i)
  {
    seq(n, i requires 0 <= i => Forever(table, from + i))
  }

  lemma {:induction false} WaveJoins<T>(table: seq<T>, from: nat, m: nat, n: nat)
    requires table != []
    ensures Wave(table, from, m) + Wave(table, from + m, n) == Wave(table, from, m + n)
  {
    var a, b, c := Wave(table, from, m), Wave(table, from + m, n), Wave(table, from, m + n);
    forall i | 0 <= i < m + n ensures (a + b)[i] == c[i] {
      if i >= m {
        assert b[i - m] == Forever(table, from + m + (i - m));
      }
    }
  }

  /** Within a period the signal is the table. */
  lemma {:induction false} WaveInTable<T>(table: seq<T>, from: nat, n: nat)
    requires table != [] && from + n <= |table|
    ensures Wave(table, from, n) == table[from..from + n]
  {}

  /** A whole number of periods does not change the phase. */
  lemma {:induction false} PeriodsLater<T>(table: seq<T>, i: nat, periods: nat)
    requires table != []
    ensures i + periods * |table| >= 0 && Forever(table, i + periods * |table|) == Forever(table, i)
    decreases periods
  {
    if periods > 0 {
      PeriodsLater(table, i, periods - 1);
      assert i + periods * |table| - |table| == i + (periods - 1) * |table|;
    }
  }

  lemma {:induction false} WaveLater<T>(table: seq<T>, from: nat, periods: nat, later: nat, n: nat)
    requires table != [] && later == from + periods * |table|
    ensures Wave(table, later, n) == Wave(table, from, n)
  {
    var a, b := Wave(table, later, n), Wave(table, from, n);
    forall i | 0 <= i < n ensures a[i] == b[i] {
      PeriodsLater(table, from + i, periods);
      assert from + i + periods * |table| == later + i;
    }
  }

  // ----- the source -----

  /** Where the next sample is taken after a request of `n` from offset `at`. */
  function Next(length: nat, at: nat, n: nat): nat
    requires 0 < length && at <= length
  {
    if length - at < n then (n - (length - at)) % length else at + n
  }

  /** How many whole periods a request takes after the rest of the current one. */
  function Periods(length: nat, at: nat, n: nat): nat
    requires 0 < length && at <= length
  {
    if length - at < n then (n - (length - at)) / length else 0
  }

  /** How many samples are copied when that number is kept in 8 bits. */
  function Copied(length: nat, at: nat, n: nat): nat
    requires 0 < length && at <= length
  {
    if length - at < n then length - at + Periods(length, at, n) % 256 * length + Next(length, at, n) else n
  }

  lemma {:induction false} Divided(rest: nat, length: nat)
    requires 0 < length
    ensures rest / length * length + rest % length == rest && rest % length < length
  {}

  lemma {:induction false} FewerPeriods(some: nat, all: nat, length: nat)
    requires some <= all
    ensures some * length <= all * length && (0 < length && some < all ==> some * length < all * length)
  {}

  lemma {:induction false} CutPeriods(q: nat, length: nat)
    requires 0 < length
    ensures q % 256 * length <= q * length && (q % 256 * length == q * length <==> q < 256)
  {
    FewerPeriods(q % 256, q, length);
  }

  lemma {:induction false} SameTail<T>(a: seq<T>, b: seq<T>, m: nat, n: nat)
    requires |a| == |b| && m <= n <= |a| && a[m..] == b[m..]
    ensures a[n..] == b[n..]
  {
    assert a[n..] == a[m..][n - m..] && b[n..] == b[m..][n - m..];
  }

  lemma {:induction false} NextPeriod(periods: nat, length: nat)
    ensures (periods + 1) * length == periods * length + length
  {}

  /** A request is filled exactly when its whole periods number fewer than 256. */
  lemma {:induction false} CopiedWhole(length: nat, at: nat, n: nat)
    requires 0 < length && at <= length
    ensures Copied(length, at, n) <= n
    ensures Copied(length, at, n) == n <==> Periods(length, at, n) < 256
  {
    if length - at < n {
      var rest := n - (length - at);
      var q := Periods(length, at, n);
      assert q == rest / length && Next(length, at, n) == rest % length;
      Divided(rest, length);
      assert Copied(length, at, n) == length - at + q % 256 * length + rest % length;
      hide Periods, Next, Copied;
      CutPeriods(q, length);
    }
  }

  class Source {
    /** The table; the driver's has 80 entries. */
    const table: seq<sample>
    /** `sin_buf_ptr`, as an offset into the table. */
    var at: nat
    /** `sin_buf_len`. */
    var left: nat

    ghost predicate Valid()
      reads this
    {
      0 < |table| <= 256 && at + left == |table|
    }

    /** `sin_generator_start`. */
    constructor (table: seq<sample>)
      requires 0 < |table| <= 256
      ensures Valid() && this.table == table && at == 0
    {
      this.table := table;
      at, left := 0, |table|;
    }

    /** `memcpy` from the current place of the table. */
    method Copy(buffer: array<sample>, offset: nat, n: nat)
      requires Valid() && offset + n <= buffer.Length && at + n <= |table|
      modifies buffer
      ensures buffer[..offset] == old(buffer[..offset]) && buffer[offset + n..] == old(buffer[offset + n..])
      ensures buffer[offset..offset + n] == Wave(table, at, n)
    {
      var i: nat := 0;
      while i < n
        invariant i <= n
        invariant buffer[..offset] == old(buffer[..offset]) && buffer[offset + n..] == old(buffer[offset + n..])
        invariant buffer[offset..offset + i] == table[at..at + i]
      {
        buffer[offset + i] := table[at + i];
        i := i + 1;
      }
      WaveInTable(table, at, n);
    }

    /** `Copy`, as one more piece of the signal from `from`. */
    method Continue(buffer: array<sample>, offset: nat, n: nat, ghost from: nat, ghost laps: nat)
      requires Valid() && offset + n <= buffer.Length && at + n <= |table|
      requires from + offset == at + laps * |table| && buffer[..offset] == Wave(table, from, offset)
      modifies buffer
      ensures buffer[..offset + n] == Wave(table, from, offset + n) && buffer[offset + n..] == old(buffer[offset + n..])
    {
      Copy(buffer, offset, n);
      WaveLater(table, at, laps, from + offset, n);
      WaveJoins(table, from, offset, n);
      assert buffer[..offset + n] == buffer[..offset] + buffer[offset..offset + n];
    }

    /** The loop over the whole periods. */
    method CopyPeriods(buffer: array<sample>, start: nat, j: nat, ghost from: nat) returns (offset: nat)
      requires Valid() && at == 0 && from + start == |table| && start + j * |table| <= buffer.Length
      requires buffer[..start] == Wave(table, from, start)
      modifies buffer
      ensures offset == start + j * |table|
      ensures buffer[..offset] == Wave(table, from, offset) && buffer[offset..] == old(buffer[offset..])
    {
      offset := start;
      var i: nat := 0;
      while i < j
        invariant i <= j && offset == start + i * |table| && offset <= buffer.Length
        invariant buffer[..offset] == Wave(table, from, offset)
        invariant buffer[offset..] == old(buffer[..])[offset..]
      {
        FewerPeriods(i + 1, j, left);
        NextPeriod(i, left);
        Continue(buffer, offset, left, from, i + 1);
        offset := offset + left;
        i := i + 1;
      }
    }

    /** From the start of the table: the whole periods, then the beginning of one more. */
    method CopyWrapped(buffer: array<sample>, start: nat, j: nat, k: nat, ghost from: nat)
      requires Valid() && at == 0 && from + start == |table| && k <= |table|
      requires start + j * |table| + k <= buffer.Length && buffer[..start] == Wave(table, from, start)
      modifies buffer
      ensures var end := start + j * |table| + k;
              buffer[..end] == Wave(table, from, end) && buffer[end..] == old(buffer[end..])
    {
      ghost var was := buffer[..];
      var offset := CopyPeriods(buffer, start, j, from);
      ghost var now := buffer[..];
      NextPeriod(j, left);
      Continue(buffer, offset, k, from, j + 1);
      SameTail(now, was, offset, offset + k);
    }

    /** The request runs past the end of the table. */
    method Wrap(buffer: array<sample>, len: nat)
      requires Valid() && left < len <= buffer.Length
      modifies this, buffer
      ensures Valid() && at == Next(|table|, old(at), len)
      ensures var n := Copied(|table|, old(at), len);
              n <= len && buffer[..n] == Wave(table, old(at), n) && buffer[n..] == old(buffer[n..])
    {
      CopiedWhole(|table|, at, len);
      ghost var from, was := at, buffer[..];
      Continue(buffer, 0, left, from, 0);
      ghost var now := buffer[..];
      var offset := left;
      var rest := len - offset;
      left := |table|;
      at := 0;
      var j, k := rest / left % 256, rest % left % 256;
      ghost var n := Copied(|table|, from, len);
      assert offset + j * |table| + k == n;
      CopyWrapped(buffer, offset, j, k, from);
      SameTail(now, was, offset, n);
      left := left - k;
      at := at + k;
    }

    /** `dac_isr_callback`; `priv` is the table. */
    method DacIsrCallback(buffer: array<sample>, len: nat)
      requires Valid() && len <= buffer.Length
      modifies this, buffer
      ensures Valid() && at == Next(|table|, old(at), len)
      ensures var n := Copied(|table|, old(at), len);
              n <= len && buffer[..n] == Wave(table, old(at), n) && buffer[n..] == old(buffer[n..])
    {
      if left < len {
        Wrap(buffer, len);
      } else {
        Continue(buffer, 0, len, at, 0);
        left := left - len;
        at := at + len;
      }
    }
  }

  // ----- whole runs -----

  function Sum(requests: seq<nat>): nat {
    if requests == [] then 0 else requests[0] + Sum(requests[1..])
  }

  /** Every request of the run, the first taken from `at`, has fewer than 256 whole periods. */
  predicate Moderate(length: nat, at: nat, requests: seq<nat>)
    requires 0 < length && at <= length
    decreases |requests|
  {
    requests == [] ||
    (Periods(length, at, requests[0]) < 256 && Moderate(length, Next(length, at, requests[0]), requests[1..]))
  }

  /** The phase the source keeps is that of the samples asked for. */
  lemma {:induction false} NextIsLater<T>(table: seq<T>, at: nat, n: nat, m: nat)
    requires table != [] && at <= |table|
    ensures Wave(table, Next(|table|, at, n), m) == Wave(table, at + n, m)
  {
    var length := |table|;
    if length - at < n {
      var rest := n - (length - at);
      var q, r := rest / length, Next(length, at, n);
      assert r == rest % length;
      Divided(rest, length);
      hide Next, Wave;
      NextPeriod(q, length);
      WaveLater(table, r, q + 1, at + n, m);
    }
  }

  /** The requests of a run, answered one after the other into fresh buffers. */
  method Play(source: Source, requests: seq<nat>) returns (output: seq<sample>)
    requires source.Valid()
    modifies source
    ensures source.Valid()
    ensures Moderate(|source.table|, old(source.at), requests) ==>
            output == Wave(source.table, old(source.at), Sum(requests))
    decreases |requests|
  {
    output := [];
    if requests != [] {
      ghost var from, n := source.at, requests[0];
      var buffer := new sample[requests[0]](_ => 0);
      source.DacIsrCallback(buffer, requests[0]);
      CopiedWhole(|source.table|, from, n);
      var first := buffer[..];
      assert Periods(|source.table|, from, n) < 256 ==> first == buffer[..n];
      var rest := Play(source, requests[1..]);
      output := first + rest;
      NextIsLater(source.table, from, n, Sum(requests[1..]));
      WaveJoins(source.table, from, n, Sum(requests[1..]));
    }
  }
}
