/**
 The health of connection attempts over the last minute: a ring with one packed counter for each
 second, against the plain list of attempts.
 */
module Health {
  const PERIOD := 60

  /** An attempt: the second, and how it ended. */
  datatype Attempt = Attempt(sec: nat, ok: bool)

  /** How many attempts of the seconds after `lo`, up to `hi`, ended so. */
  function Count(log: seq<Attempt>, lo: int, hi: int, ok: bool): (n: nat)
    ensures n <= |log|
  {
    if log == [] then 0
    else
      var last := log[|log| - 1];
      Count(log[..|log| - 1], lo, hi, ok) + (if lo < last.sec <= hi && last.ok == ok then 1 else 0)
  }

  lemma CountOne(log: seq<Attempt>, a: Attempt, lo: int, hi: int, ok: bool)
    ensures Count(log + [a], lo, hi, ok) == Count(log, lo, hi, ok) + (if lo < a.sec <= hi && a.ok == ok then 1 else 0)
  {
    assert (log + [a])[..|log|] == log;
  }

  lemma {:induction false} CountSplit(log: seq<Attempt>, lo: int, mid: int, hi: int, ok: bool)
    requires lo <= mid <= hi
    ensures Count(log, lo, hi, ok) == Count(log, lo, mid, ok) + Count(log, mid, hi, ok)
  {
    if log != [] {
      CountSplit(log[..|log| - 1], lo, mid, hi, ok);
    }
  }

  lemma {:induction false} CountNone(log: seq<Attempt>, lo: int, hi: int, ok: bool)
    requires forall k :: 0 <= k < |log| ==> !(lo < log[k].sec <= hi)
    ensures Count(log, lo, hi, ok) == 0
  {
    if log != [] {
      CountNone(log[..|log| - 1], lo, hi, ok);
    }
  }

  function At(log: seq<Attempt>, sec: int, ok: bool): nat {
    Count(log, sec - 1, sec, ok)
  }

  // ---- the packed counter: successes in the low 16 bits, failures in the high ones

  const LOW := 0x1_0000

  /** A 32-bit store. */
  function Wrap32(v: int): nat {
    v % 0x1_0000_0000
  }

  /** `value & 0xFFFF` and `value >> 16`, that takes the top bit for a sign. */
  function Oks(v: nat): nat {
    v % LOW
  }

  function Fails(v: nat): int
    requires v < 0x1_0000_0000
  {
    (if v >= 0x8000_0000 then v - 0x1_0000_0000 else v) / LOW
  }

  function Pack(oks: nat, fails: nat): nat {
    oks + LOW * fails
  }

  lemma Unpack(oks: nat, fails: nat)
    requires oks < LOW && fails < LOW
    ensures Pack(oks, fails) < 0x1_0000_0000 && Oks(Pack(oks, fails)) == oks
    ensures Fails(Pack(oks, fails)) == if fails < 0x8000 then fails else fails - LOW
  {
  }

  /** With 0x8000 failures in one second the counter reads as a negative number. */
  lemma TooManyFailures(oks: nat, fails: nat)
    requires oks < LOW && fails < LOW
    ensures Fails(Pack(oks, fails)) == fails <==> fails < 0x8000
  {
    Unpack(oks, fails);
  }

  /** One more attempt in the counter of its second. */
  function Bump(v: nat, ok: bool): (b: nat)
    requires v < 0x1_0000_0000
    ensures b < 0x1_0000_0000
  {
    if (if ok then Oks(v) else Fails(v)) < 0xFFFF then Wrap32(v + (if ok then 1 else LOW))
    else if (if ok then Fails(v) else Oks(v)) >= 0x8000 then Wrap32(v - (if ok then LOW else 1))
    else v
  }

  lemma BumpCounts(oks: nat, fails: nat, ok: bool)
    requires oks < LOW && fails < 0x8000 && (if ok then oks < 0xFFFF else fails < 0x7FFF)
    ensures Pack(oks, fails) < 0x1_0000_0000
    ensures Bump(Pack(oks, fails), ok) == if ok then Pack(oks + 1, fails) else Pack(oks, fails + 1)
  {
    Unpack(oks, fails);
  }

  /** The counter grows up to the number that it cannot hold. */
  lemma BumpPastTheEnd(oks: nat, fails: nat)
    requires oks < LOW && fails < 0x8000
    ensures Pack(oks, fails) < 0x1_0000_0000 && Bump(Pack(oks, fails), false) == Pack(oks, fails + 1)
  {
    Unpack(oks, fails);
  }

  /** What division gives. */
  datatype Ratio = NotANumber | Infinity | Value(value: real)

  function Share(oks: nat, fails: int): Ratio {
    if oks + fails != 0 then Value(oks as real / (oks + fails) as real)
    else if oks == 0 then NotANumber
    else Infinity
  }

  /** The share times all is the successes; there is none just when there are no attempts. */
  lemma ShareMeans(oks: nat, fails: nat)
    ensures Share(oks, fails) == NotANumber <==> oks + fails == 0
    ensures oks + fails > 0 ==>
      Share(oks, fails).Value? && Share(oks, fails).value * (oks + fails) as real == oks as real
    ensures Share(oks, fails).Value? ==> 0.0 <= Share(oks, fails).value <= 1.0
  {
    if oks + fails > 0 {
      Quotient(oks as real, (oks + fails) as real);
    }
  }

  lemma Quotient(a: real, b: real)
    requires 0.0 <= a <= b && b > 0.0
    ensures a / b * b == a && 0.0 <= a / b <= 1.0
  {
  }

  /** The slot of the second that is `d` seconds before the one of slot `i`. */
  function Slot(i: nat, d: nat): (s: nat)
    requires i < PERIOD && d < PERIOD
    ensures s < PERIOD
  {
    if d <= i then i - d else i - d + PERIOD
  }

  /** The same for any number of seconds, as many times round the array as it takes. */
  function Back(i: nat, d: nat): (s: nat)
    ensures s < PERIOD
  {
    (i - d) % PERIOD
  }

  lemma BackNext(i: nat, d: nat)
    ensures Back(i, d + 1) == if Back(i, d) == 0 then PERIOD - 1 else Back(i, d) - 1
  {
  }

  lemma BackIsSlot(i: nat, d: nat)
    requires i < PERIOD && d < PERIOD
    ensures Back(i, d) == Slot(i, d)
  {
  }

  /** What the last `n` slots say. */
  function OksOf(data: seq<int>, i: nat, n: nat): nat
    requires |data| == PERIOD && forall k :: 0 <= k < PERIOD ==> 0 <= data[k] < 0x1_0000_0000
  {
    if n == 0 then 0 else OksOf(data, i, n - 1) + Oks(data[Back(i, n - 1)])
  }

  function FailsOf(data: seq<int>, i: nat, n: nat): int
    requires |data| == PERIOD && forall k :: 0 <= k < PERIOD ==> 0 <= data[k] < 0x1_0000_0000
  {
    if n == 0 then 0 else FailsOf(data, i, n - 1) + Fails(data[Back(i, n - 1)])
  }

  /** The ring after `diff` seconds: the slots of those seconds hold nothing. */
  function Advanced(was: seq<int>, i: nat, diff: nat): (r: seq<int>)
    requires |was| == PERIOD && i < PERIOD
  {
    seq(PERIOD, j requires 0 <= j < PERIOD => if (if j > i then j - i else j - i + PERIOD) <= diff then 0 else was[j])
  }

  function NextSlot(i: nat, diff: nat): (at: nat)
    requires i < PERIOD
    ensures at < PERIOD
  {
    if diff >= PERIOD then i else if i + diff < PERIOD then i + diff else i + diff - PERIOD
  }

  lemma ClearedIsAdvanced(now: seq<int>, was: seq<int>, at: nat, i: nat, k: nat)
    requires |now| == |was| == PERIOD && at < PERIOD && i < PERIOD && k < PERIOD
    requires Cleared(now, was, at, i, k) && at == NextSlot(i, k)
    ensures now == Advanced(was, i, k)
  {
    forall j | 0 <= j < PERIOD
      ensures now[j] == Advanced(was, i, k)[j]
    {
      var d := if j <= at then at - j else at - j + PERIOD;
      assert Slot(at, d) == j;
    }
  }

  lemma AdvancedNowhere(was: seq<int>, i: nat)
    requires |was| == PERIOD && i < PERIOD
    ensures Advanced(was, i, 0) == was && NextSlot(i, 0) == i
  {
  }

  /** One slot holds something, and the others nothing. */
  lemma {:induction false} OneSlot(data: seq<int>, i: nat, n: nat)
    requires |data| == PERIOD && i < PERIOD && 0 < n <= PERIOD && 0 <= data[i] < 0x1_0000_0000
    requires forall k :: 0 <= k < PERIOD && k != i ==> data[k] == 0
    ensures OksOf(data, i, n) == Oks(data[i]) && FailsOf(data, i, n) == Fails(data[i])
  {
    if n > 1 {
      OneSlot(data, i, n - 1);
      BackIsSlot(i, n - 1);
    }
  }

  /** `k` slots after `i` are cleared, up to `at`; the others are as they were. */
  ghost predicate Cleared(now: seq<int>, was: seq<int>, at: nat, i: nat, k: nat)
    requires |now| == |was| == PERIOD && at < PERIOD && i < PERIOD
  {
    && (forall d :: 0 <= d < k && d < PERIOD ==> now[Slot(at, d)] == 0)
    && (forall d :: k <= d < PERIOD ==> now[Slot(at, d)] == was[Slot(i, d - k)])
  }

  lemma NoneCleared(was: seq<int>, i: nat)
    requires |was| == PERIOD && i < PERIOD
    ensures Cleared(was, was, i, i, 0)
  {
  }

  lemma OneCleared(now: seq<int>, was: seq<int>, at: nat, i: nat, k: nat, next: nat)
    requires |now| == |was| == PERIOD && at < PERIOD && i < PERIOD && Cleared(now, was, at, i, k)
    requires next == if at + 1 == PERIOD then 0 else at + 1
    ensures Cleared(now[next := 0], was, next, i, k + 1)
  {
    assert forall d :: 0 < d < PERIOD ==> Slot(next, d) == Slot(at, d - 1) && Slot(next, d) != next;
    forall d | k + 1 <= d < PERIOD
      ensures now[next := 0][Slot(next, d)] == was[Slot(i, d - (k + 1))]
    {
      assert now[Slot(at, d - 1)] == was[Slot(i, (d - 1) - k)];
    }
  }

  lemma AllCleared(now: seq<int>, was: seq<int>, at: nat, i: nat, k: nat)
    requires |now| == |was| == PERIOD && at < PERIOD && i < PERIOD && Cleared(now, was, at, i, k)
    ensures forall d :: 0 <= d < k && d < PERIOD ==> now[Slot(at, d)] == 0
    ensures forall d :: k <= d < PERIOD ==> now[Slot(at, d)] == was[Slot(i, d - k)]
  {
  }

  lemma InRange(now: seq<int>, was: seq<int>, at: nat, i: nat, k: nat)
    requires |now| == |was| == PERIOD && at < PERIOD && i < PERIOD && Cleared(now, was, at, i, k)
    requires forall j :: 0 <= j < PERIOD ==> 0 <= was[j] < 0x1_0000_0000
    ensures forall j :: 0 <= j < PERIOD ==> 0 <= now[j] < 0x1_0000_0000
  {
    forall j | 0 <= j < PERIOD
      ensures 0 <= now[j] < 0x1_0000_0000
    {
      var d := if j <= at then at - j else at - j + PERIOD;
      assert Slot(at, d) == j;
    }
  }

  class HealthStatus {
    var data: array<int>
    var i: nat
    var iSec: nat
    ghost var log: seq<Attempt>

    ghost predicate Ring()
      reads this, data
    {
      && data.Length == PERIOD && i < PERIOD
      && (forall k :: 0 <= k < PERIOD ==> 0 <= data[k] < 0x1_0000_0000)
      && (forall k :: 0 <= k < |log| ==> log[k].sec <= iSec)
    }

    /** Each slot holds the counts of its second. */
    ghost predicate Exact()
      requires Ring()
      reads this, data
    {
      forall d :: 0 <= d < PERIOD ==> SlotExact(d)
    }

    ghost predicate SlotExact(d: nat)
      requires Ring() && d < PERIOD
      reads this, data
    {
      && At(log, iSec - d, true) <= 0xFFFF && At(log, iSec - d, false) <= 0x7FFF
      && data[Slot(i, d)] == Pack(At(log, iSec - d, true), At(log, iSec - d, false))
    }

    constructor ()
      ensures Ring() && Exact() && log == [] && fresh(data) && iSec == 0
      ensures forall k :: 0 <= k < PERIOD ==> data[k] == 0
    {
      data := new int[PERIOD](_ => 0);
      i, iSec, log := 0, 0, [];
    }

    /** The slots of `diff` more seconds are cleared, round the end of the array. */
    method Clear(diff: nat) returns (at: nat)
      requires data.Length == PERIOD && i < PERIOD && diff < PERIOD
      modifies data
      ensures at == NextSlot(i, diff) && Cleared(data[..], old(data[..]), at, i, diff)
    {
      hide Cleared;
      var end := i + diff;
      at := i;
      ghost var was, k := data[..], 0;
      NoneCleared(was, i);
      while at < end
        invariant at < PERIOD && at <= end && end - at == diff - k && k <= diff
        invariant at == i + k || at == i + k - PERIOD
        invariant Cleared(data[..], was, at, i, k)
      {
        ghost var before, from := data[..], at;
        at := at + 1;
        if at == PERIOD {
          at, end := 0, end - PERIOD;
        }
        data[at] := 0;
        k := k + 1;
        OneCleared(before, was, from, i, k - 1, at);
        assert data[..] == before[at := 0];
      }
    }

    /** The ring moves on to the second `sec`; the slots of the seconds between are cleared. */
    method Advance(sec: nat)
      requires Ring() && sec >= iSec
      modifies this`i, this`iSec, data
      ensures Ring() && iSec == sec && i == NextSlot(old(i), sec - old(iSec))
      ensures data[..] == Advanced(old(data[..]), old(i), sec - old(iSec))
      ensures old(Exact()) ==> Exact()
    {
      hide Count, Slot;
      var diff := sec - iSec;
      if diff >= PERIOD {
        forall k | 0 <= k < PERIOD {
          data[k] := 0;
        }
      } else {
        ghost var was, i0 := data[..], i;
        i := Clear(diff);
        AllCleared(data[..], was, i, i0, diff);
        InRange(data[..], was, i, i0, diff);
        ClearedIsAdvanced(data[..], was, i, i0, diff);
      }
      iSec := sec;
      if old(Exact()) {
        forall d: nat | d < PERIOD
          ensures SlotExact(d)
        {
          if d < diff {
            CountNone(log, sec - d - 1, sec - d, true);
            CountNone(log, sec - d - 1, sec - d, false);
          } else {
            assert old(SlotExact(d - diff));
          }
        }
      }
    }

    /** One attempt, at the second `sec`; one that is older than the last is not recorded. */
    method Log(ok: bool, sec: nat)
      requires Ring()
      modifies this, data
      ensures Ring() && data == old(data)
      ensures sec < old(iSec) ==> log == old(log) && iSec == old(iSec) && data[..] == old(data[..])
      ensures sec >= old(iSec) ==> log == old(log) + [Attempt(sec, ok)] && iSec == sec
      ensures sec >= old(iSec) ==>
        var ring := Advanced(old(data[..]), old(i), sec - old(iSec));
        && i == NextSlot(old(i), sec - old(iSec)) && 0 <= ring[i] < 0x1_0000_0000
        && data[..] == ring[i := Bump(ring[i], ok)]
      ensures old(Exact()) && At(old(log), sec, ok) < (if ok then 0xFFFF else 0x7FFF) ==> Exact()
    {
      hide Count, Bump, Pack, Advanced;
      if sec < iSec {
        return;
      }
      Advance(sec);
      ghost var before, counters := log, data[..];
      label Advanced:
      data[i] := Bump(data[i], ok);
      assert data[..] == counters[i := Bump(counters[i], ok)];
      log := log + [Attempt(sec, ok)];
      if old(Exact()) && At(old(log), sec, ok) < (if ok then 0xFFFF else 0x7FFF) {
        forall d: nat | d < PERIOD
          ensures SlotExact(d)
        {
          assert old@Advanced(SlotExact(d));
          CountOne(before, Attempt(sec, ok), sec - d - 1, sec - d, true);
          CountOne(before, Attempt(sec, ok), sec - d - 1, sec - d, false);
          assert d > 0 ==> data[Slot(i, d)] == counters[Slot(i, d)];
          if d == 0 {
            BumpCounts(At(before, sec, true), At(before, sec, false), ok);
          }
        }
      }
    }

    /** The sums over the last `period` slots, going back round the start of the array. */
    method Sum(period: nat) returns (nOk: nat, nFail: int)
      requires Ring()
      ensures nOk == OksOf(data[..], i, period) && nFail == FailsOf(data[..], i, period)
    {
      hide Back, Oks, Fails;
      var at: int, end: int := i, i - period;
      BackIsSlot(i, 0);
      nOk, nFail := 0, 0;
      ghost var d, slots := 0, data[..];
      while at > end
        invariant 0 <= d <= period && at - end == period - d && -1 <= at < PERIOD
        invariant d < period ==> (if at < 0 then PERIOD - 1 else at) == Back(i, d)
        invariant nOk == OksOf(slots, i, d) && nFail == FailsOf(slots, i, d)
      {
        if at < 0 {
          at, end := at + PERIOD, end + PERIOD;
        }
        var value := data[at];
        nOk, nFail := nOk + Oks(value), nFail + Fails(value);
        at := at - 1;
        BackNext(i, d);
        d := d + 1;
      }
    }

    /** When each slot is exact, so are the sums. */
    lemma {:induction false} ExactSums(period: nat)
      requires Ring() && Exact() && period <= PERIOD
      ensures OksOf(data[..], i, period) == Count(log, iSec - period, iSec, true)
      ensures FailsOf(data[..], i, period) == Count(log, iSec - period, iSec, false)
    {
      hide Count, Pack;
      if period == 0 {
        CountNone(log, iSec, iSec, true);
        CountNone(log, iSec, iSec, false);
      } else {
        var d := period - 1;
        ExactSums(d);
        BackIsSlot(i, d);
        assert SlotExact(d);
        Unpack(At(log, iSec - d, true), At(log, iSec - d, false));
        CountSplit(log, iSec - d - 1, iSec - d, iSec, true);
        CountSplit(log, iSec - d - 1, iSec - d, iSec, false);
      }
    }

    /**
     The share of the successes, by the slots of the last `periodSec` seconds, or not-a-number
     if there were none. More than the ring can hold is cut to what it holds. If the slots are exact, this is the share
     of the successes among the attempts.
     */
    method GetHealthStatusForPeriod(periodSec: int, sec: nat) returns (r: Ratio)
      requires Ring()
      ensures var n := Min(periodSec, PERIOD) - (sec - iSec);
        r == if n <= 0 then NotANumber else Share(OksOf(data[..], i, n), FailsOf(data[..], i, n))
      ensures var p := Min(periodSec, PERIOD);
        Exact() && sec >= iSec ==>
          r == if p <= 0 then NotANumber else Share(Count(log, sec - p, sec, true), Count(log, sec - p, sec, false))
    {
      hide Count, SlotExact, Share;
      ShareMeans(0, 0);
      var diff := sec - iSec;
      var period := Min(periodSec, PERIOD) - diff;
      ghost var p := period + diff;
      if period <= 0 {
        if p > 0 {
          CountNone(log, sec - p, sec, true);
          CountNone(log, sec - p, sec, false);
        }
        return NotANumber;
      }
      var nOk, nFail := Sum(period);
      if Exact() && sec >= iSec {
        ExactSums(period);
        Older(sec, period, true);
        Older(sec, period, false);
      }
      r := Share(nOk, nFail);
    }

    /** There are no attempts after the last one. */
    lemma Older(sec: nat, period: nat, ok: bool)
      requires Ring() && sec >= iSec
      ensures Count(log, iSec - period, sec, ok) == Count(log, iSec - period, iSec, ok)
    {
      hide Count;
      CountSplit(log, iSec - period, iSec, sec, ok);
      CountNone(log, iSec, sec, ok);
    }
  }

  function Min(a: int, b: int): int {
    if a < b then a else b
  }

  lemma PackNothing()
    ensures Pack(0, 0) == 0
  {
  }

  /** One success and 0x8000 failures in one second: the share of the successes is a negative number. */
  method NegativeShare() returns (r: Ratio)
    ensures r == Value(1.0 / -32767.0)
  {
    hide Count, Bump, Pack;
    var h := new HealthStatus();
    AdvancedNowhere(h.data[..], h.i);
    BumpCounts(0, 0, true);
    assert Pack(0, 0) == 0 by {
      PackNothing();
    }
    h.Log(true, 0);
    for k := 0 to 0x8000
      invariant h.Ring() && h.iSec == 0 && h.data[h.i] == Pack(1, k)
      invariant fresh(h) && fresh(h.data)
      invariant forall j :: 0 <= j < PERIOD && j != h.i ==> h.data[j] == 0
    {
      BumpPastTheEnd(1, k);
      AdvancedNowhere(h.data[..], h.i);
      h.Log(false, 0);
    }
    OneSlot(h.data[..], h.i, PERIOD);
    Unpack(1, 0x8000);
    r := h.GetHealthStatusForPeriod(PERIOD, 0);
  }
}
