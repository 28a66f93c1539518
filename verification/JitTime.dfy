/** Waiting by the clock: a busy loop over a wrapping counter, and a timer that re-arms itself a number of times. */
module JitTime {
  import opened Words

  /** An unsigned word of `w` values. */
  predicate WordSize(w: nat) { w >= 2 && w % 2 == 0 }

  /** Addition and subtraction of words. */
  function Plus(a: int, b: int, w: nat): nat
    requires w > 0
  {
    (a + b) % w
  }

  function Minus(a: int, b: int, w: nat): nat
    requires w > 0
  {
    (a - b) % w
  }

  /** time_before: the difference of the words, read as signed, is negative. */
  predicate TimeBefore(a: nat, b: nat, w: nat)
    requires WordSize(w)
  {
    Minus(a, b, w) >= w / 2
  }

  /** Sums and differences of words are the words of the sums and differences: in range, and off by a multiple of w. */
  lemma WordsAre(a: int, b: int, w: nat)
    requires w > 0
    ensures Plus(a, b, w) == (a + b) % w < w && Minus(a, b, w) == (a - b) % w < w
  {
  }

  lemma MinusOfWords(a: int, b: int, w: nat)
    requires w > 0
    ensures Minus(a % w, b % w, w) == Minus(a, b, w)
  {
    var qa, qb := a / w, b / w;
    assert a == qa * w + a % w && b == qb * w + b % w;
    assert (qb - qa) * w == qb * w - qa * w;
    ModAddMultiple(a - b, qb - qa, w);
  }

  lemma PlusOfWords(a: int, b: int, w: nat)
    requires w > 0
    ensures Plus(a % w, b, w) == Plus(a, b, w)
  {
    assert a + b == (a % w + b) + (a / w) * w;
    ModAddMultiple(a % w + b, a / w, w);
  }

  /** Within one word of each other, the comparison of wrapped times agrees with that of true times exactly in a window
      of half the word range on either side. */
  lemma TimeBeforeExactly(a: int, b: int, w: nat)
    requires WordSize(w) && b - a <= w && a - b < w
    ensures (TimeBefore(a % w, b % w, w) <==> a < b) <==> -(w / 2) <= a - b < w / 2
  {
    MinusOfWords(a, b, w);
    var d := a - b;
    if d < 0 {
      UniqueRemainder(d, -1, d + w, w);
    } else {
      UniqueRemainder(d, 0, d, w);
    }
  }

  // The busy loop

  /** True times at which the loop reads the clock: not before `start`, in order, at most `gap` apart. */
  predicate Samples(start: nat, times: seq<nat>, gap: nat) {
    && (times != [] ==> Follows(start, times[0], gap))
    && (forall i :: 0 < i < |times| ==> Follows(times[i - 1], times[i], gap))
  }

  predicate Follows(previous: nat, now: nat, gap: nat) { previous <= now <= previous + gap }

  /** jit_fn_show, the two looping cases: the loop ends at the first sample at which the delay has
      passed; at once if the delay is not positive. */
  method BusyWait(start: nat, delay: int, times: seq<nat>, gap: nat, w: nat) returns (exit: nat)
    requires WordSize(w) && Samples(start, times, gap)
    requires delay <= w / 2 && if delay > 0 then gap <= w / 2 else gap - delay < w / 2
    requires times != [] && times[|times| - 1] >= start + delay
    ensures exit < |times| && times[exit] >= start + delay
    ensures forall i :: 0 <= i < exit ==> times[i] < start + delay
  {
    var j0 := start % w;
    var j1 := Plus(j0, delay, w);
    exit := 0;
    assert Follows(start, times[0], gap);
    SampleTest(start, delay, start, times[0], gap, w);
    while TimeBefore(times[exit] % w, j1, w)
      invariant exit < |times| && start <= times[exit]
      invariant forall i :: 0 <= i < exit ==> times[i] < start + delay
      invariant TimeBefore(times[exit] % w, j1, w) <==> times[exit] < start + delay
      decreases |times| - exit
    {
      exit := exit + 1;
      assert Follows(times[exit - 1], times[exit], gap);
      SampleTest(start, delay, times[exit - 1], times[exit], gap, w);
    }
  }

  lemma SampleTest(start: nat, delay: int, previous: nat, now: nat, gap: nat, w: nat)
    requires WordSize(w) && delay <= w / 2 && if delay > 0 then gap <= w / 2 else gap - delay < w / 2
    requires Follows(previous, now, gap) && start <= previous
    requires if delay > 0 then previous < start + delay else previous == start
    ensures TimeBefore(now % w, Plus(start % w, delay, w), w) <==> now < start + delay
  {
    hide TimeBefore;
    PlusOfWords(start, delay, w);
    TimeBeforeExactly(now, start + delay, w);
  }

  /** Every sample at most `gap` after one before the deadline is judged rightly. */
  ghost predicate JudgesRightly(start: nat, delay: nat, gap: nat, w: nat)
    requires WordSize(w)
  {
    forall previous: nat, now: nat ::
      start <= previous < start + delay && Follows(previous, now, gap) ==> RightAt(start, delay, now, w)
  }

  predicate RightAt(start: nat, delay: nat, now: nat, w: nat)
    requires WordSize(w)
  {
    TimeBefore(now % w, Plus(start % w, delay, w), w) <==> now < start + delay
  }

  lemma RightAtWhen(start: nat, delay: nat, now: nat, w: nat)
    requires WordSize(w) && start <= now && delay <= w
    requires now - (start + delay) < w
    ensures RightAt(start, delay, now, w) <==> -(w / 2) <= now - (start + delay) < w / 2
  {
    hide TimeBefore, Plus;
    PlusOfWords(start, delay, w);
    TimeBeforeExactly(now, start + delay, w);
    WordsAre(start, delay, w);
  }

  /** Half the word range is exactly the sampling gap the loop can bear, whatever the start and the wraps after it. */
  lemma JudgesRightlyExactly(start: nat, delay: nat, gap: nat, w: nat)
    requires WordSize(w) && 0 < delay <= w / 2
    ensures JudgesRightly(start, delay, gap, w) <==> gap <= w / 2
  {
    hide RightAt;
    if gap <= w / 2 {
      forall previous: nat, now: nat | start <= previous < start + delay && Follows(previous, now, gap)
        ensures RightAt(start, delay, now, w)
      {
        RightAtWhen(start, delay, now, w);
      }
    } else {
      var previous, now := start + delay - 1, start + delay + w / 2;
      RightAtWhen(start, delay, now, w);
      assert Follows(previous, now, gap);
    }
  }

  // The timer

  function Sum(s: seq<int>): int {
    if s == [] then 0 else Sum(s[..|s| - 1]) + s[|s| - 1]
  }

  /** The k-th expiry, as a word: the start plus k + 1 delays, whatever happened meanwhile. */
  function Expiry(start: nat, k: nat, tdelay: int, w: nat): int
    requires w > 0
  {
    Plus(start, (k + 1) * tdelay, w)
  }

  /** The expiries of the first n callbacks, and the times they show: each since the one before, the first since the
      start. */
  function Expiries(start: nat, tdelay: int, n: nat, w: nat): (es: seq<nat>)
    requires w > 0
    ensures |es| == n
  {
    if n == 0 then [] else Expiries(start, tdelay, n - 1, w) + [Expiry(start, n - 1, tdelay, w)]
  }

  function Deltas(start: nat, clock: nat -> nat, n: nat, w: nat): (ds: seq<int>)
    requires w > 0
    ensures |ds| == n
  {
    if n == 0 then [] else Deltas(start, clock, n - 1, w) + [Minus(clock(n - 1), Before(start, clock, n - 1), w)]
  }

  /** The clock before the k-th callback: at the start, or at the callback before. */
  function Before(start: nat, clock: nat -> nat, k: nat): nat { if k == 0 then start else clock(k - 1) }

  /** No drift: the k-th expiry is the start and k + 1 delays, modulo the word. */
  lemma {:induction false} ExpiryAt(start: nat, tdelay: int, n: nat, w: nat, k: nat)
    requires w > 0 && k < n
    ensures Expiries(start, tdelay, n, w)[k] == (start + (k + 1) * tdelay) % w
    decreases n
  {
    if k < n - 1 {
      ExpiryAt(start, tdelay, n - 1, w, k);
    }
  }

  lemma {:induction false} DeltaAt(start: nat, clock: nat -> nat, n: nat, w: nat, k: nat)
    requires w > 0 && k < n
    ensures Deltas(start, clock, n, w)[k] == (clock(k) - if k == 0 then start else clock(k - 1)) % w
    decreases n
  {
    if k < n - 1 {
      DeltaAt(start, clock, n - 1, w, k);
    }
  }

  /** The times shown add up to the time from the start to the last callback. */
  lemma {:induction false} DeltasTelescope(start: nat, clock: nat -> nat, n: nat, w: nat)
    requires w > 0
    ensures Plus(0, Sum(Deltas(start, clock, n, w)), w) == Minus(Before(start, clock, n), start, w)
    decreases n
  {
    hide Plus, Minus, Sum;
    if n == 0 {
      NoDeltas(start, w);
    } else {
      var before := Deltas(start, clock, n - 1, w);
      DeltasTelescope(start, clock, n - 1, w);
      var last := Before(start, clock, n - 1);
      DeltasAdd(Sum(before), clock(n - 1), last, start, w);
      SumSnoc(before, Minus(clock(n - 1), last, w));
    }
  }

  class JitData {
    var expires: nat
    var prevjiffies: nat
    var loops: int
    var pending: bool
    var woken: bool

    /** jit_timer_fn. `now` is the clock when the callback gets to run. */
    method TimerFn(now: nat, tdelay: int, w: nat) returns (delta: nat)
      requires WordSize(w) && pending
      modifies this
      ensures delta == Minus(now, old(prevjiffies), w)
      ensures loops == old(loops) - 1 && pending == (loops != 0) && woken == (old(woken) || loops == 0)
      ensures expires == if pending then Plus(old(expires), tdelay, w) else old(expires)
      ensures prevjiffies == if pending then now else old(prevjiffies)
    {
      pending := false;
      delta := Minus(now, prevjiffies, w);
      loops := loops - 1;
      if loops != 0 {
        expires := Plus(expires, tdelay, w);
        prevjiffies := now;
        pending := true;
      } else {
        woken := true;
      }
    }

    /** jit_timer_show with its timer: `clock(k)` is the clock when the k-th callback gets to run, however late.
        Exactly n callbacks run; the k-th is set for start + (k + 1) * tdelay, and shows the time since the one before;
        these add up to the time from the start to the last callback. */
    method TimerShow(start: nat, tdelay: int, n: nat, clock: nat -> nat, w: nat)
      returns (expiries: seq<nat>, deltas: seq<int>)
      requires WordSize(w) && n > 0 && start < w && forall k :: clock(k) < w
      modifies this
      ensures woken && !pending && loops == 0
      ensures expiries == Expiries(start, tdelay, n, w) && deltas == Deltas(start, clock, n, w)
      ensures Plus(0, Sum(deltas), w) == Minus(clock(n - 1), start, w)
    {
      hide Expiry, Plus, Minus, Sum, Expiries, Deltas;
      NoneFired(start, tdelay, clock, w);
      FirstExpiry(start, tdelay, w);
      prevjiffies, loops, woken := start, n, false;
      expires := Plus(start, tdelay, w);
      pending := true;
      expiries, deltas := [], [];
      ghost var k: nat := 0;
      while pending
        invariant k == n - loops && 0 <= loops && pending == (loops > 0) && woken == (loops == 0)
        invariant expiries == Expiries(start, tdelay, k, w) && deltas == Deltas(start, clock, k, w)
        invariant pending ==> expires == Expiry(start, k, tdelay, w) && prevjiffies == Before(start, clock, k)
        decreases loops
      {
        var now := clock(|expiries|);
        NextExpiry(start, k, tdelay, w);
        OneMoreFired(start, tdelay, clock, k, w);
        expiries := expiries + [expires];
        var delta := TimerFn(now, tdelay, w);
        deltas := deltas + [delta];
        k := k + 1;
      }
      DeltasTelescope(start, clock, n, w);
    }
  }

  lemma NoneFired(start: nat, tdelay: int, clock: nat -> nat, w: nat)
    requires w > 0
    ensures Expiries(start, tdelay, 0, w) == [] && Deltas(start, clock, 0, w) == []
  {
  }

  lemma OneMoreFired(start: nat, tdelay: int, clock: nat -> nat, k: nat, w: nat)
    requires w > 0
    ensures Expiries(start, tdelay, k + 1, w) == Expiries(start, tdelay, k, w) + [Expiry(start, k, tdelay, w)]
    ensures Deltas(start, clock, k + 1, w)
            == Deltas(start, clock, k, w) + [Minus(clock(k), Before(start, clock, k), w)]
  {
  }

  lemma FirstExpiry(start: nat, tdelay: int, w: nat)
    requires w > 0
    ensures Expiry(start, 0, tdelay, w) == Plus(start, tdelay, w)
  {
  }

  lemma NextExpiry(start: nat, k: nat, tdelay: int, w: nat)
    requires w > 0
    ensures Plus(Expiry(start, k, tdelay, w), tdelay, w) == Expiry(start, k + 1, tdelay, w)
  {
    PlusOfWords(start + (k + 1) * tdelay, tdelay, w);
    assert start + (k + 1) * tdelay + tdelay == start + (k + 2) * tdelay;
  }

  lemma DeltasAdd(sum: int, now: int, last: int, start: int, w: nat)
    requires w > 0 && Plus(0, sum, w) == Minus(last, start, w)
    ensures Plus(0, sum + Minus(now, last, w), w) == Minus(now, start, w)
  {
    var c := sum / w - (last - start) / w - (now - last) / w;
    assert sum + (now - last) % w == (now - start) + c * w;
    ModAddMultiple(now - start, c, w);
  }

  lemma NoDeltas(start: int, w: nat)
    requires w > 0
    ensures Plus(0, Sum([]), w) == Minus(start, start, w)
  {
  }

  lemma SumSnoc(s: seq<int>, x: int)
    ensures Sum(s + [x]) == Sum(s) + x
  {
    assert (s + [x])[..|s|] == s;
  }
}
