/** The one-second timer thread. */
module Timers {
  import opened Bytes

  class Timer {
    const interval: int32
    var leftsecs: int32
    var fired: nat   // callbacks made so far

    constructor (interval: int32)
      ensures this.interval == interval && leftsecs == interval && fired == 0
    {
      this.interval := interval;
      leftsecs := interval;
      fired := 0;
    }
  }

  /** `leftsecs--` on 32 bits. */
  function Decrement(v: int32): int32 {
    if v == -0x8000_0000 then 0x7FFF_FFFF else v - 1
  }

  /** A timer's countdown and its callback count. */
  datatype Clock = Clock(left: int32, fired: nat)

  /** One pass over one timer. */
  function Tick(interval: int32, c: Clock): Clock {
    if Decrement(c.left) == 0 then Clock(interval, c.fired + 1) else Clock(Decrement(c.left), c.fired)
  }

  function Ticks(interval: int32, n: nat): Clock {
    if n == 0 then Clock(interval, 0) else Tick(interval, Ticks(interval, n - 1))
  }

  /** The passes from one callback to the next: a countdown that does not start above zero goes once around
      the 32 bits. */
  function Period(interval: int32): (p: nat)
    ensures 0 < p <= 0x1_0000_0000
  {
    if interval > 0 then interval else interval + 0x1_0000_0000
  }

  /** What `v` passes to go look like in the countdown. */
  function Countdown(v: nat): int32
    requires v <= 0x1_0000_0000
  {
    if v < 0x8000_0000 then v else v - 0x1_0000_0000
  }

  lemma DivModStep(n: nat, k: nat)
    requires k > 0
    ensures (n + 1) % k == if n % k + 1 == k then 0 else n % k + 1
    ensures (n + 1) / k == if n % k + 1 == k then n / k + 1 else n / k
  {
    var q, r := n / k, n % k;
    assert n == k * q + r;
    if r + 1 == k {
      assert n + 1 == k * (q + 1) + 0 by { assert k * (q + 1) == k * q + k; }
      DivModUnique(n + 1, k, q + 1, 0);
    } else {
      DivModUnique(n + 1, k, q, r + 1);
    }
  }

  /** Over every number of passes: a timer has fired exactly once per period, and its countdown shows the rest
      of the period. */
  lemma {:induction false} TicksExactly(interval: int32, n: nat)
    ensures var p := Period(interval); Ticks(interval, n) == Clock(Countdown(p - n % p), n / p)
  {
    var p := Period(interval);
    if n == 0 {
      DivModUnique(0, p, 0, 0);
    } else {
      TicksExactly(interval, n - 1);
      DivModStep(n - 1, p);
    }
  }

  /** What `n` passes make of a timer; with a positive interval k, n / k callbacks and k - n % k seconds left. */
  ghost predicate Result(interval: int32, n: nat, c: Clock) {
    var p := Period(interval);
    && c == Clock(Countdown(p - n % p), n / p)
    && (interval > 0 ==> c == Clock(interval - n % interval, n / interval))
  }

  lemma TicksResult(interval: int32, n: nat)
    ensures Result(interval, n, Ticks(interval, n))
  {
    hide Ticks;
    TicksExactly(interval, n);
  }

  class TimerThread {
    var timerList: seq<Timer>

    ghost predicate Distinct()
      reads this
    {
      forall i, j | 0 <= i < j < |timerList| :: timerList[i] != timerList[j]
    }

    constructor ()
      ensures timerList == []
    {
      timerList := [];
    }

    method Register(timer: Timer)
      requires Distinct() && timer !in timerList
      modifies this
      ensures Distinct() && timerList == old(timerList) + [timer]
    {
      timerList := timerList + [timer];
    }

    /** One pass of the thread's loop: every timer ticks once, none touches another. */
    method Pass()
      requires Distinct()
      modifies timerList
      ensures timerList == old(timerList)
      ensures forall t | t in timerList ::
                Clock(t.leftsecs, t.fired) == Tick(t.interval, old(Clock(t.leftsecs, t.fired)))
    {
      var i := 0;
      while i < |timerList|
        invariant i <= |timerList| && timerList == old(timerList)
        invariant forall j | 0 <= j < |timerList| ::
                    var t := timerList[j];
                    Clock(t.leftsecs, t.fired) ==
                    if j < i then Tick(t.interval, old(Clock(t.leftsecs, t.fired))) else old(Clock(t.leftsecs, t.fired))
      {
        var t := timerList[i];
        t.leftsecs := Decrement(t.leftsecs);
        if t.leftsecs == 0 {
          t.fired := t.fired + 1;
          t.leftsecs := t.interval;
        }
        i := i + 1;
      }
    }

    /** `n` passes over timers just registered fire each of them once per period, whatever the others are. */
    method Run(n: nat)
      requires Distinct()
      requires forall t | t in timerList :: t.leftsecs == t.interval && t.fired == 0
      modifies timerList
      ensures timerList == old(timerList)
      ensures forall t | t in timerList :: Result(t.interval, n, Clock(t.leftsecs, t.fired))
    {
      hide Result;
      var i := 0;
      while i < n
        invariant i <= n && timerList == old(timerList)
        invariant forall t | t in timerList :: Clock(t.leftsecs, t.fired) == Ticks(t.interval, i)
      {
        Pass();
        i := i + 1;
      }
      forall t | t in timerList
        ensures Result(t.interval, n, Clock(t.leftsecs, t.fired))
      {
        TicksResult(t.interval, n);
      }
    }
  }
}
