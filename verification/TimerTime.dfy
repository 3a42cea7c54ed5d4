/** Time values of the Time Manager emulation: 64-bit host microseconds and 32-bit Mac delays.
    All wrap-around of the original's integer types is written out. */
module TimerTime {
  import opened Bytes

  const MAX_TIME := 0x7fff_ffff_ffff_ffff
  const MIN_TIME := -0x8000_0000_0000_0000

  function AddTime(a: int, b: int): int {
    Signed64(a + b)
  }

  function SubTime(a: int, b: int): int {
    Signed64(a - b)
  }

  /** Compares by the sign of the wrapped difference, as the original does. */
  function CmpTime(a: int, b: int): int {
    var r := Signed64(a - b);
    if r < 0 then -1 else if r > 0 then 1 else 0
  }

  /** Mac delay to host microseconds; the products are taken in 32 bits. */
  function Mac2Host(mactime: int): (res: int)
    ensures IsInt32(res)
  {
    if mactime > 0 then Signed32(mactime * 1000) else Signed32(-mactime)
  }

  /** Host microseconds to a Mac delay: small values as negative microseconds, large ones as
      milliseconds, negative ones as zero. */
  function Host2Mac(hosttime: int): (res: int)
    ensures IsInt32(res)
  {
    if hosttime < 0 then 0
    else if hosttime > 0x7fff_ffff then Signed32(hosttime / 1000)
    else -hosttime
  }

  /** The comparison orders two 64-bit times exactly when their difference does not wrap. */
  lemma CmpTimeOrders(a: int, b: int)
    requires IsInt64(a) && IsInt64(b)
    ensures IsInt64(a - b) <==> ((CmpTime(a, b) < 0 <==> a < b) && (CmpTime(a, b) > 0 <==> a > b))
  {
    if !IsInt64(a - b) {
      if a < b {
        assert Signed64(a - b) == a - b + 0x1_0000_0000_0000_0000;
      } else {
        assert Signed64(a - b) == a - b - 0x1_0000_0000_0000_0000;
      }
    }
  }

  /** Times from zero on always compare in order. */
  lemma CmpTimeInRange(a: int, b: int)
    requires 0 <= a <= MAX_TIME && 0 <= b <= MAX_TIME
    ensures CmpTime(a, b) < 0 <==> a < b
    ensures CmpTime(a, b) <= 0 <==> a <= b
  {
    CmpTimeOrders(a, b);
  }

  /** A delay is converted to the time it stands for exactly up to 2147483 ms, and in microseconds
      for every value but the smallest. */
  lemma Mac2HostIsExact(mactime: int)
    requires IsInt32(mactime)
    ensures Mac2Host(mactime) == (if mactime > 0 then mactime * 1000 else -mactime)
       <==> -0x8000_0000 < mactime <= 2147483
  {
  }

  /** Converting a host time to a Mac delay and back is off by less than a millisecond exactly
      below 2147484000 microseconds, and then loses nothing up to 2^31 - 1. */
  lemma ConversionRoundTrip(hosttime: int)
    requires 0 <= hosttime <= MAX_TIME
    ensures hosttime <= 0x7fff_ffff ==> Mac2Host(Host2Mac(hosttime)) == hosttime
    ensures 0 <= hosttime - Mac2Host(Host2Mac(hosttime)) < 1000 <==> hosttime < 2147484000
  {
    if hosttime >= 2147484000 {
      assert Mac2Host(Host2Mac(hosttime)) < 0x8000_0000;
    }
  }

  /** The delay PrimeTime(0) takes for "continue": the high half of the 32-bit tmCount that RmvTime
      left, read as an unsigned number. */
  function ResumedDelay(remaining: int): int {
    Mac2Host((Host2Mac(remaining) % 0x1_0000_0000) / 0x1_0000)
  }

  /** Only sixteen bits of the saved time come back: PrimeTime(0) resumes the remaining delay in
      two cases out of all. */
  lemma ResumeIsExact(remaining: int)
    requires 0 <= remaining <= MAX_TIME
    ensures ResumedDelay(remaining) == remaining <==> remaining == 0 || remaining == 64551000
  {
    var count := Host2Mac(remaining) % 0x1_0000_0000;
    var high := count / 0x1_0000;
    if 0 < remaining <= 0x7fff_ffff {
      assert count == 0x1_0000_0000 - remaining;
      assert 0x8000 <= high <= 0xffff;
      assert ResumedDelay(remaining) == 1000 * high;
    } else if remaining > 0x7fff_ffff {
      assert 0 <= high <= 0xffff;
      assert ResumedDelay(remaining) <= 65535000;
    }
  }

  // ---------- the wakeup time of a primed task ----------

  /** The wakeup time PrimeTime computes: relative to the last scheduled time for an extended task
      that was scheduled before, relative to the current time otherwise. */
  function PrimedWakeup(last: int, extended: bool, scheduled: bool, count: int, time: int, now: int): int {
    if extended && scheduled then
      AddTime(last, if time == 0 then Mac2Host(HighHalf(count)) else Mac2Host(time))
    else
      AddTime(now, Mac2Host(time))
  }

  /** The upper sixteen bits of a 32-bit value in memory. */
  function HighHalf(count: int): int {
    count % 0x1_0000_0000 / 0x1_0000
  }

  datatype Reprime = Reprime(time: int, count: int, now: int)

  function WakeupAfter(first: int, reprimes: seq<Reprime>): int
    decreases |reprimes|
  {
    if reprimes == [] then first else
    var n := |reprimes| - 1;
    PrimedWakeup(WakeupAfter(first, reprimes[..n]), true, true, reprimes[n].count, reprimes[n].time, reprimes[n].now)
  }

  function TotalDelay(reprimes: seq<Reprime>): int
    decreases |reprimes|
  {
    if reprimes == [] then 0 else TotalDelay(reprimes[..|reprimes| - 1]) + Mac2Host(reprimes[|reprimes| - 1].time)
  }

  /** Drift-free: re-priming an extended task with non-zero delays moves its wakeup time by exactly
      the sum of the delays, whenever the calls are made and whatever tmCount holds. */
  lemma {:induction false} ReprimingDoesNotDrift(first: int, reprimes: seq<Reprime>)
    requires IsInt64(first) && forall r | r in reprimes :: r.time != 0
    ensures WakeupAfter(first, reprimes) == Signed64(first + TotalDelay(reprimes))
    decreases |reprimes|
  {
    if reprimes != [] {
      var n := |reprimes| - 1;
      ReprimingDoesNotDrift(first, reprimes[..n]);
      SignedSum(first + TotalDelay(reprimes[..n]), Mac2Host(reprimes[n].time));
      assert reprimes[n] in reprimes;
    }
  }

  lemma SignedSum(a: int, b: int)
    ensures Signed64(Signed64(a) + b) == Signed64(a + b)
  {
  }

  /** The time a Mac delay stands for. */
  function RealDelay(time: int): int {
    if time > 0 then time * 1000 else -time
  }

  /** The delay PrimeTime adds, and what it adds it to. */
  function AddedDelay(extended: bool, scheduled: bool, count: int, time: int): (d: int)
    ensures IsInt32(d)
  {
    if extended && scheduled && time == 0 then Mac2Host(HighHalf(count)) else Mac2Host(time)
  }

  function PrimedFrom(last: int, extended: bool, scheduled: bool, now: int): int {
    if extended && scheduled then last else now
  }

  /** Which times PrimeTime computes from which arguments: a wakeup time from -1 on results exactly
      if the sum lies between -1 and the maximum, or is so negative that it wraps around. */
  lemma PrimedWakeupInSpan(last: int, extended: bool, scheduled: bool, count: int, time: int, now: int)
    requires IsInt64(last) && 0 <= now <= MAX_TIME
    ensures var sum := PrimedFrom(last, extended, scheduled, now) + AddedDelay(extended, scheduled, count, time);
            -1 <= PrimedWakeup(last, extended, scheduled, count, time, now)
            <==> -1 <= sum <= MAX_TIME || sum < MIN_TIME
  {
    hide Mac2Host, HighHalf;
    var sum := PrimedFrom(last, extended, scheduled, now) + AddedDelay(extended, scheduled, count, time);
    assert PrimedWakeup(last, extended, scheduled, count, time, now) == Signed64(sum);
    if sum > MAX_TIME {
      assert Signed64(sum) == sum - 0x1_0000_0000_0000_0000;
    } else if sum < MIN_TIME {
      assert Signed64(sum) == sum + 0x1_0000_0000_0000_0000;
    }
  }

  /** Over the range of the host clock, 31 bits short of its end, a delay counted from the current
      time never gives a time below -1 exactly if its 32-bit conversion is at least -1; and it gives
      the time meant exactly up to 2147483 ms and for every microsecond value but the smallest. */
  lemma DelayFromNow(time: int)
    requires IsInt32(time)
    ensures (forall now | 0 <= now <= MAX_TIME - 0x8000_0000 :: -1 <= AddTime(now, Mac2Host(time)))
            <==> -1 <= Mac2Host(time)
    ensures forall now | 0 <= now <= MAX_TIME - 0x8000_0000 ::
              AddTime(now, Mac2Host(time)) == now + RealDelay(time) <==> -0x8000_0000 < time <= 2147483
    ensures -0x8000_0000 < time <= 2147483 ==> 0 <= Mac2Host(time)
  {
    Mac2HostIsExact(time);
    if Mac2Host(time) < -1 {
      assert AddTime(0, Mac2Host(time)) == Mac2Host(time);
    }
  }
}
