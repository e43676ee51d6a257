/** The sender's burst throttle and the rate it enforces. */
module Throttle {
  import opened Wrappers
  import opened TimeUtil

  const BURST := 32768

  /** The bytes sent in the current burst, and when it started if there are any. */
  datatype Burst = Burst(nbytes: nat, start: Timespec)

  /** The seconds that nbytes take at speed Mbit/s. */
  function TimeNeeded(nbytes: nat, speed: real): real
    requires speed > 0.0
  {
    nbytes as real * 8.0 / 1000000.0 / speed
  }

  /** A message of msgSize bytes: t0 is the clock if it opens a burst, t1 the clock if it
      completes one; the second result is the sleep requested. */
  function Account(b: Burst, speed: real, msgSize: nat, t0: Timespec, t1: Timespec): (Burst, Option<Timespec>) {
    if speed <= 0.0 then (b, None)
    else
      var b' := Burst(b.nbytes + msgSize, if b.nbytes == 0 then t0 else b.start);
      if b'.nbytes < BURST then (b', None)
      else
        var delta := GetDeltaSeconds(t1, b'.start);
        var needed := TimeNeeded(b'.nbytes, speed);
        (b'.(nbytes := 0), if needed > delta then Some(GetTimespecFromSeconds(needed - delta)) else None)
  }

  /** When the current burst started, counting a message at t0. */
  function StartOf(b: Burst, t0: Timespec): Timespec {
    if b.nbytes == 0 then t0 else b.start
  }

  /** The sleep after a completed burst ends when the bits of the burst have had the time
      they need at the set speed, early by less than a nanosecond and never late; there is
      none if that time has passed already, or within a burst, or without a speed. */
  lemma SleepIsExact(b: Burst, speed: real, msgSize: nat, t0: Timespec, t1: Timespec)
    ensures var (b', sleep) := Account(b, speed, msgSize, t0, t1);
            && (speed <= 0.0 ==> b' == b && sleep == None)
            && (speed > 0.0 && b.nbytes + msgSize < 32768 ==>
                  sleep == None && b'.nbytes == b.nbytes + msgSize && b'.start == StartOf(b, t0))
            && (speed > 0.0 && b.nbytes + msgSize >= 32768 ==>
                  var due := Seconds(StartOf(b, t0)) + TimeNeeded(b.nbytes + msgSize, speed);
                  && b'.nbytes == 0
                  && (sleep.Some? <==> Seconds(t1) < due)
                  && (sleep.Some? ==> due - NANO < Seconds(t1) + Seconds(sleep.value) <= due))
  {
  }

  class Udp {
    var dropProb: real
    var throttleSpeed: real
    var throttleNbytes: nat
    var throttleStart: Timespec

    function Abs(): Burst
      reads this
    {
      Burst(throttleNbytes, throttleStart)
    }

    constructor (speed: real, dropProb: real)
      ensures throttleSpeed == speed && this.dropProb == dropProb && throttleNbytes == 0
    {
      this.dropProb := dropProb;
      throttleSpeed := speed;
      throttleNbytes := 0;
      throttleStart := Timespec(0, 0);
    }

    /** Send a message unless the random draw drops it, account for it in either case, and
        sleep if it completes a burst too soon. */
    method SendMsg(msgSize: nat, draw: real, t0: Timespec, t1: Timespec) returns (sent: bool, sleep: Option<Timespec>)
      modifies `throttleNbytes, `throttleStart
      ensures (Abs(), sleep) == Account(old(Abs()), throttleSpeed, msgSize, t0, t1)
      ensures sent <==> dropProb == 0.0 || dropProb <= draw
      ensures throttleSpeed <= 0.0 ==> sleep == None && Abs() == old(Abs())
      ensures sleep.Some? ==>
                && old(throttleNbytes) + msgSize >= 32768
                && Seconds(t1) + Seconds(sleep.value)
                     <= Seconds(StartOf(old(Abs()), t0)) + TimeNeeded(old(throttleNbytes) + msgSize, throttleSpeed)
    {
      SleepIsExact(Abs(), throttleSpeed, msgSize, t0, t1);
      sent := dropProb == 0.0 || draw >= dropProb;
      sleep := None;
      if throttleSpeed > 0.0 {
        if throttleNbytes == 0 {
          throttleStart := t0;
        }
        throttleNbytes := throttleNbytes + msgSize;
        if throttleNbytes >= BURST {
          var delta := GetDeltaSeconds(t1, throttleStart);
          var mbitsSent := throttleNbytes as real * 8.0 / 1000000.0;
          var timeNeeded := mbitsSent / throttleSpeed;
          if timeNeeded > delta {
            sleep := Some(GetTimespecFromSeconds(timeNeeded - delta));
          }
          throttleNbytes := 0;
        }
      }
    }
  }

  // ----- whole runs at one speed

  /** One message: its size, the clock readings and the time at which the call is over. */
  datatype Send = Send(size: nat, t0: Timespec, t1: Timespec, over: real)

  /** A run: the current burst, the sizes of the completed bursts, the time of the first
      message and the time at which the last completed burst was over. */
  datatype Run = Run(burst: Burst, bursts: seq<nat>, begin: real, end: real, over: real)

  function Extend(r: Run, speed: real, x: Send): Run
    requires speed > 0.0
  {
    var (b, _) := Account(r.burst, speed, x.size, x.t0, x.t1);
    var total := r.burst.nbytes + x.size;
    if total < BURST then r.(burst := b, over := x.over)
    else r.(burst := b, bursts := r.bursts + [total], end := x.over, over := x.over)
  }

  function StartAt(t: real): Run {
    Run(Burst(0, Timespec(0, 0)), [], t, t, t)
  }

  /** The run of the messages from time t on. */
  function RunOf(speed: real, t: real, sends: seq<Send>): (r: Run)
    requires speed > 0.0
    ensures r.begin == t
  {
    if |sends| == 0 then StartAt(t)
    else Extend(RunOf(speed, t, sends[..|sends| - 1]), speed, sends[|sends| - 1])
  }

  /** Time does not go back, and sleeps last at least as long as requested. */
  ghost predicate Timely(r: Run, speed: real, x: Send)
    requires speed > 0.0
  {
    var sleep := Account(r.burst, speed, x.size, x.t0, x.t1).1;
    && Seconds(x.t0) >= r.over
    && Seconds(x.t1) >= Seconds(x.t0)
    && x.over >= Seconds(x.t1) + (if sleep.Some? then Seconds(sleep.value) else 0.0)
  }

  ghost predicate AllTimely(speed: real, t: real, sends: seq<Send>)
    requires speed > 0.0
  {
    |sends| > 0 ==>
      && AllTimely(speed, t, sends[..|sends| - 1])
      && Timely(RunOf(speed, t, sends[..|sends| - 1]), speed, sends[|sends| - 1])
  }

  function Total(bursts: seq<nat>): nat {
    if |bursts| == 0 then 0 else Total(bursts[..|bursts| - 1]) + bursts[|bursts| - 1]
  }

  /** The rate bound and what carries it from burst to burst. */
  ghost predicate Paced(r: Run, speed: real)
    requires speed > 0.0
  {
    && r.end >= r.begin + TimeNeeded(Total(r.bursts), speed) - |r.bursts| as real * NANO
    && r.over >= r.end
    && r.burst.nbytes < BURST
    && (r.burst.nbytes > 0 ==> Seconds(r.burst.start) >= r.end)
  }

  lemma TimeNeededAdds(a: nat, b: nat, speed: real)
    requires speed > 0.0
    ensures TimeNeeded(a + b, speed) == TimeNeeded(a, speed) + TimeNeeded(b, speed)
  {
    var x, y := a as real * 8.0 / 1000000.0, b as real * 8.0 / 1000000.0;
    assert (a + b) as real * 8.0 / 1000000.0 == x + y;
  }

  lemma OneMoreNano(n: nat)
    ensures (n + 1) as real * NANO == n as real * NANO + NANO
  {
  }

  /** A burst takes at least the time its bytes need, less the truncated nanosecond. */
  lemma BurstTakesItsTime(r: Run, speed: real, x: Send)
    requires speed > 0.0 && Timely(r, speed, x) && r.burst.nbytes + x.size >= BURST
    ensures var start := if r.burst.nbytes == 0 then x.t0 else r.burst.start;
            x.over >= Seconds(start) + TimeNeeded(r.burst.nbytes + x.size, speed) - NANO
  {
  }

  lemma ExtendPaced(r: Run, speed: real, x: Send)
    requires speed > 0.0 && Paced(r, speed) && Timely(r, speed, x)
    ensures Paced(Extend(r, speed, x), speed)
  {
    hide TimeNeeded, Account;
    var total := r.burst.nbytes + x.size;
    SleepIsExact(r.burst, speed, x.size, x.t0, x.t1);
    if total >= BURST {
      BurstTakesItsTime(r, speed, x);
      TimeNeededAdds(Total(r.bursts), total, speed);
      OneMoreNano(|r.bursts|);
      assert (r.bursts + [total])[..|r.bursts|] == r.bursts;
    }
  }

  lemma {:induction false} RunPaced(speed: real, t: real, sends: seq<Send>)
    requires speed > 0.0 && AllTimely(speed, t, sends)
    ensures Paced(RunOf(speed, t, sends), speed)
  {
    if |sends| == 0 {
      assert Total([]) == 0;
    } else {
      RunPaced(speed, t, sends[..|sends| - 1]);
      ExtendPaced(RunOf(speed, t, sends[..|sends| - 1]), speed, sends[|sends| - 1]);
    }
  }

  /** Rate bound: from the first message to the end of the n-th burst at least the time that
      all the bits of the bursts need at the set speed passes, less n nanoseconds. */
  lemma {:induction false} RateBound(speed: real, sends: seq<Send>)
    requires speed > 0.0 && |sends| > 0 && AllTimely(speed, Seconds(sends[0].t0), sends)
    ensures var r := RunOf(speed, Seconds(sends[0].t0), sends);
            r.end - Seconds(sends[0].t0)
              >= Total(r.bursts) as real * 8.0 / (speed * 1000000.0) - |r.bursts| as real * NANO
  {
    hide AllTimely, RunOf;
    var r := RunOf(speed, Seconds(sends[0].t0), sends);
    RunPaced(speed, Seconds(sends[0].t0), sends);
    DivideTwice(Total(r.bursts) as real * 8.0, speed);
  }

  lemma DivideTwice(bits: real, speed: real)
    requires speed > 0.0
    ensures bits / 1000000.0 / speed == bits / (speed * 1000000.0)
  {
    var q := bits / 1000000.0 / speed;
    assert q * speed == bits / 1000000.0;
    assert q * (speed * 1000000.0) == q * speed * 1000000.0 == bits;
  }

  /** A burst opens as soon as the previous one is over, the bytes of a completed one went out
      within the time they need, and the sleep lasts exactly as requested. */
  ghost predicate Prompt(r: Run, speed: real, x: Send)
    requires speed > 0.0
  {
    var sleep := Account(r.burst, speed, x.size, x.t0, x.t1).1;
    && x.size > 0
    && (r.burst.nbytes == 0 ==> Seconds(x.t0) == r.over)
    && (r.burst.nbytes + x.size >= 32768 ==>
          && Seconds(x.t1) <= Seconds(StartOf(r.burst, x.t0)) + TimeNeeded(r.burst.nbytes + x.size, speed)
          && x.over == Seconds(x.t1) + (if sleep.Some? then Seconds(sleep.value) else 0.0))
  }

  ghost predicate AllPrompt(speed: real, t: real, sends: seq<Send>)
    requires speed > 0.0
  {
    |sends| > 0 ==>
      && AllPrompt(speed, t, sends[..|sends| - 1])
      && Prompt(RunOf(speed, t, sends[..|sends| - 1]), speed, sends[|sends| - 1])
  }

  ghost predicate KeptPace(r: Run, speed: real)
    requires speed > 0.0
  {
    && r.end <= r.begin + TimeNeeded(Total(r.bursts), speed)
    && (if r.burst.nbytes == 0 then r.over == r.end else Seconds(r.burst.start) == r.end)
  }

  lemma ExtendKeepsPace(r: Run, speed: real, x: Send)
    requires speed > 0.0 && KeptPace(r, speed) && Prompt(r, speed, x)
    ensures KeptPace(Extend(r, speed, x), speed)
  {
    hide TimeNeeded, Account;
    var total := r.burst.nbytes + x.size;
    SleepIsExact(r.burst, speed, x.size, x.t0, x.t1);
    if total >= 32768 {
      TimeNeededAdds(Total(r.bursts), total, speed);
      assert (r.bursts + [total])[..|r.bursts|] == r.bursts;
    }
  }

  /** The rate is reached: a prompt sender is through with its bursts no later than the bits
      of all of them need at the set speed. */
  lemma {:induction false} RateReached(speed: real, t: real, sends: seq<Send>)
    requires speed > 0.0 && AllPrompt(speed, t, sends)
    ensures var r := RunOf(speed, t, sends);
            KeptPace(r, speed) && r.end - t <= TimeNeeded(Total(r.bursts), speed)
  {
    if |sends| == 0 {
      assert Total([]) == 0;
    } else {
      RateReached(speed, t, sends[..|sends| - 1]);
      ExtendKeepsPace(RunOf(speed, t, sends[..|sends| - 1]), speed, sends[|sends| - 1]);
    }
  }

  /** Every completed burst has at least 32768 bytes, and less than the largest message
      more; no byte goes uncounted. */
  lemma {:induction false} BurstSizes(speed: real, t: real, sends: seq<Send>, maxSize: nat)
    requires speed > 0.0
    requires forall i :: 0 <= i < |sends| ==> sends[i].size <= maxSize
    ensures var r := RunOf(speed, t, sends);
            && r.burst.nbytes < 32768
            && (forall i :: 0 <= i < |r.bursts| ==> 32768 <= r.bursts[i] < 32768 + maxSize)
            && Total(r.bursts) + r.burst.nbytes == TotalSize(sends)
  {
    if |sends| > 0 {
      var r := RunOf(speed, t, sends[..|sends| - 1]);
      BurstSizes(speed, t, sends[..|sends| - 1], maxSize);
      var total := r.burst.nbytes + sends[|sends| - 1].size;
      assert (r.bursts + [total])[..|r.bursts|] == r.bursts;
    }
  }

  function TotalSize(sends: seq<Send>): nat {
    if |sends| == 0 then 0 else TotalSize(sends[..|sends| - 1]) + sends[|sends| - 1].size
  }
}
