/** Points in time as seconds and nanoseconds, over exact reals. */
module TimeUtil {

  datatype Timespec = Timespec(sec: int, nsec: int)

  const NANOS := 1000000000
  const NANO := 1.0 / 1000000000.0

  ghost predicate Normal(ts: Timespec) {
    0 <= ts.nsec < NANOS
  }

  function Seconds(ts: Timespec): real {
    ts.sec as real + ts.nsec as real * NANO
  }

  /** Conversion of a real to an integer, which in C truncates toward zero. */
  function Trunc(x: real): int {
    if x >= 0.0 then x.Floor else -((-x).Floor)
  }

  function GetDeltaSeconds(a: Timespec, b: Timespec): (d: real)
    ensures d == Seconds(a) - Seconds(b)
  {
    (a.sec - b.sec) as real + (a.nsec - b.nsec) as real / 1000000000.0
  }

  /** ts moved by delta seconds: normal again, and early by less than a nanosecond. */
  function AddDeltaTo(ts: Timespec, delta: real): (r: Timespec)
    requires Normal(ts)
    ensures Normal(r)
    ensures Seconds(ts) + delta - NANO < Seconds(r) <= Seconds(ts) + delta
  {
    var whole := delta.Floor;
    var frac := delta - whole as real;
    var nsec := Trunc(ts.nsec as real + frac * 1000000000.0);
    if nsec >= NANOS then Timespec(ts.sec + whole + 1, nsec - NANOS) else Timespec(ts.sec + whole, nsec)
  }

  /** A duration as a timespec, cut toward zero by less than a nanosecond. */
  function GetTimespecFromSeconds(secs: real): (r: Timespec)
    ensures secs >= 0.0 ==> Normal(r) && Seconds(r) <= secs < Seconds(r) + NANO
    ensures secs < 0.0 ==> -NANOS < r.nsec <= 0 && Seconds(r) - NANO < secs <= Seconds(r)
  {
    var sec := Trunc(secs);
    Timespec(sec, Trunc((secs - sec as real) * 1000000000.0))
  }

  /** A struct timespec that is passed by reference. */
  class TimeVar {
    var tvSec: int
    var tvNsec: int

    function Abs(): Timespec
      reads this
    {
      Timespec(tvSec, tvNsec)
    }

    constructor (ts: Timespec)
      ensures Abs() == ts
    {
      tvSec, tvNsec := ts.sec, ts.nsec;
    }

    method AddDelta(delta: real)
      requires Normal(Abs())
      modifies this
      ensures Abs() == AddDeltaTo(old(Abs()), delta)
    {
      var deltaInt := delta.Floor;
      tvSec := tvSec + deltaInt;
      var deltaFrac := delta - deltaInt as real;
      tvNsec := Trunc(tvNsec as real + deltaFrac * 1000000000.0);
      if tvNsec >= 1000000000 {
        tvNsec := tvNsec - 1000000000;
        tvSec := tvSec + 1;
        FractionFits(old(tvNsec), deltaFrac);
        assert tvNsec < 1000000000;
      }
    }

    method SetFromSeconds(secs: real)
      modifies this
      ensures Abs() == GetTimespecFromSeconds(secs)
    {
      tvSec := Trunc(secs);
      tvNsec := Trunc((secs - tvSec as real) * 1000000000.0);
    }
  }

  /** Less than a second more carries at most once. */
  lemma FractionFits(nsec: int, frac: real)
    requires 0 <= nsec < NANOS && 0.0 <= frac < 1.0
    ensures Trunc(nsec as real + frac * 1000000000.0) < 2 * NANOS
  {
  }

  // ----- the deadline of the first write

  /** How long select() may wait, seen at time now, for a transmission started at start. */
  function WriteTimeout(start: Timespec, now: Timespec, deadlineDelay: real, extraDelay: real, segNbr: int): (r: Timespec)
    requires Normal(start)
  {
    var d1 := AddDeltaTo(start, deadlineDelay);
    var dline := if segNbr == 0 then AddDeltaTo(d1, extraDelay) else d1;
    var delta := GetDeltaSeconds(dline, now);
    if delta > 0.0 then GetTimespecFromSeconds(delta) else Timespec(0, 0)
  }

  /** The receiver's computation of that timeout. */
  method ComputeTimeout(start: Timespec, now: Timespec, deadlineDelay: real, extraDelay: real, segNbr: int)
    returns (timeout: Timespec)
    requires Normal(start)
    ensures timeout == WriteTimeout(start, now, deadlineDelay, extraDelay, segNbr)
  {
    var dline := new TimeVar(start);
    dline.AddDelta(deadlineDelay);
    if segNbr == 0 {
      dline.AddDelta(extraDelay);
    }
    var delta := GetDeltaSeconds(dline.Abs(), now);
    var t := new TimeVar(Timespec(0, 0));
    if delta > 0.0 {
      t.SetFromSeconds(delta);
    }
    timeout := t.Abs();
  }

  /** Waiting that long from now ends at the start time plus the delay, and the extra delay
      for the first segment, early by less than three nanoseconds, or at once if that is
      past. */
  lemma DeadlineIsStartPlusDelays(start: Timespec, now: Timespec, deadlineDelay: real, extraDelay: real, segNbr: int)
    requires Normal(start) && Normal(now)
    ensures var timeout := WriteTimeout(start, now, deadlineDelay, extraDelay, segNbr);
            var due := Seconds(start) + deadlineDelay + (if segNbr == 0 then extraDelay else 0.0);
            && Normal(timeout) && Seconds(timeout) >= 0.0
            && Seconds(now) + Seconds(timeout) > due - 3.0 * NANO
            && (Seconds(timeout) > 0.0 ==> Seconds(now) + Seconds(timeout) <= due)
  {
    var d1 := AddDeltaTo(start, deadlineDelay);
    var dline := if segNbr == 0 then AddDeltaTo(d1, extraDelay) else d1;
    var delta := GetDeltaSeconds(dline, now);
    if delta > 0.0 {
      var r := GetTimespecFromSeconds(delta);
      assert Seconds(now) + Seconds(r) > Seconds(dline) - NANO;
    }
  }
}
