/** The two timer rules of FireApplication::Update. Both use the same test: a timer
    fires when at least `interval` seconds have passed since its last mark, and then its
    mark moves to the current time. The spark timer uses this to emit one spark; the FPS
    counter uses it (with a one-second interval) to restart its frame count. */
module Timers {

  /** The interval test `now - last >= interval`; with a non-negative interval it never
      passes for a time before the mark. */
  predicate Elapsed(now: real, last: real, interval: real)
    ensures Elapsed(now, last, interval) && interval >= 0.0 ==> last <= now
  {
    now - last >= interval
  }

  /** The mark after one tick: `now` when the timer fires, otherwise unchanged. */
  function NextMark(now: real, last: real, interval: real): (m: real)
    ensures m == now || m == last
    ensures interval >= 0.0 ==> m >= last
  {
    if Elapsed(now, last, interval) then now else last
  }

  /** For a run of ticks at `times`, whether each tick fires. */
  function Firings(last: real, interval: real, times: seq<real>): (fired: seq<bool>)
    ensures |fired| == |times|
    decreases |times|
  {
    if times == [] then []
    else
      [Elapsed(times[0], last, interval)]
        + Firings(NextMark(times[0], last, interval), interval, times[1..])
  }

  /** The mark after a run of ticks at `times`. */
  function FinalMark(last: real, interval: real, times: seq<real>): (m: real)
    ensures m == last || m in times
    ensures interval >= 0.0 ==> m >= last
    decreases |times|
  {
    if times == [] then last
    else
      var m := FinalMark(NextMark(times[0], last, interval), interval, times[1..]);
      assert m in times[1..] ==> m in times;
      m
  }

  /** The number of ticks that fired. */
  function CountFired(fired: seq<bool>): (n: nat)
    ensures n <= |fired|
    ensures n == 0 <==> true !in fired
  {
    if fired == [] then 0
    else (if fired[0] then 1 else 0) + CountFired(fired[1..])
  }

  /** No catch-up: every firing moves the mark forward by at least one interval, so
      the number of firings times the interval never exceeds the distance the mark
      moved, however long a tick was delayed. */
  lemma {:induction false} NoCatchUp(last: real, interval: real, times: seq<real>)
    ensures Repeat(CountFired(Firings(last, interval, times)), interval)
      <= FinalMark(last, interval, times) - last
    decreases |times|
  {
    if times != [] {
      var now := times[0];
      var next := NextMark(now, last, interval);
      var rest := Firings(next, interval, times[1..]);
      Unfold(last, interval, times);
      CountCons(Elapsed(now, last, interval), rest);
      NoCatchUp(next, interval, times[1..]);
      StepBound(CountFired(rest), interval, last, next, FinalMark(next, interval, times[1..]),
                Elapsed(now, last, interval));
    }
  }

  /** One tick of a run, unfolded. */
  lemma Unfold(last: real, interval: real, times: seq<real>)
    requires times != []
    ensures Firings(last, interval, times)
      == [Elapsed(times[0], last, interval)] + Firings(NextMark(times[0], last, interval), interval, times[1..])
    ensures FinalMark(last, interval, times)
      == FinalMark(NextMark(times[0], last, interval), interval, times[1..])
  {}

  lemma CountCons(b: bool, rest: seq<bool>)
    ensures CountFired([b] + rest) == (if b then 1 else 0) + CountFired(rest)
  {
    assert ([b] + rest)[1..] == rest;
  }

  lemma TicksCons(b: bool, rest: seq<bool>)
    ensures TicksAfterLastFiring([b] + rest)
      == if true in rest then TicksAfterLastFiring(rest) else if b then |rest| else |rest| + 1
  {
    assert ([b] + rest)[1..] == rest;
  }

  /** `interval` added up `n` times, that is n * interval. */
  function Repeat(n: nat, interval: real): real
  {
    if n == 0 then 0.0 else Repeat(n - 1, interval) + interval
  }

  /** One tick of NoCatchUp's induction: a firing adds one interval to both sides. */
  lemma StepBound(c: nat, interval: real, last: real, next: real, final: real, fired: bool)
    requires Repeat(c, interval) <= final - next
    requires fired ==> next - last >= interval
    requires !fired ==> next == last
    ensures Repeat((if fired then 1 else 0) + c, interval) <= final - last
  {
    if fired {
      assert Repeat(1 + c, interval) == Repeat(c, interval) + interval;
    }
  }

  /** With a non-negative interval a timer whose mark starts at `last` never fires
      before `last + interval`. */
  lemma {:induction false} NoFiringBeforeInterval(last: real, interval: real, times: seq<real>, k: nat)
    requires interval >= 0.0 && k < |times|
    requires Firings(last, interval, times)[k]
    ensures times[k] >= last + interval
    decreases k
  {
    if k > 0 {
      var next := NextMark(times[0], last, interval);
      assert Firings(last, interval, times)[k] == Firings(next, interval, times[1..])[k - 1];
      NoFiringBeforeInterval(next, interval, times[1..], k - 1);
    }
  }

  /** Missed intervals are dropped, not owed: any two frames that both fire are at least
      one interval apart, however late the first of them came. */
  lemma {:induction false} FiringsSpaced(last: real, interval: real, times: seq<real>, j: nat, k: nat)
    requires interval >= 0.0 && j < k < |times|
    requires Firings(last, interval, times)[j] && Firings(last, interval, times)[k]
    ensures times[k] - times[j] >= interval
    decreases j
  {
    var next := NextMark(times[0], last, interval);
    assert Firings(last, interval, times)[k] == Firings(next, interval, times[1..])[k - 1];
    if j == 0 {
      NoFiringBeforeInterval(next, interval, times[1..], k - 1);
    } else {
      assert Firings(last, interval, times)[j] == Firings(next, interval, times[1..])[j - 1];
      FiringsSpaced(next, interval, times[1..], j - 1, k - 1);
    }
  }

  /** The final mark is the time of the last tick that fired, or the initial mark when
      none fired. */
  lemma {:induction false} FinalMarkIsLastFiring(last: real, interval: real, times: seq<real>)
    ensures var fired := Firings(last, interval, times);
      (true !in fired ==> FinalMark(last, interval, times) == last) &&
      (true in fired ==> FinalMark(last, interval, times) == times[|times| - 1 - TicksAfterLastFiring(fired)])
    decreases |times|
  {
    if times != [] {
      var b := Elapsed(times[0], last, interval);
      var next := NextMark(times[0], last, interval);
      var rest := Firings(next, interval, times[1..]);
      Unfold(last, interval, times);
      TicksCons(b, rest);
      FinalMarkIsLastFiring(next, interval, times[1..]);
      if true in rest {
        assert true in [b] + rest;
        var t := TicksAfterLastFiring(rest);
        assert times[1..][|times| - 2 - t] == times[|times| - 1 - t];
      } else if b {
        assert true in [b] + rest;
      } else {
        assert [b] + rest == [false] + rest;
      }
    }
  }

  /** The number of ticks after the last one that fired (all of them when none fired). */
  function TicksAfterLastFiring(fired: seq<bool>): (n: nat)
    ensures n <= |fired|
    ensures true !in fired ==> n == |fired|
    ensures true in fired ==> n < |fired| && fired[|fired| - 1 - n]
    ensures forall k :: |fired| - n <= k < |fired| ==> !fired[k]
  {
    if fired == [] then 0
    else if true in fired[1..] then TicksAfterLastFiring(fired[1..])
    else if fired[0] then |fired| - 1
    else |fired|
  }

  /** The FPS counter: frames since the last report and the time of that report. */
  datatype FpsCounter = FpsCounter(frames: nat, lastTime: real)

  /** The counter restarts once a second. */
  const FpsInterval: real := 1.0

  /** One frame: count it, then restart the count (after reporting it) when a second
      has passed since the last restart. */
  function FpsTick(c: FpsCounter, now: real): (r: FpsCounter)
    ensures r.lastTime == NextMark(now, c.lastTime, FpsInterval)
    ensures r.frames == 0 <==> Elapsed(now, c.lastTime, FpsInterval)
    ensures !Elapsed(now, c.lastTime, FpsInterval) ==> r.frames == c.frames + 1
  {
    var counted := c.frames + 1;
    if Elapsed(now, c.lastTime, FpsInterval) then FpsCounter(0, now)
    else FpsCounter(counted, c.lastTime)
  }

  /** The counter after frames at `times`. */
  function FpsRun(c: FpsCounter, times: seq<real>): (r: FpsCounter)
    ensures r.lastTime == FinalMark(c.lastTime, FpsInterval, times)
    ensures r.frames <= c.frames + |times|
    decreases |times|
  {
    if times == [] then c else FpsRun(FpsTick(c, times[0]), times[1..])
  }

  /** After any run of frames the counter holds the number of frames since the last
      restart, and its time is that restart's, as the one-second timer decides. */
  lemma {:induction false} FpsCountsFramesSinceRestart(c: FpsCounter, times: seq<real>)
    ensures var fired := Firings(c.lastTime, FpsInterval, times);
      FpsRun(c, times).lastTime == FinalMark(c.lastTime, FpsInterval, times) &&
      FpsRun(c, times).frames ==
        (if true in fired then TicksAfterLastFiring(fired) else c.frames + |times|)
    decreases |times|
  {
    if times != [] {
      var c' := FpsTick(c, times[0]);
      var fired := Firings(c.lastTime, FpsInterval, times);
      assert fired[1..] == Firings(c'.lastTime, FpsInterval, times[1..]);
      FpsCountsFramesSinceRestart(c', times[1..]);
    }
  }

  /** The spark cadence at the start of a run: with the mark at 0 and a 0.2 s interval,
      frames at 0.0, 0.05, 0.21, 0.25 and 0.42 emit at 0.21 and 0.42 only. */
  lemma SparkCadenceExample()
    ensures Firings(0.0, 0.2, [0.0, 0.05, 0.21, 0.25, 0.42]) == [false, false, true, false, true]
    ensures FinalMark(0.0, 0.2, [0.0, 0.05, 0.21, 0.25, 0.42]) == 0.42
  {
    var times := [0.0, 0.05, 0.21, 0.25, 0.42];
    assert times[1..] == [0.05, 0.21, 0.25, 0.42];
    assert times[2..] == [0.21, 0.25, 0.42];
    assert times[3..] == [0.25, 0.42];
    assert times[4..] == [0.42];
    assert Firings(0.21, 0.2, [0.42]) == [true];
    assert Firings(0.21, 0.2, [0.25, 0.42]) == [false, true];
    assert Firings(0.0, 0.2, [0.21, 0.25, 0.42]) == [true, false, true];
    assert Firings(0.0, 0.2, [0.05, 0.21, 0.25, 0.42]) == [false, true, false, true];
  }
}
