/** FireApplication's spark system: a vertex buffer of `sparkCapacity` particle records
    used as a ring, the count of records ever emitted, and the spark and FPS timers that
    Update advances once per frame. The buffer is modelled as the array of records it
    holds; the clock is the parameter `now`. */
module FireApp {
  import opened Particle
  import Layout
  import Ring
  import Timers
  import Emission

  /** Initial value of the spark timer's interval, in seconds. */
  const SparkInterval: real := 0.2

  /** Starting from a fresh object (spark timer at 0, interval 0.2 s), no frame before
      time 0.2 emits a spark, whatever the frame times are. */
  lemma FirstSparkAfterInterval(times: seq<real>, k: nat)
    requires k < |times| && Timers.Firings(0.0, SparkInterval, times)[k]
    ensures times[k] >= 0.2
  {
    Timers.NoFiringBeforeInterval(0.0, SparkInterval, times, k);
  }

  /** A fresh object draws nothing; after frames at times 0.0 and 0.25 it has emitted one
      smoke puff, then a spark and a second puff, and draws those three points. */
  method FirstFrames(sparkRolls: Emission.SparkRolls, smokeRolls: Emission.SmokeRolls)
    returns (before: nat, after: nat)
    requires Emission.ValidSparkRolls(sparkRolls) && Emission.ValidSmokeRolls(smokeRolls)
    ensures before == 0 && after == 3
  {
    var app := new FireApplication();
    before := app.Render();
    app.Update(0.0, sparkRolls, smokeRolls);
    app.Update(0.25, sparkRolls, smokeRolls);
    after := app.Render();
  }

  /** The contents of the freshly allocated buffer. */
  ghost function Blanks(capacity: nat): (s: seq<SparkParticle>)
    ensures |s| == capacity
  {
    seq(capacity, _ => Blank)
  }

  class FireApplication {
    /** The spark vertex buffer, one record per slot. */
    var buffer: array<SparkParticle>
    /** Records emitted so far; the next one goes to slot sparkCount mod sparkCapacity. */
    var sparkCount: nat
    /** Number of slots; set once, never reassigned. */
    const sparkCapacity: nat := 1024
    /** Time of the last spark emission. */
    var lastSparkTime: real
    /** Seconds between sparks. */
    const sparkInterval: real := SparkInterval
    /** Time the frame count was last restarted. */
    var lastFpsTime: real
    /** Frames since that restart. */
    var frameCount: nat
    /** The attribute bindings of the spark vertex array. */
    var attributes: seq<Layout.Binding>

    /** Every record emitted so far, in emission order. */
    ghost var emitted: seq<SparkParticle>

    /** The buffer holds exactly what writing `emitted` in order into a fresh buffer leaves. */
    ghost predicate Valid()
      reads this, buffer
    {
      && buffer.Length == sparkCapacity
      && sparkCount == |emitted|
      && buffer[..] == Ring.Stream(Blanks(sparkCapacity), emitted)
    }

    /** The object's initial state, followed by InitializeParticleSystem's allocation of
        the buffer and its attribute loop. */
    constructor ()
      ensures Valid() && fresh(buffer)
      ensures sparkCount == 0 && emitted == []
      ensures lastSparkTime == 0.0 && lastFpsTime == 0.0 && frameCount == 0
      ensures |attributes| == |Layout.SparkAttributes|
      ensures forall k :: 0 <= k < |attributes| ==>
        attributes[k] == Layout.Binding(k, Layout.SparkAttributes[k],
          Layout.OffsetOf(Layout.SparkAttributes, k), ByteSize)
    {
      var bindings := Layout.BindAttributes(Layout.SparkAttributes, ByteSize);
      buffer := new SparkParticle[1024](_ => Blank);
      sparkCount := 0;
      lastSparkTime := 0.0;
      lastFpsTime := 0.0;
      frameCount := 0;
      attributes := bindings;
      emitted := [];
      new;
      assert buffer[..] == Blanks(sparkCapacity);
    }

    /** Writes one record, stamped with `now`, into slot sparkCount mod sparkCapacity and
        counts it. `offset` is the byte offset of the one-record upload. */
    method EmitParticle(position: Vec2, size: real, duration: real, color: Color, velocity: Vec2,
                        now: real) returns (offset: nat)
      requires Valid()
      modifies this`sparkCount, this`emitted, buffer
      ensures Valid()
      ensures offset == Ring.Slot(old(sparkCount), sparkCapacity) * ByteSize
      ensures offset + ByteSize <= sparkCapacity * ByteSize
      ensures buffer[..] == Ring.Put(old(buffer[..]), old(sparkCount),
        SparkParticle(position, size, now, duration, color, velocity))
      ensures emitted == old(emitted) + [SparkParticle(position, size, now, duration, color, velocity)]
      ensures sparkCount == old(sparkCount) + 1
    {
      var p := SparkParticle(position, size, now, duration, color, velocity);
      var slot := sparkCount % sparkCapacity;
      offset := slot * ByteSize;
      Ring.SlotIsMod(sparkCount, sparkCapacity);
      Ring.UploadInBounds(sparkCount, sparkCapacity, ByteSize);
      buffer[slot] := p;
      emitted := emitted + [p];
      sparkCount := sparkCount + 1;
      assert emitted[..|emitted| - 1] == old(emitted);
    }

    /** One frame: count it for the FPS report, emit a spark if the spark interval has
        elapsed, then emit a smoke puff. */
    method Update(now: real, sparkRolls: Emission.SparkRolls, smokeRolls: Emission.SmokeRolls)
      requires Valid()
      requires Emission.ValidSparkRolls(sparkRolls) && Emission.ValidSmokeRolls(smokeRolls)
      modifies this`frameCount, this`lastFpsTime, this`lastSparkTime, this`sparkCount, this`emitted, buffer
      ensures Valid()
      ensures Timers.FpsCounter(frameCount, lastFpsTime)
        == Timers.FpsTick(Timers.FpsCounter(old(frameCount), old(lastFpsTime)), now)
      ensures lastSparkTime == Timers.NextMark(now, old(lastSparkTime), sparkInterval)
      ensures Timers.Elapsed(now, old(lastSparkTime), sparkInterval) ==>
        emitted == old(emitted) + [Emission.Record(Emission.Spark(sparkRolls), now),
                                   Emission.Record(Emission.Smoke(smokeRolls), now)]
        && sparkCount == old(sparkCount) + 2
      ensures !Timers.Elapsed(now, old(lastSparkTime), sparkInterval) ==>
        emitted == old(emitted) + [Emission.Record(Emission.Smoke(smokeRolls), now)]
        && sparkCount == old(sparkCount) + 1
    {
      frameCount := frameCount + 1;
      if now - lastFpsTime >= 1.0 {
        frameCount := 0;
        lastFpsTime := now;
      }

      if now - lastSparkTime >= sparkInterval {
        var spark := Emission.Spark(sparkRolls);
        var sparkOffset := EmitParticle(spark.position, spark.size, spark.duration, spark.color,
                                        spark.velocity, now);
        lastSparkTime := now;
      }

      var smoke := Emission.Smoke(smokeRolls);
      var smokeOffset := EmitParticle(smoke.position, smoke.size, smoke.duration, smoke.color,
                                      smoke.velocity, now);
    }

    /** The draw: min(sparkCount, sparkCapacity) points from slot 0; each drawn slot holds
        the latest record emitted into it. */
    method Render() returns (points: nat)
      requires Valid()
      ensures points == Ring.DrawCount(sparkCount, sparkCapacity)
      ensures forall i :: 0 <= i < points ==>
        buffer[i] == emitted[Ring.LatestWriter(sparkCount, sparkCapacity, i)]
    {
      points := if sparkCount < sparkCapacity then sparkCount else sparkCapacity;
      forall i | 0 <= i < points
        ensures buffer[i] == emitted[Ring.LatestWriter(sparkCount, sparkCapacity, i)]
      {
        Ring.SlotHoldsLatest(Blanks(sparkCapacity), emitted, i);
      }
    }
  }
}
