# FireApplication spark streaming, modelled in Dafny

This project models the particle streaming core of `FireApplication`, a demo that draws a
flame quad and a stream of spark and smoke particles. Every particle is one
`SparkParticle` record. Records go into a vertex buffer of 1024 slots that is used as a
ring. `EmitParticle` stamps a record with the current time and writes it into slot
`sparkCount mod sparkCapacity`. Only that one record's bytes are uploaded. Then it
counts the record. `Render` draws `min(sparkCount, sparkCapacity)` points starting at
slot 0. Each `Update` frame does three things:

- counts the frame for a once-a-second FPS report;
- emits one spark when at least 0.2 s have passed since the last spark;
- emits one smoke puff, unconditionally.

Modules, one per part of the source:

- `Particle` (`FireApplication.h`): the record, its six fields, and its packed image of
  11 floats (44 bytes).
- `Random`: `Random01` and `RandomRange`. The value `rand()` returns is a parameter.
- `Layout`: the attribute loop of `InitializeParticleSystem`, a `method` with a `while`
  loop proved against the prefix-sum function `OffsetOf`.
- `Ring`: the ring discipline stated on sequences. `Put` is one write. `Stream` gives
  the buffer after a whole history of writes. The lemmas prove wraparound and which
  records survive.
- `Timers`: the interval rule `now - last >= interval`. The spark timer and the FPS
  counter both use it. The lemmas cover runs of frames.
- `Emission`: the spark and smoke records `Update` builds. Each random field comes from
  one draw of `Random01`.
- `FireApp`: the class `FireApplication`. It holds the buffer as an `array`, the counter,
  and the timer fields. A ghost history `emitted` lists every record written. `Valid()`
  states that the array equals `Ring.Stream` of that history.

Modelling choices:

- Time is `real` and `sparkCount` is `nat`.
- One `now` stands for every `GetCurrentTime()` read within a frame. The framework
  samples its clock once per frame.
- The GPU buffer is the array of records it holds. An upload of one record is a write
  to one array slot.
- The field initialisers of the class and the work `InitializeParticleSystem` does on
  the buffer form one constructor. That work is the allocation and the attribute loop.
- Nothing in the source reassigns `m_sparkCapacity` or `m_sparkInterval` after their
  initialisers, although they are ordinary mutable members (FireApplication.h:61, 63). The
  model declares them `const`, so it shows they never change.
- `RandomRange` draws from the closed range [from, to]. `rand()` may return `RAND_MAX`, so
  `Random01` can be exactly 1 (FireApplication.cpp:211), and `to` is reachable
  (`Random.RangeEndsReachable`).
- The spark timer starts at 0 and fires when `currentTime - m_lastSparkTime >= 0.2`
  (FireApplication.cpp:46, FireApplication.h:62-63). So frames at 0.0, 0.05, 0.21, 0.25 and
  0.42 emit sparks at 0.21 and 0.42 only; the frame at 0.0 does not
  (`Timers.SparkCadenceExample`).

## Model

| member | source | states |
|---|---|---|
| `Particle.FieldFloats` | exercises/Project/FireApplication.h:10-18 | each field occupies as many floats as its type holds: 2 for a vec2, 1 for a float, 4 for a Color |
| `Particle.Floats` | exercises/Project/FireApplication.h:10-18 | the record packs into exactly 11 floats, the fields laid out in declaration order |
| `Random.Random01` | exercises/Project/FireApplication.cpp:209-212 | rand()/RAND_MAX lies in the closed interval [0, 1]; it is 0 exactly when rand() is 0 and 1 exactly when rand() is RAND_MAX |
| `Random.RandomRange` | exercises/Project/FireApplication.cpp:214-217 | for from <= to the result lies in [from, to], for a reversed range in [to, from], and a degenerate range yields `from` |
| `Random.RangeEndsReachable` | exercises/Project/FireApplication.cpp:209-217 | a draw of 0 gives `from` and a draw of RAND_MAX gives `to`: the range is closed at both ends |
| `Random.RangeMonotone` | exercises/Project/FireApplication.cpp:214-217 | a larger draw never gives a smaller value on a proper range |
| `Random.DrawFor` | exercises/Project/FireApplication.cpp:214-217 | every point of [from, to] is the value of some draw in [0, 1]: RandomRange covers its whole range |
| `Random.DrawIsUnique` | exercises/Project/FireApplication.cpp:214-217 | on a proper range distinct draws give distinct values, so with DrawFor RandomRange is a bijection onto [from, to] |
| `Layout.AttributeBytes` | exercises/Project/FireApplication.cpp:136 | an attribute's size is a whole number of floats, one per component |
| `Layout.TotalBytes` | exercises/Project/FireApplication.cpp:136 | the bytes of a run of attributes, added up, are a whole number of floats |
| `Layout.OffsetOf` | exercises/Project/FireApplication.cpp:133-137 | the offset of attribute k, the sum of the sizes of attributes 0..k-1, is float-aligned |
| `Layout.BindAttributes` | exercises/Project/FireApplication.cpp:120-137 | the loop binds attribute k at location k with offset OffsetOf(attrs, k), the sum of the sizes of attributes 0..k-1, and the common stride |
| `Layout.OffsetStep` | exercises/Project/FireApplication.cpp:133-137 | each attribute's offset is the previous offset plus the previous attribute's size |
| `Layout.OffsetsIncrease` | exercises/Project/FireApplication.cpp:133-137 | offsets never decrease, and each attribute ends at or before the next begins: the byte ranges do not overlap |
| `Layout.SparkOffsets` | exercises/Project/FireApplication.cpp:120-137 | the six spark attributes get offsets 0, 8, 12, 16, 20 and 36, and the run ends at 44 bytes |
| `Layout.SparkAttributesMatchRecord` | exercises/Project/FireApplication.cpp:120-131 | the six declared attributes match the record's six fields one to one in float count, and together span exactly sizeof(SparkParticle), the stride |
| `Layout.AttributeReadsField` | exercises/Project/FireApplication.cpp:124-135 | reading attribute k at its offset from a record's memory image yields exactly field k of that record |
| `Ring.Slot` | exercises/Project/FireApplication.cpp:162 | the slot written is always below the capacity, and equals the emission index until the ring first fills |
| `Ring.SlotIsMod` | exercises/Project/FireApplication.cpp:162 | the slot reached by taking whole laps off the emission index is exactly `m_sparkCount % m_sparkCapacity` |
| `Ring.SlotsDistinct` | exercises/Project/FireApplication.cpp:162 | two emissions fewer than `capacity` apart go to different slots |
| `Ring.DrawCount` | exercises/Project/FireApplication.cpp:87 | the number of points drawn never exceeds the count or the capacity, and equals one of them: the count until the ring fills, the capacity afterwards |
| `Ring.Put` | exercises/Project/FireApplication.cpp:159-166 | one emission writes its record into slot count mod capacity and leaves every other slot unchanged |
| `Ring.Stream` | exercises/Project/FireApplication.cpp:162-166 | the buffer after a whole history of emissions, each written by `Put` at its own emission index, has the capacity's length |
| `Ring.Survivors` | exercises/Project/FireApplication.cpp:162-166 | after any sequence of emissions, each of the last `capacity` emissions (all of them, while fewer were made) is still in its slot |
| `Ring.Untouched` | exercises/Project/FireApplication.cpp:162-166 | slots at or beyond the count have never been written and still hold the buffer's initial contents |
| `Ring.LatestWriter` | exercises/Project/FireApplication.cpp:162-166 | for a slot below the count, names the latest emission index that maps to that slot: it is below the count and within one capacity of it |
| `Ring.SlotHoldsLatest` | exercises/Project/FireApplication.cpp:162-166 | every drawn slot holds the most recent emission mapped to it, and no later emission went to that slot |
| `Ring.SecondLap` | exercises/Project/FireApplication.cpp:162-166 | after capacity + k emissions (k < capacity), slots below k hold the second lap's records and the remaining slots still hold the first lap's |
| `Ring.UploadInBounds` | exercises/Project/FireApplication.cpp:162-163 | the one-record upload at byte offset slot * sizeof(SparkParticle) lies inside the capacity * sizeof(SparkParticle) bytes allocated at line 116 |
| `Timers.Elapsed` | exercises/Project/FireApplication.cpp:31 | the interval test `now - last >= interval` shared by the FPS counter (line 31) and the spark timer (line 46); with a non-negative interval it never passes for a time before the mark |
| `Timers.NextMark` | exercises/Project/FireApplication.cpp:46-56 | the mark after one frame is either that frame's time (when it fired, line 55) or the old mark, and with a non-negative interval it never moves backwards |
| `Timers.Firings` | exercises/Project/FireApplication.cpp:46-56 | for a run of frames, one entry per frame saying whether the spark test passed, each frame tested against the mark the previous frames left |
| `Timers.FinalMark` | exercises/Project/FireApplication.cpp:46-56 | the mark after a run of frames is the initial mark or one of the frame times, and with a non-negative interval it is never below the initial mark |
| `Timers.CountFired` | exercises/Project/FireApplication.cpp:46-56 | the number of sparks in a run is at most the number of frames, and is 0 exactly when no frame fired |
| `Timers.FpsTick` | exercises/Project/FireApplication.cpp:29-36 | one frame's FPS step moves the counter's time by the same interval rule as the spark timer (with a 1 s interval); the count is 0 exactly when that rule fires, and otherwise grows by one |
| `Timers.FpsRun` | exercises/Project/FireApplication.cpp:29-36 | after a run of frames the counter's time is the final mark of the one-second timer, and the count never exceeds the initial count plus the number of frames |
| `Timers.NoCatchUp` | exercises/Project/FireApplication.cpp:46-56 | over any run of frames the number of sparks times the interval is at most the distance the timer's mark moved |
| `Timers.FiringsSpaced` | exercises/Project/FireApplication.cpp:46-56 | any two frames that emit a spark are at least one interval apart, however late the earlier one came: missed intervals are dropped, not caught up later |
| `Timers.NoFiringBeforeInterval` | exercises/Project/FireApplication.cpp:46-56 | with a non-negative interval, no frame before last + interval emits |
| `Timers.FinalMarkIsLastFiring` | exercises/Project/FireApplication.cpp:46-56 | after a run, the timer's mark is the time of the last frame that fired, or its initial value when none fired |
| `Timers.TicksAfterLastFiring` | exercises/Project/FireApplication.cpp:29-36 | counts the frames after the last one that fired: that frame fired and none after it did |
| `Timers.FpsCountsFramesSinceRestart` | exercises/Project/FireApplication.cpp:28-36 | after any run of frames the FPS count is the number of frames since the last one-second restart, or the initial count plus all frames if none restarted, and its time is that restart's |
| `Timers.SparkCadenceExample` | exercises/Project/FireApplication.cpp:46-56 | with the timer at 0 and interval 0.2, frames at 0.0, 0.05, 0.21, 0.25 and 0.42 emit sparks at 0.21 and 0.42 only |
| `Emission.Record` | exercises/Project/FireApplication.cpp:159 | the record EmitParticle builds carries the current time as its birth and every other field from the arguments unchanged |
| `Emission.Spark` | exercises/Project/FireApplication.cpp:48-53 | a spark's position, size, lifetime, green channel and velocity lie in their configured ranges, red is 1, blue 0.1, and the lifetime is positive |
| `Emission.Smoke` | exercises/Project/FireApplication.cpp:59-64 | a smoke puff starts at y = -0.7 with x in [-0.3, 0.3], has size in [90, 100], lifetime in [8, 10], colour (0.1, 0.1, 0.1, 0.1) and a slow upward velocity |
| `FireApp.FirstSparkAfterInterval` | exercises/Project/FireApplication.h:62-63 | from the initial timer (0, interval 0.2) no frame before time 0.2 emits a spark |
| `FireApp.FirstFrames` | exercises/Project/FireApplication.h:60-63 | a fresh object draws 0 points; after frames at 0.0 and 0.25 it has emitted three records and draws 3 points |
| `FireApp.FireApplication.constructor` | exercises/Project/FireApplication.h:60-65 | starts with count 0, both timers at 0 and frame count 0, a buffer of 1024 slots, and the attribute bindings of the six-attribute layout at stride 44 |
| `FireApp.FireApplication.EmitParticle` | exercises/Project/FireApplication.cpp:157-167 | writes the arguments stamped with `now` into slot count mod capacity and changes no other slot. It uploads at byte offset slot * 44, inside the allocation. It increases the count by exactly 1 and keeps the ring invariant |
| `FireApp.FireApplication.Update` | exercises/Project/FireApplication.cpp:24-65 | advances the FPS counter by one tick. It emits a spark if and only if now - lastSparkTime >= interval, and then moves lastSparkTime to now. It always emits one smoke puff, so the count grows by 2 on a spark frame and by 1 otherwise |
| `FireApp.FireApplication.Render` | exercises/Project/FireApplication.cpp:84-87 | draws min(count, capacity) points, and every drawn slot holds the latest record emitted into it |

## Left out

- Shader loading and compilation (`LoadAndCompileShader`, `InitializeShaders`, the spark shader build in `InitializeParticleSystem`): file I/O and calls into the GL compiler.
- OpenGL and framework calls are not modelled: buffer and vertex-array binding, feature and blend state, clearing, uniforms (including gravity -1.0), and the draw call itself. The upload is a write to one array slot, and the draw is the point count `Render` returns.
- The GPU side of the particles (aging, fading, gravity): it lives in shader files that are not part of this model.
- Camera projection and view setup, and the flame quad geometry: float matrix math and constant mesh data.
- `RandomDirection` and `RandomColor`: nothing in the core calls them.
- `rand()` itself: each draw of `Random01` is a parameter in [0, 1]. C++ leaves unspecified the order in which the arguments of one constructor call are evaluated. So the model does not fix which `rand()` result feeds which field. It gives each field its own draw.
- `VertexAttribute` is not part of this model. `AttributeBytes` takes its `GetSize()` to be the number of components times 4 bytes, as for `Data::Type::Float`.
- The `Color` type is not part of this model. It is taken to hold four floats, as the four-component attribute at line 129 of the source requires. The three-channel constructor used for sparks is taken to set alpha to 1.
- Printing the FPS line: only the counter and its restart are modelled.
- Float rounding: times, sizes and ranges are exact reals.
- Integer width: `m_sparkCount` is unbounded, so its 32-bit wrap-around after 2^32 emissions is not modelled. `m_frameCount` is also unbounded.
- The byte offset of an upload is a local variable in the source. The model's `EmitParticle` returns it, so that its contract can state it.
- The initial contents of the buffer: the allocation at FireApplication.cpp:116 passes no data, so they are unspecified. The model fills every slot with the zero record `Blank`. What `Ring.Untouched` says about slots not yet reached holds for any initial contents, but applied to the class it names zero records only because of this choice. No property of drawn slots depends on it.
