/**
 * The light-sensor task: a BH1750 ambient light sensor on the I2C bus,
 * measured again and again in continuous high-resolution mode. Each
 * successful reading is published to the display task; an unresponsive
 * device is retried after a long pause, any other bus error after the usual
 * cooldown, and an out-of-range measurement-time register halts the system.
 *
 * The sensor, the timer, the signal to the display task and the log are
 * represented by one `LightBus` object recording every call in order. Which
 * sensor calls fail, and with what error, is given by the position of the
 * call in that record; the value a successful read returns, likewise.
 */
module LightSensor {
  import opened Units
  import opened Results

  /** How long to wait before retrying a device that did not acknowledge its address. */
  const UNRESPONSIVE_RETRY_DELAY: Millis := 5000

  /** How long a high-resolution measurement takes with the default measurement time register. */
  const HIGH_RES_MT: Millis := 120

  /** The default value of the sensor's measurement time register. */
  const MTREG_DEFAULT: u8 := 69

  /** A light reading in lux (a 32-bit float on the device). */
  type Lux = real

  /** The sensor's measurement mode; the task only ever uses high resolution. */
  datatype Resolution = High

  /** Why the I2C controller aborted a transfer: the driver only tells a missing acknowledge apart. */
  datatype AbortReason = NoAcknowledge | OtherAbort(code: nat)

  /** An I2C bus error: an aborted transfer, or any other fault of the controller. */
  datatype I2cError = Abort(reason: AbortReason) | OtherI2cError(code: nat)

  /** The sensor driver's errors: a bus error, or a measurement time register value out of range. */
  datatype Bh1750Error = I2C(cause: I2cError) | MeasurementTimeOutOfRange

  /** What the light task does, in the order it does it. */
  datatype Event =
    | SetMtreg(mtreg: u8)
    | StartContinuous(mode: Resolution)
    | GetCurrent(mode: Resolution)
    | Wait(ms: Millis)
    | Publish(lux: Lux)
    | LogReading(lux: Lux)
    | LogUnresponsive
    | LogBusError(cause: I2cError)

  /** Only calls to the sensor can fail; the timer, the signal and the log cannot. */
  predicate IsSensorCall(e: Event)
  {
    e.SetMtreg? || e.StartContinuous? || e.GetCurrent?
  }

  /** Whether the event `e`, performed at position `at` of the record, is a sensor call that fails. */
  predicate Fails(e: Event, at: nat, failures: map<nat, Bh1750Error>)
  {
    IsSensorCall(e) && at in failures
  }

  /** The reply to a sensor call at position `at`: its failure if it has one, `value` otherwise. */
  function Outcome<T>(at: nat, failures: map<nat, Bh1750Error>, value: T): Result<T, Bh1750Error>
  {
    if at in failures then Err(failures[at]) else Ok(value)
  }

  /** The light task's view of the sensor, the timer, the signal and the log. */
  class LightBus {
    /** Everything the task has done so far, in order. */
    var events: seq<Event>
    /** Which sensor calls fail, by position in `events`, and how. */
    const failures: map<nat, Bh1750Error>
    /** What a successful read at a position in `events` returns. */
    const reading: nat -> Lux

    constructor (failures: map<nat, Bh1750Error>, reading: nat -> Lux)
      ensures events == [] && this.failures == failures && this.reading == reading
    {
      events := [];
      this.failures := failures;
      this.reading := reading;
    }

    method SetMeasurementTimeRegister(mtreg: u8) returns (r: Result<(), Bh1750Error>)
      modifies this`events
      ensures events == old(events) + [SetMtreg(mtreg)]
      ensures r == Outcome(|old(events)|, failures, ())
    {
      r := Outcome(|events|, failures, ());
      events := events + [SetMtreg(mtreg)];
    }

    method StartContinuousMeasurement(mode: Resolution) returns (r: Result<(), Bh1750Error>)
      modifies this`events
      ensures events == old(events) + [StartContinuous(mode)]
      ensures r == Outcome(|old(events)|, failures, ())
    {
      r := Outcome(|events|, failures, ());
      events := events + [StartContinuous(mode)];
    }

    method GetCurrentMeasurement(mode: Resolution) returns (r: Result<Lux, Bh1750Error>)
      modifies this`events
      ensures events == old(events) + [GetCurrent(mode)]
      ensures r == Outcome(|old(events)|, failures, reading(|old(events)|))
    {
      r := Outcome(|events|, failures, reading(|events|));
      events := events + [GetCurrent(mode)];
    }

    /** A wait on the timer, a signal to the display task or a log line. */
    method Emit(e: Event)
      requires !IsSensorCall(e)
      modifies this`events
      ensures events == old(events) + [e]
    {
      events := events + [e];
    }
  }

  // ---------------------------------------------------------------------
  // One measurement
  // ---------------------------------------------------------------------

  /** The steps of one measurement: set the register, start high-resolution mode, wait, read. */
  const MEASURE_STEPS: seq<Event> :=
    [SetMtreg(MTREG_DEFAULT), StartContinuous(High), Wait(HIGH_RES_MT), GetCurrent(High)]

  /** The calls one measurement performs and what it yields. */
  datatype Inner = Inner(events: seq<Event>, result: Result<Lux, Bh1750Error>)

  /** A measurement starting at position `at`: the first failing step ends it with that step's error. */
  function MeasureInnerRun(at: nat, failures: map<nat, Bh1750Error>, reading: nat -> Lux): Inner
  {
    if at in failures then Inner(MEASURE_STEPS[..1], Err(failures[at]))
    else if at + 1 in failures then Inner(MEASURE_STEPS[..2], Err(failures[at + 1]))
    else if at + 3 in failures then Inner(MEASURE_STEPS, Err(failures[at + 3]))
    else Inner(MEASURE_STEPS, Ok(reading(at + 3)))
  }

  /**
   * A measurement performs a prefix of its four steps, in order; every step
   * but the last succeeds; it fails exactly when its last step fails, with
   * that step's error, and otherwise has performed all four and returns
   * what the read returned.
   */
  lemma MeasureInnerStopsAtFirstFailure(at: nat, failures: map<nat, Bh1750Error>, reading: nat -> Lux)
    ensures var r := MeasureInnerRun(at, failures, reading);
      && r.events != [] && r.events <= MEASURE_STEPS
      && (forall k :: 0 <= k < |r.events| - 1 ==> !Fails(r.events[k], at + k, failures))
      && (r.result.Err? <==> Fails(r.events[|r.events| - 1], at + |r.events| - 1, failures))
      && (r.result.Err? ==> r.result.error == failures[at + |r.events| - 1])
      && (r.result.Ok? ==> r.events == MEASURE_STEPS && r.result.value == reading(at + 3))
  {
  }

  /** Set the register to its default, start continuous high-resolution mode, wait one measurement time, read. */
  method MeasureInner(bus: LightBus) returns (r: Result<Lux, Bh1750Error>)
    modifies bus`events
    ensures bus.events == old(bus.events) + MeasureInnerRun(|old(bus.events)|, bus.failures, bus.reading).events
    ensures r == MeasureInnerRun(|old(bus.events)|, bus.failures, bus.reading).result
  {
    var setReg := bus.SetMeasurementTimeRegister(MTREG_DEFAULT);
    if setReg.Err? {
      return Err(setReg.error);
    }
    var start := bus.StartContinuousMeasurement(High);
    if start.Err? {
      return Err(start.error);
    }
    bus.Emit(Wait(HIGH_RES_MT));
    r := bus.GetCurrentMeasurement(High);
  }

  /** What a measurement gives the driver: a reading or a bus error, or a halt of the whole system. */
  datatype Measured = Returned(result: Result<Lux, I2cError>) | Halted

  /**
   * A reading and a bus error pass through unchanged; an out-of-range
   * measurement time register, which the default value never is, halts.
   */
  function MapMeasurement(r: Result<Lux, Bh1750Error>): (m: Measured)
    ensures m.Halted? <==> r == Err(MeasurementTimeOutOfRange)
    ensures m.Returned? && m.result.Ok? ==> r == Ok(m.result.value)
    ensures m.Returned? && m.result.Err? ==> r == Err(I2C(m.result.error))
  {
    match r
    case Ok(v) => Returned(Ok(v))
    case Err(I2C(e)) => Returned(Err(e))
    case Err(MeasurementTimeOutOfRange) => Halted
  }

  /** One measurement, with the sensor driver's errors turned into bus errors or a halt. */
  method Measure(bus: LightBus) returns (m: Measured)
    modifies bus`events
    ensures bus.events == old(bus.events) + MeasureInnerRun(|old(bus.events)|, bus.failures, bus.reading).events
    ensures m == MapMeasurement(MeasureInnerRun(|old(bus.events)|, bus.failures, bus.reading).result)
  {
    var r := MeasureInner(bus);
    m := MapMeasurement(r);
  }

  // ---------------------------------------------------------------------
  // The task's loop
  // ---------------------------------------------------------------------

  /** What the task did, and whether the system halted. */
  datatype Trace = Trace(events: seq<Event>, halted: bool)

  /**
   * What the loop does after a measurement that did not halt: publish and
   * log the reading, then cool down; or log the unresponsive device and wait
   * the longer retry delay, skipping the cooldown; or log the bus error and
   * cool down.
   */
  function Reaction(result: Result<Lux, I2cError>): seq<Event>
  {
    match result
    case Ok(v) => [Publish(v), LogReading(v), Wait(COOLDOWN)]
    case Err(Abort(NoAcknowledge)) => [LogUnresponsive, Wait(UNRESPONSIVE_RETRY_DELAY)]
    case Err(e) => [LogBusError(e), Wait(COOLDOWN)]
  }

  /** One round of the loop starting at position `at`: a measurement, then the reaction to it unless it halts. */
  function Cycle(at: nat, failures: map<nat, Bh1750Error>, reading: nat -> Lux): Trace
  {
    var inner := MeasureInnerRun(at, failures, reading);
    match MapMeasurement(inner.result)
    case Halted => Trace(inner.events, true)
    case Returned(result) => Trace(inner.events + Reaction(result), false)
  }

  /** The first `rounds` rounds of the loop starting at position `at`, or fewer if the system halts. */
  function LightRun(rounds: nat, at: nat, failures: map<nat, Bh1750Error>, reading: nat -> Lux): Trace
    decreases rounds
  {
    if rounds == 0 then Trace([], false)
    else
      var c := Cycle(at, failures, reading);
      if c.halted then c
      else
        var rest := LightRun(rounds - 1, at + |c.events|, failures, reading);
        Trace(c.events + rest.events, rest.halted)
  }

  /** A round that halts is the last one. */
  lemma LightRunHalts(rounds: nat, at: nat, failures: map<nat, Bh1750Error>, reading: nat -> Lux)
    requires rounds > 0 && Cycle(at, failures, reading).halted
    ensures LightRun(rounds, at, failures, reading) == Cycle(at, failures, reading)
  {
  }

  /** After a round that does not halt, the remaining rounds run from where it left the record. */
  lemma LightRunContinues(before: seq<Event>, after: seq<Event>, rounds: nat, failures: map<nat, Bh1750Error>, reading: nat -> Lux)
    requires rounds > 0 && !Cycle(|before|, failures, reading).halted
    requires after == before + Cycle(|before|, failures, reading).events
    ensures before + LightRun(rounds, |before|, failures, reading).events
         == after + LightRun(rounds - 1, |after|, failures, reading).events
    ensures LightRun(rounds, |before|, failures, reading).halted == LightRun(rounds - 1, |after|, failures, reading).halted
  {
    var c := Cycle(|before|, failures, reading);
    var next := LightRun(rounds - 1, |before| + |c.events|, failures, reading);
    assert |after| == |before| + |c.events|;
    assert before + (c.events + next.events) == after + next.events;
  }

  /** The body of the loop after a measurement that returned. */
  method React(bus: LightBus, result: Result<Lux, I2cError>)
    modifies bus`events
    ensures bus.events == old(bus.events) + Reaction(result)
  {
    match result {
      case Ok(v) =>
        bus.Emit(Publish(v));
        bus.Emit(LogReading(v));
      case Err(Abort(NoAcknowledge)) =>
        bus.Emit(LogUnresponsive);
        bus.Emit(Wait(UNRESPONSIVE_RETRY_DELAY));
        return;
      case Err(e) =>
        bus.Emit(LogBusError(e));
    }
    bus.Emit(Wait(COOLDOWN));
  }

  /** One pass of the loop body: measure, then react unless the system halts. */
  method Round(bus: LightBus) returns (halted: bool)
    modifies bus`events
    ensures bus.events == old(bus.events) + Cycle(|old(bus.events)|, bus.failures, bus.reading).events
    ensures halted == Cycle(|old(bus.events)|, bus.failures, bus.reading).halted
  {
    var m := Measure(bus);
    if m.Halted? {
      return true;
    }
    React(bus, m.result);
    assert bus.events == old(bus.events) + (MeasureInnerRun(|old(bus.events)|, bus.failures, bus.reading).events + Reaction(m.result));
    return false;
  }

  /**
   * The light task: measure over and over. The task never ends on its own;
   * `rounds` bounds how many rounds are observed. It stops early, reporting
   * `halted`, when a measurement finds the register out of range.
   */
  method Driver(bus: LightBus, rounds: nat) returns (halted: bool)
    modifies bus`events
    ensures bus.events == old(bus.events) + LightRun(rounds, |old(bus.events)|, bus.failures, bus.reading).events
    ensures halted == LightRun(rounds, |old(bus.events)|, bus.failures, bus.reading).halted
  {
    ghost var t0 := bus.events;
    ghost var whole := LightRun(rounds, |t0|, bus.failures, bus.reading);
    var remaining := rounds;
    while remaining > 0
      invariant bus.events + LightRun(remaining, |bus.events|, bus.failures, bus.reading).events == t0 + whole.events
      invariant LightRun(remaining, |bus.events|, bus.failures, bus.reading).halted == whole.halted
    {
      ghost var before := bus.events;
      halted := Round(bus);
      if halted {
        LightRunHalts(remaining, |before|, bus.failures, bus.reading);
        return;
      }
      LightRunContinues(before, bus.events, remaining, bus.failures, bus.reading);
      remaining := remaining - 1;
    }
    assert bus.events + [] == bus.events;
    return false;
  }

  // ---------------------------------------------------------------------
  // Properties of the loop
  // ---------------------------------------------------------------------

  /**
   * What one round does after its measurement, by the sensor driver's
   * outcome: a reading is published once and logged, then the cooldown; an
   * unresponsive device is logged and retried after the longer delay, with
   * no cooldown; any other bus error is logged, then the cooldown; an
   * out-of-range register halts with nothing more done.
   */
  lemma CycleReaction(at: nat, failures: map<nat, Bh1750Error>, reading: nat -> Lux)
    ensures var inner := MeasureInnerRun(at, failures, reading);
      var c := Cycle(at, failures, reading);
      var after := c.events[|inner.events|..];
      && inner.events <= c.events
      && (c.halted <==> inner.result == Err(MeasurementTimeOutOfRange))
      && (c.halted ==> after == [])
      && (inner.result.Ok? ==> after == [Publish(inner.result.value), LogReading(inner.result.value), Wait(COOLDOWN)])
      && (inner.result == Err(I2C(Abort(NoAcknowledge))) ==> after == [LogUnresponsive, Wait(UNRESPONSIVE_RETRY_DELAY)])
      && (inner.result.Err? && inner.result.error.I2C? && inner.result.error.cause != Abort(NoAcknowledge) ==>
            after == [LogBusError(inner.result.error.cause), Wait(COOLDOWN)])
  {
    var inner := MeasureInnerRun(at, failures, reading);
    var c := Cycle(at, failures, reading);
    assert c.events[..|inner.events|] == inner.events;
  }

  /**
   * The values published, in order. The moisture task has its own Published
   * over its own events: each task's record is a different type.
   */
  function Published(es: seq<Event>): seq<Lux>
    decreases |es|
  {
    if es == [] then []
    else (if es[0].Publish? then [es[0].lux] else []) + Published(es[1..])
  }

  /** The values returned by the reads that succeeded, in order, for a record starting at position `at`. */
  function SuccessfulReads(es: seq<Event>, at: nat, failures: map<nat, Bh1750Error>, reading: nat -> Lux): seq<Lux>
    decreases |es|
  {
    if es == [] then []
    else
      ReadAt(es[0], at, failures, reading) + SuccessfulReads(es[1..], at + 1, failures, reading)
  }

  /** The value a single record entry at position `at` contributes: the reading, if it is a read that succeeded. */
  function ReadAt(e: Event, at: nat, failures: map<nat, Bh1750Error>, reading: nat -> Lux): seq<Lux>
  {
    if e.GetCurrent? && at !in failures then [reading(at)] else []
  }

  /** What a record publishes is what its parts publish, in order. */
  lemma {:induction false} PublishedConcat(a: seq<Event>, b: seq<Event>)
    ensures Published(a + b) == Published(a) + Published(b)
    decreases |a|
  {
    if a == [] {
      assert a + b == b;
    } else {
      var h := if a[0].Publish? then [a[0].lux] else [];
      assert (a + b)[0] == a[0] && (a + b)[1..] == a[1..] + b;
      assert Published(a + b) == h + Published(a[1..] + b);
      PublishedConcat(a[1..], b);
      assert Published(a) == h + Published(a[1..]);
    }
  }

  /** The successful reads of a record are those of its parts, in order. */
  lemma {:induction false} SuccessfulReadsConcat(a: seq<Event>, b: seq<Event>, at: nat, failures: map<nat, Bh1750Error>, reading: nat -> Lux)
    ensures SuccessfulReads(a + b, at, failures, reading)
         == SuccessfulReads(a, at, failures, reading) + SuccessfulReads(b, at + |a|, failures, reading)
    decreases |a|
  {
    if a == [] {
      assert a + b == b;
    } else {
      var h := ReadAt(a[0], at, failures, reading);
      assert (a + b)[0] == a[0] && (a + b)[1..] == a[1..] + b;
      assert SuccessfulReads(a + b, at, failures, reading) == h + SuccessfulReads(a[1..] + b, at + 1, failures, reading);
      SuccessfulReadsConcat(a[1..], b, at + 1, failures, reading);
    }
  }

  lemma {:induction false} PublishedNone(es: seq<Event>)
    requires forall k :: 0 <= k < |es| ==> !es[k].Publish?
    ensures Published(es) == []
    decreases |es|
  {
    if es != [] {
      PublishedNone(es[1..]);
    }
  }

  lemma {:induction false} ReadsNone(es: seq<Event>, at: nat, failures: map<nat, Bh1750Error>, reading: nat -> Lux)
    requires forall k :: 0 <= k < |es| ==> !es[k].GetCurrent?
    ensures SuccessfulReads(es, at, failures, reading) == []
    decreases |es|
  {
    if es != [] {
      ReadsNone(es[1..], at + 1, failures, reading);
    }
  }

  /** A measurement publishes nothing itself, and reads successfully at most once: at its fourth step. */
  lemma MeasureReads(at: nat, failures: map<nat, Bh1750Error>, reading: nat -> Lux)
    ensures var inner := MeasureInnerRun(at, failures, reading);
      && Published(inner.events) == []
      && SuccessfulReads(inner.events, at, failures, reading)
         == if inner.result.Ok? then [inner.result.value] else []
  {
    var inner := MeasureInnerRun(at, failures, reading);
    PublishedNone(inner.events);
    if inner.events == MEASURE_STEPS {
      var read := [GetCurrent(High)];
      assert MEASURE_STEPS == MEASURE_STEPS[..3] + read;
      ReadsNone(MEASURE_STEPS[..3], at, failures, reading);
      SuccessfulReadsConcat(MEASURE_STEPS[..3], read, at, failures, reading);
      assert read[1..] == [];
    } else {
      ReadsNone(inner.events, at, failures, reading);
    }
  }

  /** The reaction to a measurement publishes its reading, if it has one, and reads nothing. */
  lemma ReactionPublishes(result: Result<Lux, I2cError>, at: nat, failures: map<nat, Bh1750Error>, reading: nat -> Lux)
    ensures Published(Reaction(result)) == if result.Ok? then [result.value] else []
    ensures SuccessfulReads(Reaction(result), at, failures, reading) == []
  {
    var after := Reaction(result);
    ReadsNone(after, at, failures, reading);
    if result.Ok? {
      PublishedNone(after[1..]);
      assert Published(after) == [result.value] + Published(after[1..]);
    } else {
      PublishedNone(after);
    }
  }

  /** A round publishes exactly the value its read returned, if the read succeeded, and nothing else. */
  lemma CyclePublishesItsReading(at: nat, failures: map<nat, Bh1750Error>, reading: nat -> Lux)
    ensures var c := Cycle(at, failures, reading);
      Published(c.events) == SuccessfulReads(c.events, at, failures, reading)
  {
    var inner := MeasureInnerRun(at, failures, reading);
    MeasureReads(at, failures, reading);
    var m := MapMeasurement(inner.result);
    if m.Returned? {
      var after := Reaction(m.result);
      PublishedConcat(inner.events, after);
      SuccessfulReadsConcat(inner.events, after, at, failures, reading);
      ReactionPublishes(m.result, at + |inner.events|, failures, reading);
    }
  }

  /** Two records that each publish exactly their successful reads still do so when one follows the other. */
  lemma PublishesJoin(a: seq<Event>, b: seq<Event>, at: nat, failures: map<nat, Bh1750Error>, reading: nat -> Lux)
    requires Published(a) == SuccessfulReads(a, at, failures, reading)
    requires Published(b) == SuccessfulReads(b, at + |a|, failures, reading)
    ensures Published(a + b) == SuccessfulReads(a + b, at, failures, reading)
  {
    PublishedConcat(a, b);
    SuccessfulReadsConcat(a, b, at, failures, reading);
  }

  /**
   * Over any number of rounds, the task publishes every successful reading
   * exactly once, in the order read, and publishes nothing else.
   */
  lemma {:induction false} LightRunPublishesReads(rounds: nat, at: nat, failures: map<nat, Bh1750Error>, reading: nat -> Lux)
    ensures var run := LightRun(rounds, at, failures, reading);
      Published(run.events) == SuccessfulReads(run.events, at, failures, reading)
    decreases rounds
  {
    if rounds > 0 {
      var c := Cycle(at, failures, reading);
      CyclePublishesItsReading(at, failures, reading);
      if !c.halted {
        var rest := LightRun(rounds - 1, at + |c.events|, failures, reading);
        LightRunPublishesReads(rounds - 1, at + |c.events|, failures, reading);
        PublishesJoin(c.events, rest.events, at, failures, reading);
      }
    }
  }
}
