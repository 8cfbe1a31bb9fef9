/**
 * The moisture-sensor task: a capacitive soil moisture sensor read through
 * the analogue-to-digital converter, over and over. Every successful sample
 * is published to the display task and logged with the soil band it falls
 * in; a failed conversion is logged; every round ends with the cooldown.
 *
 * The converter, the timer, the signal to the display task and the log are
 * represented by one `MoistureBus` object recording every call in order; what
 * a conversion returns is given by the position of the call in that record.
 */
module MoistureSensor {
  import opened Units
  import opened Results

  /** The largest raw sample still read as dry soil. */
  const MOISTURE_DRY_MAX: u16 := 300
  /** The largest raw sample still read as wet soil. */
  const MOISTURE_WET_MAX: u16 := 700
  /** The largest raw sample still read as a submerged sensor. */
  const MOISTURE_SUB_MAX: u16 := 950

  /** The soil bands a sample is reported in. */
  datatype Band = DrySoil | WetSoil | Submerged | Unknown

  // ---------------------------------------------------------------------
  // Classification
  // ---------------------------------------------------------------------

  /** The smallest sample in band `b`. */
  function Lower(b: Band): int
  {
    match b
    case DrySoil => 0
    case WetSoil => MOISTURE_DRY_MAX + 1
    case Submerged => MOISTURE_WET_MAX + 1
    case Unknown => MOISTURE_SUB_MAX + 1
  }

  /** The largest sample in band `b`. */
  function Upper(b: Band): int
  {
    match b
    case DrySoil => MOISTURE_DRY_MAX
    case WetSoil => MOISTURE_WET_MAX
    case Submerged => MOISTURE_SUB_MAX
    case Unknown => U16_MAX
  }

  /** Whether the sample `v` lies in the range of band `b`, both ends included. */
  predicate InBand(v: int, b: Band)
  {
    Lower(b) <= v <= Upper(b)
  }

  /** The position of band `b` from the driest to the wettest, the unknown band last. */
  function Rank(b: Band): (r: nat)
    ensures r < 4
  {
    match b
    case DrySoil => 0
    case WetSoil => 1
    case Submerged => 2
    case Unknown => 3
  }

  /**
   * The band of a sample: each threshold is the largest sample of its band,
   * tried from the driest up; above the last one the band is unknown. The
   * bands cover every 16-bit sample and do not overlap, so the band returned
   * is the only one whose range holds the sample.
   */
  function Classify(v: u16): (b: Band)
    ensures forall c: Band :: InBand(v, c) <==> c == b
  {
    if v <= MOISTURE_DRY_MAX then DrySoil
    else if v <= MOISTURE_WET_MAX then WetSoil
    else if v <= MOISTURE_SUB_MAX then Submerged
    else Unknown
  }

  /** A larger sample never falls in a drier band. */
  lemma ClassifyMonotone(v: u16, w: u16)
    requires v <= w
    ensures Rank(Classify(v)) <= Rank(Classify(w))
  {
    var b, c := Classify(v), Classify(w);
    assert InBand(v, b) && InBand(w, c);
  }

  /** Each threshold belongs to the band below it; the sample right above it belongs to the next band. */
  lemma ClassifyBoundaries()
    ensures Classify(0) == DrySoil && Classify(300) == DrySoil
    ensures Classify(301) == WetSoil && Classify(700) == WetSoil
    ensures Classify(701) == Submerged && Classify(950) == Submerged
    ensures Classify(951) == Unknown && Classify(U16_MAX) == Unknown
  {
  }

  /** The text the log gives for each band. */
  function Label(b: Band): string
  {
    match b
    case DrySoil => "dry soil"
    case WetSoil => "wet soil"
    case Submerged => "submerged"
    case Unknown => "unknown"
  }

  /** Different bands are logged with different text, so the log tells the band. */
  lemma LabelDeterminesBand(b: Band, c: Band)
    requires Label(b) == Label(c)
    ensures b == c
  {
  }

  // ---------------------------------------------------------------------
  // The task
  // ---------------------------------------------------------------------

  /** A failed conversion of the analogue-to-digital converter. */
  datatype AdcError = ConversionFailed

  /** What the moisture task does, in the order it does it. */
  datatype Event =
    | Read
    | Publish(sample: u16)
    | LogReading(sample: u16, text: string)
    | LogReadError(error: AdcError)
    | Wait(ms: Millis)

  /** The moisture task's view of the converter, the timer, the signal and the log. */
  class MoistureBus {
    /** Everything the task has done so far, in order. */
    var events: seq<Event>
    /** What a conversion at a position in `events` returns. */
    const sample: nat -> Result<u16, AdcError>

    constructor (sample: nat -> Result<u16, AdcError>)
      ensures events == [] && this.sample == sample
    {
      events := [];
      this.sample := sample;
    }

    method ReadAdc() returns (r: Result<u16, AdcError>)
      modifies this`events
      ensures events == old(events) + [Read]
      ensures r == sample(|old(events)|)
    {
      r := sample(|events|);
      events := events + [Read];
    }

    /** A wait on the timer, a signal to the display task or a log line. */
    method Emit(e: Event)
      requires !e.Read?
      modifies this`events
      ensures events == old(events) + [e]
    {
      events := events + [e];
    }
  }

  /**
   * One round starting at position `at`: read; publish and log a sample with
   * its band, or log the error; then cool down.
   */
  function Cycle(at: nat, sample: nat -> Result<u16, AdcError>): seq<Event>
  {
    [Read]
    + (match sample(at)
       case Ok(v) => [Publish(v), LogReading(v, Label(Classify(v)))]
       case Err(e) => [LogReadError(e)])
    + [Wait(COOLDOWN)]
  }

  /** The first `rounds` rounds of the loop starting at position `at`. */
  function MoistureRun(rounds: nat, at: nat, sample: nat -> Result<u16, AdcError>): seq<Event>
    decreases rounds
  {
    if rounds == 0 then []
    else
      var c := Cycle(at, sample);
      c + MoistureRun(rounds - 1, at + |c|, sample)
  }

  /** One pass of the loop body. */
  method Round(bus: MoistureBus)
    modifies bus`events
    ensures bus.events == old(bus.events) + Cycle(|old(bus.events)|, bus.sample)
  {
    var r := bus.ReadAdc();
    match r {
      case Ok(v) =>
        bus.Emit(Publish(v));
        bus.Emit(LogReading(v, Label(Classify(v))));
      case Err(e) =>
        bus.Emit(LogReadError(e));
    }
    bus.Emit(Wait(COOLDOWN));
  }

  /**
   * The moisture task: read over and over. The task never ends on its own;
   * `rounds` bounds how many rounds are observed.
   */
  method Driver(bus: MoistureBus, rounds: nat)
    modifies bus`events
    ensures bus.events == old(bus.events) + MoistureRun(rounds, |old(bus.events)|, bus.sample)
  {
    ghost var t0 := bus.events;
    var i := 0;
    while i < rounds
      invariant 0 <= i <= rounds
      invariant bus.events + MoistureRun(rounds - i, |bus.events|, bus.sample)
             == t0 + MoistureRun(rounds, |t0|, bus.sample)
    {
      ghost var before := bus.events;
      Round(bus);
      assert before + MoistureRun(rounds - i, |before|, bus.sample)
          == bus.events + MoistureRun(rounds - i - 1, |bus.events|, bus.sample);
      i := i + 1;
    }
    assert bus.events + [] == bus.events;
  }

  // ---------------------------------------------------------------------
  // Properties of the loop
  // ---------------------------------------------------------------------

  /**
   * The samples published, in order. The light task has its own Published
   * over its own events: each task's record is a different type.
   */
  function Published(es: seq<Event>): seq<u16>
    decreases |es|
  {
    if es == [] then []
    else (if es[0].Publish? then [es[0].sample] else []) + Published(es[1..])
  }

  /** The samples of the conversions that succeeded, in order, for a record starting at position `at`. */
  function SuccessfulSamples(es: seq<Event>, at: nat, sample: nat -> Result<u16, AdcError>): seq<u16>
    decreases |es|
  {
    if es == [] then []
    else
      (if es[0].Read? && sample(at).Ok? then [sample(at).value] else [])
      + SuccessfulSamples(es[1..], at + 1, sample)
  }

  /** How many cooldowns were waited. */
  function Cooldowns(es: seq<Event>): nat
    decreases |es|
  {
    if es == [] then 0
    else (if es[0] == Wait(COOLDOWN) then 1 else 0) + Cooldowns(es[1..])
  }

  /** How many conversions were started. */
  function Reads(es: seq<Event>): nat
    decreases |es|
  {
    if es == [] then 0
    else (if es[0].Read? then 1 else 0) + Reads(es[1..])
  }

  /** What a record publishes is what its parts publish, in order. */
  lemma {:induction false} PublishedConcat(a: seq<Event>, b: seq<Event>)
    ensures Published(a + b) == Published(a) + Published(b)
    decreases |a|
  {
    if a == [] {
      assert a + b == b;
    } else {
      var h := if a[0].Publish? then [a[0].sample] else [];
      assert (a + b)[0] == a[0] && (a + b)[1..] == a[1..] + b;
      assert Published(a + b) == h + Published(a[1..] + b);
      PublishedConcat(a[1..], b);
      assert Published(a) == h + Published(a[1..]);
    }
  }

  /** The successful samples of a record are those of its parts, in order. */
  lemma {:induction false} SuccessfulSamplesConcat(a: seq<Event>, b: seq<Event>, at: nat, sample: nat -> Result<u16, AdcError>)
    ensures SuccessfulSamples(a + b, at, sample) == SuccessfulSamples(a, at, sample) + SuccessfulSamples(b, at + |a|, sample)
    decreases |a|
  {
    if a == [] {
      assert a + b == b;
    } else {
      assert (a + b)[1..] == a[1..] + b;
      SuccessfulSamplesConcat(a[1..], b, at + 1, sample);
    }
  }

  /** Cooldowns and conversions of a record add up over its parts. */
  lemma {:induction false} CountsConcat(a: seq<Event>, b: seq<Event>)
    ensures Cooldowns(a + b) == Cooldowns(a) + Cooldowns(b)
    ensures Reads(a + b) == Reads(a) + Reads(b)
    decreases |a|
  {
    if a == [] {
      assert a + b == b;
    } else {
      assert (a + b)[1..] == a[1..] + b;
      CountsConcat(a[1..], b);
    }
  }

  /** All four summaries of a record are those of its parts combined. */
  lemma SummariesConcat(a: seq<Event>, b: seq<Event>, at: nat, sample: nat -> Result<u16, AdcError>)
    ensures Published(a + b) == Published(a) + Published(b)
    ensures SuccessfulSamples(a + b, at, sample) == SuccessfulSamples(a, at, sample) + SuccessfulSamples(b, at + |a|, sample)
    ensures Cooldowns(a + b) == Cooldowns(a) + Cooldowns(b)
    ensures Reads(a + b) == Reads(a) + Reads(b)
  {
    PublishedConcat(a, b);
    SuccessfulSamplesConcat(a, b, at, sample);
    CountsConcat(a, b);
  }

  /** The summaries of a record of one event. */
  lemma Single(e: Event, at: nat, sample: nat -> Result<u16, AdcError>)
    ensures Published([e]) == if e.Publish? then [e.sample] else []
    ensures SuccessfulSamples([e], at, sample) == if e.Read? && sample(at).Ok? then [sample(at).value] else []
    ensures Cooldowns([e]) == if e == Wait(COOLDOWN) then 1 else 0
    ensures Reads([e]) == if e.Read? then 1 else 0
  {
    assert [e][1..] == [];
  }

  /**
   * One round reads once, publishes exactly the sample it read when the
   * conversion succeeded and nothing otherwise, and cools down once.
   */
  lemma CycleSummary(at: nat, sample: nat -> Result<u16, AdcError>)
    ensures var c := Cycle(at, sample);
      && Published(c) == SuccessfulSamples(c, at, sample)
      && Published(c) == (if sample(at).Ok? then [sample(at).value] else [])
      && Cooldowns(c) == 1
      && Reads(c) == 1
  {
    var c := Cycle(at, sample);
    var mid := c[1..|c| - 1];
    assert c == [Read] + mid + [Wait(COOLDOWN)];
    Single(Read, at, sample);
    Single(Wait(COOLDOWN), at + 1 + |mid|, sample);
    SummariesConcat([Read], mid, at, sample);
    SummariesConcat([Read] + mid, [Wait(COOLDOWN)], at, sample);
    if sample(at).Ok? {
      var v := sample(at).value;
      var log := LogReading(v, Label(Classify(v)));
      assert mid == [Publish(v)] + [log];
      Single(Publish(v), at + 1, sample);
      Single(log, at + 2, sample);
      SummariesConcat([Publish(v)], [log], at + 1, sample);
    } else {
      Single(mid[0], at + 1, sample);
    }
  }

  /**
   * Over any number of rounds, every successful sample is published exactly
   * once, whatever its band, in the order read, and nothing else is; every
   * round, success or error, reads once and ends with exactly one cooldown.
   */
  lemma {:induction false} MoistureRunSummary(rounds: nat, at: nat, sample: nat -> Result<u16, AdcError>)
    ensures var run := MoistureRun(rounds, at, sample);
      && Published(run) == SuccessfulSamples(run, at, sample)
      && Cooldowns(run) == rounds
      && Reads(run) == rounds
    decreases rounds
  {
    if rounds > 0 {
      var c := Cycle(at, sample);
      CycleSummary(at, sample);
      MoistureRunSummary(rounds - 1, at + |c|, sample);
      SummariesConcat(c, MoistureRun(rounds - 1, at + |c|, sample), at, sample);
    }
  }

  /** Every published sample is logged right after it with the label of its band. */
  predicate PublishesLogged(es: seq<Event>)
  {
    forall k :: 0 <= k < |es| && es[k].Publish? ==>
      k + 1 < |es| && es[k + 1] == LogReading(es[k].sample, Label(Classify(es[k].sample)))
  }

  /** The task logs every sample it publishes, right after publishing it, with the label of its band. */
  lemma {:induction false} PublishedIsLoggedWithBand(rounds: nat, at: nat, sample: nat -> Result<u16, AdcError>)
    ensures PublishesLogged(MoistureRun(rounds, at, sample))
    decreases rounds
  {
    if rounds > 0 {
      var c := Cycle(at, sample);
      var rest := MoistureRun(rounds - 1, at + |c|, sample);
      PublishedIsLoggedWithBand(rounds - 1, at + |c|, sample);
      var run := c + rest;
      assert run == MoistureRun(rounds, at, sample);
      match sample(at) {
        case Ok(v) => assert c == [Read, Publish(v), LogReading(v, Label(Classify(v))), Wait(COOLDOWN)];
        case Err(e) => assert c == [Read, LogReadError(e), Wait(COOLDOWN)];
      }
      assert forall j :: 0 <= j < |c| ==> run[j] == c[j];
      forall k | |c| <= k < |run| && run[k].Publish?
        ensures k + 1 < |run| && run[k + 1] == LogReading(run[k].sample, Label(Classify(run[k].sample)))
      {
        var j := k - |c|;
        assert run[k] == rest[j];
        assert run[k + 1] == rest[j + 1];
      }
    }
  }
}
