/** The Co2meter class: the two "latest reading" slots, the poll cycle
    (ReadDataRaw, ReadData), the monitor lifecycle (StartMonitoring,
    StopMonitoring, one pass of the monitor thread) and the two getters.

    The device is a parameter: `device(k)` is the frame the k-th read of a
    poll cycle returns, and `clock(k)` is the system_clock reading taken when
    that frame is stored. Threads and locks are not modelled: each method
    runs to completion, one at a time. */
module Monitor {
  import opened Wrappers
  import opened Cipher
  import opened Records

  /** A system_clock time point, as a count of clock ticks. */
  type Time = int

  /** TimeData<T>: a value with the time it was captured. */
  datatype Reading<T> = Reading(value: T, time: Time)

  /** One frame that passed validation: its record code, its 16-bit payload,
      and the time it was stored. */
  datatype Sample = Sample(code: bv8, value: int, time: Time)

  /** The C++ `int`. */
  newtype int32 = x: int | -0x8000_0000 <= x < 0x8000_0000

  /** ReadData's default `max_requests`. */
  const DefaultMaxRequests: int32 := 50

  /** The number of reads ReadData allows: `i < max_requests` compares a
      size_t with an int, so the int is converted to size_t (64 bits). */
  function ReadBound(maxRequests: int32): (n: nat)
    ensures maxRequests >= 0 ==> n == maxRequests as int
    ensures maxRequests < 0 ==> n == maxRequests as int + 0x1_0000_0000_0000_0000
  {
    (maxRequests as int) % 0x1_0000_0000_0000_0000
  }

  /** What ReadDataRaw makes of a raw frame stored at time t: decrypt, then
      validate; the sample it accepts, or the error it raises. */
  function Read(raw: Frame, t: Time): Result<Sample, FrameError>
  {
    var d := Decrypted(raw);
    match Validate(d)
    case Err(e) => Err(e)
    case Ok(code) => Ok(Sample(code, Payload(d), t))
  }

  /** A read is accepted exactly when the decrypted frame has the marker and
      a matching checksum; it then carries the record code and the payload. */
  lemma ReadSpec(raw: Frame, t: Time)
    ensures var d, r := Decrypted(raw), Read(raw, t);
      (r.Ok? <==> d[4] == Marker && d[3] == Checksum(d)) &&
      (r.Ok? ==> r.value == Sample(d[0], Payload(d), t)) &&
      (r.Err? ==> Validate(d) == Err(r.error))
  {
  }

  /** The samples one read adds to the log: its sample, or none. */
  function Accepted(r: Result<Sample, FrameError>): seq<Sample>
  {
    if r.Ok? then [r.value] else []
  }

  /** The index of the most recent sample with the given code, if any. */
  function Latest(log: seq<Sample>, code: bv8): (r: Option<nat>)
    ensures r.None? <==> forall j :: 0 <= j < |log| ==> log[j].code != code
    ensures r.Some? ==> r.value < |log| && log[r.value].code == code
    ensures r.Some? ==> forall j :: r.value < j < |log| ==> log[j].code != code
  {
    if log == [] then None
    else if log[|log| - 1].code == code then Some(|log| - 1)
    else Latest(log[..|log| - 1], code)
  }

  lemma LatestAppend(log: seq<Sample>, s: Sample, code: bv8)
    ensures Latest(log + [s], code) == if s.code == code then Some(|log|) else Latest(log, code)
  {
    assert (log + [s])[..|log|] == log;
  }

  /** The CO2 slot a log of accepted frames leaves behind. */
  function LatestCo2(log: seq<Sample>): Option<Reading<int>>
  {
    match Latest(log, CodeCo2)
    case None => None
    case Some(k) => Some(Reading(log[k].value, log[k].time))
  }

  /** The temperature slot a log of accepted frames leaves behind. */
  function LatestTemp(log: seq<Sample>): Option<Reading<real>>
  {
    match Latest(log, CodeTemp)
    case None => None
    case Some(k) => Some(Reading(Celsius(log[k].value), log[k].time))
  }

  /** What the getters return, in terms of the log of accepted frames: empty
      until a frame of that kind has been accepted, afterwards the reading of
      the most recent one. */
  lemma LatestSpec(log: seq<Sample>)
    ensures LatestCo2(log).None? <==> forall j :: 0 <= j < |log| ==> log[j].code != CodeCo2
    ensures LatestTemp(log).None? <==> forall j :: 0 <= j < |log| ==> log[j].code != CodeTemp
    ensures LatestCo2(log).Some? ==>
      exists k :: 0 <= k < |log| && log[k].code == CodeCo2 &&
        LatestCo2(log).value == Reading(log[k].value, log[k].time) &&
        (forall j :: k < j < |log| ==> log[j].code != CodeCo2)
    ensures LatestTemp(log).Some? ==>
      exists k :: 0 <= k < |log| && log[k].code == CodeTemp &&
        LatestTemp(log).value == Reading(Celsius(log[k].value), log[k].time) &&
        (forall j :: k < j < |log| ==> log[j].code != CodeTemp)
  {
    match Latest(log, CodeCo2) {
      case None =>
      case Some(k) => assert log[k].code == CodeCo2;
    }
    match Latest(log, CodeTemp) {
      case None =>
      case Some(k) => assert log[k].code == CodeTemp;
    }
  }

  /** What the reads of one poll cycle yield, in read order. */
  type Reads = nat -> Result<Sample, FrameError>

  function ReadsOf(device: nat -> Frame, clock: nat -> Time): Reads
  {
    (k: nat) => Read(device(k), clock(k))
  }

  /** The samples the first n reads of a cycle add to the log, oldest first. */
  function Samples(results: Reads, n: nat): (s: seq<Sample>)
    ensures AllAccepted(results, n) ==> |s| == n && forall k :: 0 <= k < n ==> s[k] == results(k).value
  {
    if n == 0 then [] else Samples(results, n - 1) + Accepted(results(n - 1))
  }

  /** The first n reads all pass validation. */
  ghost predicate AllAccepted(results: Reads, n: nat)
  {
    forall k :: 0 <= k < n ==> results(k).Ok?
  }

  lemma AppendAssoc<T>(a: seq<T>, b: seq<T>, c: seq<T>)
    ensures a + (b + c) == a + b + c
  {
  }

  /** How a poll cycle ends: after `accepted` good frames, either normally or
      because the next frame raised a validation error (the exception that
      leaves ReadData). */
  datatype PollEnd = Completed(accepted: nat) | Aborted(accepted: nat, error: FrameError)

  /** ReadData's loop from read i on, with the two flags it keeps. */
  function PollFrom(results: Reads, bound: nat, i: nat, gotTemp: bool, gotCo2: bool): PollEnd
    decreases bound - i
  {
    if i >= bound then Completed(i)
    else
      match results(i)
      case Err(e) => Aborted(i, e)
      case Ok(s) =>
        var t := gotTemp || s.code == CodeTemp;
        var c := gotCo2 || s.code == CodeCo2;
        if t && c then Completed(i + 1) else PollFrom(results, bound, i + 1, t, c)
  }

  /** One poll cycle of at most `bound` reads: the specification of ReadData. */
  function Poll(results: Reads, bound: nat): PollEnd
  {
    PollFrom(results, bound, 0, false, false)
  }

  /** A sample with the given code is among the first n reads. */
  predicate Seen(results: Reads, n: nat, code: bv8)
  {
    n > 0 && (Seen(results, n - 1, code) || (results(n - 1).Ok? && results(n - 1).value.code == code))
  }

  lemma {:induction false} SeenIff(results: Reads, n: nat, code: bv8)
    ensures Seen(results, n, code) <==> exists k :: 0 <= k < n && results(k).Ok? && results(k).value.code == code
  {
    if n > 0 {
      SeenIff(results, n - 1, code);
      if results(n - 1).Ok? && results(n - 1).value.code == code {
        assert 0 <= n - 1 < n;
      }
    }
  }

  /** Both a temperature sample and a CO2 sample are among the first n reads. */
  predicate SeenBoth(results: Reads, n: nat)
  {
    Seen(results, n, CodeTemp) && Seen(results, n, CodeCo2)
  }

  lemma {:induction false} SeenMonotone(results: Reads, m: nat, n: nat, code: bv8)
    requires m <= n
    ensures Seen(results, m, code) ==> Seen(results, n, code)
    decreases n - m
  {
    if m < n {
      SeenMonotone(results, m, n - 1, code);
    }
  }

  lemma {:induction false} PollFromSpec(results: Reads, bound: nat, i: nat, gotTemp: bool, gotCo2: bool)
    requires i <= bound && AllAccepted(results, i)
    requires gotTemp == Seen(results, i, CodeTemp) && gotCo2 == Seen(results, i, CodeCo2)
    requires !(gotTemp && gotCo2)
    ensures match PollFrom(results, bound, i, gotTemp, gotCo2)
      case Completed(n) =>
        i <= n <= bound && AllAccepted(results, n) && (n < bound ==> SeenBoth(results, n)) &&
        (n > 0 ==> !SeenBoth(results, n - 1))
      case Aborted(k, e) =>
        i <= k < bound && AllAccepted(results, k) && results(k) == Err(e) && !SeenBoth(results, k)
    decreases bound - i
  {
    if i > 0 {
      SeenMonotone(results, i - 1, i, CodeTemp);
      SeenMonotone(results, i - 1, i, CodeCo2);
    }
    if i < bound && results(i).Ok? {
      var code := results(i).value.code;
      var t := gotTemp || code == CodeTemp;
      var c := gotCo2 || code == CodeCo2;
      assert t == Seen(results, i + 1, CodeTemp) && c == Seen(results, i + 1, CodeCo2);
      if !(t && c) {
        PollFromSpec(results, bound, i + 1, t, c);
      }
    }
  }

  /** A cycle that completes has read only good frames, at most `bound` of
      them, and stopped at the first read after which both a temperature and
      a CO2 frame had been seen (or at the bound, if that never happened). */
  lemma PollCompleted(results: Reads, bound: nat, n: nat)
    requires Poll(results, bound) == Completed(n)
    ensures n <= bound && AllAccepted(results, n)
    ensures n < bound ==> SeenBoth(results, n)
    ensures n > 0 ==> !SeenBoth(results, n - 1)
  {
    PollFromSpec(results, bound, 0, false, false);
  }

  /** A cycle that aborts does so at the first bad frame, within the bound,
      before both kinds of reading were seen, with that frame's error. */
  lemma PollAborted(results: Reads, bound: nat, k: nat, e: FrameError)
    requires Poll(results, bound) == Aborted(k, e)
    ensures k < bound && AllAccepted(results, k) && results(k) == Err(e)
    ensures !SeenBoth(results, k)
  {
    PollFromSpec(results, bound, 0, false, false);
  }

  /** With only good frames within the bound, a cycle never aborts. */
  lemma PollWithGoodFrames(results: Reads, bound: nat)
    requires AllAccepted(results, bound)
    ensures Poll(results, bound).Completed?
  {
    PollFromSpec(results, bound, 0, false, false);
  }

  /** A cycle that ends before the bound has refreshed both slots, with
      readings taken from frames of this cycle. */
  lemma EarlyEndRefreshesBoth(log: seq<Sample>, results: Reads, bound: nat, n: nat)
    requires Poll(results, bound) == Completed(n) && n < bound
    ensures var after := log + Samples(results, n);
      (exists k :: 0 <= k < n && results(k).Ok? &&
        LatestCo2(after) == Some(Reading(results(k).value.value, results(k).value.time))) &&
      (exists k :: 0 <= k < n && results(k).Ok? &&
        LatestTemp(after) == Some(Reading(Celsius(results(k).value.value), results(k).value.time)))
  {
    PollCompleted(results, bound, n);
    FreshestFromCycle(log, results, n, CodeCo2);
    FreshestFromCycle(log, results, n, CodeTemp);
  }

  lemma FreshestFromCycle(log: seq<Sample>, results: Reads, n: nat, code: bv8)
    requires AllAccepted(results, n) && Seen(results, n, code)
    ensures var after := log + Samples(results, n);
      exists k :: 0 <= k < n && results(k).Ok? && Latest(after, code) == Some(|log| + k) &&
        after[|log| + k] == results(k).value
  {
    SeenIff(results, n, code);
    var k :| 0 <= k < n && results(k).Ok? && results(k).value.code == code;
    var after := log + Samples(results, n);
    assert after[|log| + k] == results(k).value;
    var j := Latest(after, code).value;
    assert j >= |log| + k;
    assert after[j] == results(j - |log|).value;
  }

  /** One pass of the monitor thread's loop body. */
  datatype TaskStep = Exited | Polled(outcome: PollEnd)

  class Co2meter {
    /** Co2meter::co2, the latest CO2 reading in ppm. */
    var co2: Option<Reading<int>>
    /** Co2meter::temperature, the latest temperature in degrees Celsius. */
    var temperature: Option<Reading<real>>
    /** thread_monitoring is non-null: a monitor thread has been started and
        not yet stopped. */
    var monitoring: bool
    /** thread_stop_signal.data */
    var stopSignal: bool
    /** Every frame ReadDataRaw has accepted, oldest first. */
    ghost var log: seq<Sample>
    /** The number of monitor threads started so far. */
    ghost var launches: nat

    /** Each slot holds the most recent accepted reading of its kind, and
        nothing that failed validation. */
    ghost predicate Valid()
      reads this
    {
      co2 == LatestCo2(log) && temperature == LatestTemp(log)
    }

    /** Both slots are default-constructed empty; no monitor runs. */
    constructor ()
      ensures Valid() && log == [] && launches == 0
      ensures co2 == None && temperature == None && !monitoring && !stopSignal
    {
      co2, temperature := None, None;
      monitoring, stopSignal := false, false;
      log, launches := [], 0;
    }

    /** Co2meter::ReadDataRaw after the HID read: `raw` is the frame read and
        `now` the time stamp. A rejected frame changes nothing; an accepted
        one replaces exactly the slot its code names, or none, and the code
        is returned. */
    method ReadDataRaw(raw: Frame, now: Time) returns (code: Result<bv8, FrameError>)
      requires Valid()
      modifies this`co2, this`temperature, this`log
      ensures Valid()
      ensures var r := Read(raw, now);
        (r.Ok? ==> code == Ok(r.value.code)) && (r.Err? ==> code == Err(r.error))
      ensures log == old(log) + Accepted(Read(raw, now))
      ensures var r := Read(raw, now);
        co2 == if r.Ok? && r.value.code == CodeCo2 then Some(Reading(r.value.value, now)) else old(co2)
      ensures var r := Read(raw, now);
        temperature == if r.Ok? && r.value.code == CodeTemp then Some(Reading(Celsius(r.value.value), now))
          else old(temperature)
    {
      var decrypted := Decrypt(raw);
      var checksum := decrypted[3];
      var sum := Checksum(decrypted);
      if decrypted[4] != Marker {
        return Err(MarkerMismatch(decrypted[4], decrypted));
      } else if checksum != sum {
        return Err(ChecksumMismatch(checksum, sum, decrypted));
      }
      var c := decrypted[0];
      var value := Payload(decrypted);
      if c == CodeTemp {
        temperature := Some(Reading(Celsius(value), now));
      } else if c == CodeCo2 {
        co2 := Some(Reading(value, now));
      }
      LatestAppend(log, Sample(c, value, now), CodeCo2);
      LatestAppend(log, Sample(c, value, now), CodeTemp);
      log := log + [Sample(c, value, now)];
      return Ok(c);
    }

    /** Co2meter::ReadData: up to `maxRequests` reads, stopping once a
        temperature and a CO2 frame have both been seen; a validation error
        ends the cycle (the exception propagates), keeping what earlier
        frames stored. */
    method ReadData(maxRequests: int32, device: nat -> Frame, clock: nat -> Time) returns (outcome: PollEnd)
      requires Valid()
      modifies this`co2, this`temperature, this`log
      ensures Valid()
      ensures outcome == Poll(ReadsOf(device, clock), ReadBound(maxRequests))
      ensures log == old(log) + Samples(ReadsOf(device, clock), outcome.accepted)
    {
      outcome := PollCycle(ReadBound(maxRequests), device, clock, ReadsOf(device, clock));
    }

    /** The loop of ReadData. `results` is ghost: it names what ReadDataRaw
        makes of each read, so that the contract can speak of the cycle
        without decrypting every frame again. */
    method PollCycle(bound: nat, device: nat -> Frame, clock: nat -> Time, ghost results: Reads) returns (outcome: PollEnd)
      requires Valid()
      requires forall k: nat {:trigger device(k)} :: results(k) == Read(device(k), clock(k))
      modifies this`co2, this`temperature, this`log
      ensures Valid()
      ensures outcome == Poll(results, bound)
      ensures log == old(log) + Samples(results, outcome.accepted)
    {
      var gotTemp, gotCo2 := false, false;
      var i: nat := 0;
      while i < bound
        invariant i <= bound && !(gotTemp && gotCo2)
        invariant Valid()
        invariant log == old(log) + Samples(results, i)
        invariant Poll(results, bound) == PollFrom(results, bound, i, gotTemp, gotCo2)
        decreases bound - i
      {
        var code := ReadDataRaw(device(i), clock(i));
        AppendAssoc(old(log), Samples(results, i), Accepted(results(i)));
        if code.Err? {
          return Aborted(i, code.error);
        }
        if code.value == CodeTemp {
          gotTemp := true;
        } else if code.value == CodeCo2 {
          gotCo2 := true;
        }
        i := i + 1;
        if gotTemp && gotCo2 {
          return Completed(i);
        }
      }
      return Completed(i);
    }

    /** One pass of the loop the monitor thread runs: check the stop flag,
        else run a poll cycle with the default bound. The sleep that follows
        is not modelled. An Aborted cycle is an exception escaping the thread
        function, which ends the process. */
    method MonitorIteration(device: nat -> Frame, clock: nat -> Time) returns (step: TaskStep)
      requires Valid() && monitoring
      modifies this`co2, this`temperature, this`log
      ensures Valid()
      ensures old(stopSignal) ==> step == Exited && log == old(log)
      ensures !old(stopSignal) ==>
        step == Polled(Poll(ReadsOf(device, clock), ReadBound(DefaultMaxRequests))) &&
        log == old(log) + Samples(ReadsOf(device, clock), step.outcome.accepted)
    {
      if stopSignal {
        return Exited;
      }
      var outcome := ReadData(DefaultMaxRequests, device, clock);
      return Polled(outcome);
    }

    /** Co2meter::StartMonitoring: a no-op while a monitor exists; otherwise
        starts one. The observation cycle only sets the sleep between passes. */
    method StartMonitoring(observationCycle: int)
      modifies this`monitoring, this`launches
      ensures monitoring
      ensures launches == old(launches) + (if old(monitoring) then 0 else 1)
    {
      if monitoring {
        return;
      }
      monitoring := true;
      launches := launches + 1;
    }

    /** Co2meter::StopMonitoring: a no-op without a monitor; otherwise raises
        the stop flag, waits for the thread (which exits at its next check of
        the flag), then lowers the flag and clears the handle. */
    method StopMonitoring()
      modifies this`monitoring, this`stopSignal
      ensures !monitoring
      ensures old(monitoring) ==> !stopSignal
      ensures !old(monitoring) ==> stopSignal == old(stopSignal)
    {
      if !monitoring {
        return;
      }
      stopSignal := true;
      stopSignal := false;
      monitoring := false;
    }

    /** Co2meter::GetCo2: a copy of the CO2 slot. */
    method GetCo2() returns (r: Option<Reading<int>>)
      requires Valid()
      ensures r == LatestCo2(log)
    {
      r := co2;
    }

    /** Co2meter::GetTemp: a copy of the temperature slot. */
    method GetTemp() returns (r: Option<Reading<real>>)
      requires Valid()
      ensures r == LatestTemp(log)
    {
      r := temperature;
    }
  }
}
