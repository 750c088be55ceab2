/** The timestamp conversion of the packet driver (time_calls.h): system time and performance
    counter turned into seconds and microseconds. */
module Timestamps {

  /** struct timeval. */
  datatype Timeval = Timeval(sec: int, usec: int)

  datatype Mode = SingleSynchronization | SynchronizationWithFixup | SynchronizationNoFixup | QuerySystemTime

  const MAX_CPUS := 32

  /** Seconds from 1601 to 1970. */
  const EPOCH := 11644473600

  /** Conversion to a 32-bit LONG and to a 64-bit LONGLONG. */
  function Long(x: int): int {
    (x + 0x8000_0000) % 0x1_0000_0000 - 0x8000_0000
  }

  function LongLong(x: int): int {
    (x + 0x8000_0000_0000_0000) % 0x1_0000_0000_0000_0000 - 0x8000_0000_0000_0000
  }

  // ---------------------------------------------------------------- what the time should be

  /** System time counts tenths of microseconds since 1601; here, microseconds since 1970. */
  function Micros(system: nat): int {
    system / 10 - EPOCH * 1000000
  }

  /** The performance counter in microseconds. */
  function Ticks(counter: nat, freq: nat): nat
    requires freq > 0
  {
    counter * 1000000 / freq
  }

  /** The timeval of a number of microseconds: floor and remainder, the seconds in a LONG. */
  function FromMicros(total: int): Timeval {
    Timeval(Long(total / 1000000), total % 1000000)
  }

  function ToMicros(t: Timeval): int {
    t.sec * 1000000 + t.usec
  }

  /** The counter frequencies for which the 64-bit products do not overflow. */
  predicate Frequency(freq: nat) {
    0 < freq <= 9223372036855
  }

  // ---------------------------------------------------------------- arithmetic

  lemma DivUnique(x: int, q: int, r: int, f: nat)
    requires f > 0 && x == q * f + r && 0 <= r < f
    ensures x / f == q && x % f == r
  {
    var p, s := x / f, x % f;
    assert x == p * f + s;
    if p > q {
      assert (p - q) * f >= f by { Scaled(p - q, f); }
    } else if p < q {
      assert (q - p) * f >= f by { Scaled(q - p, f); }
    }
  }

  lemma Scaled(k: int, f: nat)
    requires k >= 1
    ensures k * f >= f
  {
    NotNegative(k - 1, f);
    Distribute(k - 1, 1, f);
  }

  /** Dividing the counter first and scaling the remainder loses nothing. */
  lemma TicksSplit(counter: nat, freq: nat)
    requires freq > 0
    ensures 0 <= counter % freq * 1000000 / freq < 1000000
    ensures Ticks(counter, freq) == counter / freq * 1000000 + counter % freq * 1000000 / freq
  {
    var q, r := counter / freq, counter % freq;
    var u, v := r * 1000000 / freq, r * 1000000 % freq;
    ScaleQuotient(counter, q, r, u, v, freq);
    DivUnique(counter * 1000000, q * 1000000 + u, v, freq);
    QuotientBound(r, u, v, freq);
  }

  lemma ScaleQuotient(counter: nat, q: int, r: int, u: int, v: int, f: nat)
    requires counter == q * f + r && r * 1000000 == u * f + v
    ensures counter * 1000000 == (q * 1000000 + u) * f + v
  {
    assert (q * 1000000 + u) * f == q * 1000000 * f + u * f by { Distribute(q * 1000000, u, f); }
    assert q * 1000000 * f == 1000000 * (q * f) by { Associate(q, f); }
  }

  lemma Associate(q: int, f: int)
    ensures q * 1000000 * f == 1000000 * (q * f)
  {
  }

  lemma QuotientBound(r: int, u: int, v: int, f: nat)
    requires f > 0 && 0 <= r < f && r * 1000000 == u * f + v && 0 <= v < f
    ensures 0 <= u < 1000000
  {
    MulOrder(u, -1, f);
    MulOrder(1000000, u, f);
  }

  lemma MulOrder(a: int, b: int, f: nat)
    ensures a <= b ==> a * f <= b * f
  {
    if a <= b {
      NotNegative(b - a, f);
      Distribute(b - a, a, f);
    }
  }

  lemma NotNegative(k: int, f: int)
    requires k >= 0 && f >= 0
    ensures k * f >= 0
  {
  }

  lemma MicrosSplit(system: nat)
    ensures Micros(system) == (system / 10000000 - EPOCH) * 1000000 + system % 10000000 / 10
    ensures 0 <= system % 10000000 / 10 < 1000000
  {
    var q, r := system / 10000000, system % 10000000;
    assert system == 10 * (1000000 * q + r / 10) + r % 10;
  }

  lemma {:induction false} LongAbsorbs(x: int, y: int)
    ensures Long(Long(x) + y) == Long(x + y)
  {
    var k := (x + 0x8000_0000) / 0x1_0000_0000;
    assert Long(x) == x - k * 0x1_0000_0000;
    var z := x + y + 0x8000_0000;
    assert z - k * 0x1_0000_0000 == (z / 0x1_0000_0000 - k) * 0x1_0000_0000 + z % 0x1_0000_0000;
  }

  lemma SmallProduct(r: nat, freq: nat)
    requires Frequency(freq) && r < freq
    ensures LongLong(r * 1000000) == r * 1000000
  {
  }

  /** The bound is sharp. */
  lemma FrequencyIff(freq: nat)
    requires freq > 0
    ensures Frequency(freq) <==> forall r: nat | r < freq :: LongLong(r * 1000000) == r * 1000000
  {
    if !Frequency(freq) {
      assert LongLong(9223372036855 * 1000000) != 9223372036855 * 1000000;
    }
  }

  // ---------------------------------------------------------------- the calendar

  /** The leap years of the Gregorian calendar. */
  predicate Leap(year: nat) {
    year % 4 == 0 && (year % 100 != 0 || year % 400 == 0)
  }

  /** The days of the years from 1601 up to `year`, without it. */
  function DaysBefore(year: nat): nat {
    if year <= 1601 then 0 else DaysBefore(year - 1) + if Leap(year - 1) then 366 else 365
  }

  lemma {:induction false} DaysCounted(year: nat)
    requires year >= 1601
    ensures DaysBefore(year) == 365 * (year - 1601) + LeapsThrough(year - 1) - LeapsThrough(1600)
  {
    hide LeapsThrough, Leap;
    if year > 1601 {
      DaysCounted(year - 1);
      LeapAdds(year - 2);
    }
  }

  function LeapsThrough(n: nat): int {
    n / 4 - n / 100 + n / 400
  }

  lemma LeapAdds(n: nat)
    ensures LeapsThrough(n + 1) == LeapsThrough(n) + if Leap(n + 1) then 1 else 0
  {
    StepQuotient(n, 4);
    StepQuotient(n, 100);
    StepQuotient(n, 400);
    MultipleOf((n + 1) / 400, 4, 100);
    MultipleOf((n + 1) / 100, 25, 4);
    assert (n + 1) % 400 == 0 ==> n + 1 == 400 * ((n + 1) / 400);
    assert (n + 1) % 100 == 0 ==> n + 1 == 100 * ((n + 1) / 100);
  }

  lemma StepQuotient(n: nat, k: nat)
    requires k == 4 || k == 100 || k == 400
    ensures (n + 1) / k == n / k + if (n + 1) % k == 0 then 1 else 0
  {
  }

  lemma MultipleOf(q: nat, a: nat, b: nat)
    requires (a == 4 && b == 100) || (a == 25 && b == 4)
    ensures a * b * q % b == 0
  {
    assert a == 4 ==> a * b * q == 100 * (4 * q);
    assert a == 25 ==> a * b * q == 4 * (25 * q);
  }

  /** The constant is the number of seconds from the beginning of 1601 to that of 1970; so the
      system time that the driver subtracts elsewhere (line 265) is 0. */
  lemma EpochIsCalendar()
    ensures EPOCH == DaysBefore(1970) * 24 * 60 * 60
    ensures FromMicros(Micros(116444736000000000)) == Timeval(0, 0)
  {
    hide DaysBefore;
    DaysCounted(1970);
  }

  // ---------------------------------------------------------------- the clock

  /** Earlier or equal, as GetTimeKQPC compares. */
  predicate Before(a: Timeval, b: Timeval) {
    a.sec < b.sec || (a.sec == b.sec && a.usec <= b.usec)
  }

  function Later(a: Timeval, b: Timeval): Timeval {
    if Before(a, b) then b else a
  }

  /** One look at both clocks on one processor. */
  datatype Sample = Sample(system: nat, counter: nat)

  /** What a read at `counter` yields before any fix-up, after a synchronization at `sync`. */
  function Reading(sync: Sample, counter: nat, freq: nat): Timeval
    requires freq > 0
  {
    FromMicros(Micros(sync.system) - Ticks(sync.counter, freq) + Ticks(counter, freq))
  }

  /** The time at which the counter was 0, as one look at both clocks has it. */
  ghost predicate SyncedAt(t: Timeval, now: Sample, freq: nat)
    requires freq > 0
  {
    t == FromMicros(Micros(now.system) - Ticks(now.counter, freq))
  }

  class Clock {
    const mode: Mode
    const start: array<Timeval>
    var reference: nat
    var oldTs: Timeval

    ghost predicate Valid()
      reads this
    {
      start.Length == MAX_CPUS
    }

    constructor (mode: Mode)
      ensures this.mode == mode && fresh(start) && Valid() && start.Length == 32
      ensures reference == 0 && oldTs == Timeval(0, 0)
    {
      this.mode := mode;
      start := new Timeval[MAX_CPUS](_ => Timeval(0, 0));
      reference, oldTs := 0, Timeval(0, 0);
    }

    /** SynchronizeOnCpu: the time at which the counter was 0. */
    method SynchronizeOnCpu(cpu: nat, now: Sample, freq: nat)
      requires cpu < start.Length && Frequency(freq)
      modifies start
      ensures start[cpu] == FromMicros(Micros(now.system) - Ticks(now.counter, freq))
      ensures forall i | 0 <= i < start.Length && i != cpu :: start[i] == old(start[i])
    {
      hide Long, LongLong, Ticks, Micros;
      var sec := Long(now.system / 10000000 - EPOCH);
      var usec := Long(now.system % 10000000 / 10);
      sec := Long(sec - now.counter / freq);
      usec := usec - Long(LongLong(now.counter % freq * 1000000) / freq);
      if usec < 0 {
        sec := Long(sec - 1);
        usec := usec + 1000000;
      }
      start[cpu] := Timeval(sec, usec);
      StartIs(now, freq);
    }

    /** TIME_SYNCHRONIZE: every processor in turn, or the first only, with what its own clocks
        show at that moment. */
    method TimeSynchronize(cpus: nat, samples: seq<Sample>, freq: nat)
      requires Valid() && 0 < cpus <= MAX_CPUS && |samples| == cpus && Frequency(freq)
      modifies this`reference, start
      ensures reference != 0
      ensures old(reference) != 0 ==> reference == old(reference) && start[..] == old(start[..])
      ensures old(reference) == 0 && mode.SingleSynchronization? ==> SyncedAt(start[0], samples[0], freq)
      ensures old(reference) == 0 && (mode.SynchronizationWithFixup? || mode.SynchronizationNoFixup?) ==>
                forall i | 0 <= i < cpus :: SyncedAt(start[i], samples[i], freq)
    {
      hide FromMicros, Ticks, Micros;
      if reference != 0 {
        return;
      }
      if mode.SynchronizationWithFixup? || mode.SynchronizationNoFixup? {
        for i := 0 to cpus
          invariant forall k | 0 <= k < i ::
                      start[k] == FromMicros(Micros(samples[k].system) - Ticks(samples[k].counter, freq))
        {
          SynchronizeOnCpu(i, samples[i], freq);
        }
      } else if !mode.QuerySystemTime? {
        SynchronizeOnCpu(0, samples[0], freq);
      }
      reference := 1;
    }

    /** GetTimeKQPC on processor `cpu`.  With fix-up the result is never earlier than any
        before it. */
    method GetTimeKQPC(counter: nat, freq: nat, cpu: nat, ghost sync: Sample) returns (dst: Timeval)
      requires Valid() && cpu < MAX_CPUS && Frequency(freq)
      requires start[if PerCpu(mode) then cpu else 0] == FromMicros(Micros(sync.system) - Ticks(sync.counter, freq))
      modifies this`oldTs
      ensures mode.SynchronizationWithFixup? ==> dst == oldTs == Later(old(oldTs), Reading(sync, counter, freq))
      ensures !mode.SynchronizationWithFixup? ==> oldTs == old(oldTs) && dst == Reading(sync, counter, freq)
    {
      hide Long, LongLong, Ticks, Micros, FromMicros;
      var s := start[if PerCpu(mode) then cpu else 0];
      var sec := Long(s.sec + Long(counter / freq));
      var usec := s.usec + Long(LongLong(counter % freq * 1000000) / freq);
      if usec >= 1000000 {
        sec, usec := Long(sec + 1), usec - 1000000;
      }
      dst := Timeval(sec, usec);
      ReadIs(Micros(sync.system) - Ticks(sync.counter, freq), counter, freq);
      if mode.SynchronizationWithFixup? {
        if oldTs.sec > dst.sec || (oldTs.sec == dst.sec && oldTs.usec > dst.usec) {
          dst := oldTs;
        } else {
          oldTs := dst;
        }
      }
    }

    /** GET_TIME: each mode has its own source.  The single synchronization is that of the first
        processor; the two other modes with a counter look at the processor they run on. */
    method GetTime(system: nat, counter: nat, freq: nat, cpu: nat, ghost syncs: seq<Sample>) returns (dst: Timeval)
      requires Valid() && cpu < MAX_CPUS == |syncs| && Frequency(freq)
      requires mode.SingleSynchronization? ==> SyncedAt(start[0], syncs[0], freq)
      requires mode.SynchronizationWithFixup? || mode.SynchronizationNoFixup? ==>
                 SyncedAt(start[cpu], syncs[cpu], freq)
      modifies this`oldTs
      ensures mode.QuerySystemTime? ==> dst == FromMicros(Micros(system))
      ensures mode.SingleSynchronization? ==> dst == Reading(syncs[0], counter, freq)
      ensures mode.SynchronizationNoFixup? ==> dst == Reading(syncs[cpu], counter, freq)
      ensures mode.SynchronizationWithFixup? ==> dst == oldTs == Later(old(oldTs), Reading(syncs[cpu], counter, freq))
      ensures !mode.SynchronizationWithFixup? ==> oldTs == old(oldTs)
    {
      hide Reading, FromMicros, Micros, Ticks, Later;
      if mode.QuerySystemTime? {
        dst := GetTimeQST(system);
      } else {
        dst := GetTimeKQPC(counter, freq, cpu, syncs[if PerCpu(mode) then cpu else 0]);
      }
    }

    /** Any sequence of reads, each on any processor, in fix-up mode: the results are the
        readings fixed up one after the other, and time never goes backwards. */
    method ReadAll(calls: seq<Read>, freq: nat, ghost syncs: seq<Sample>) returns (out: seq<Timeval>)
      requires Valid() && mode.SynchronizationWithFixup? && Frequency(freq) && |syncs| == MAX_CPUS
      requires forall r | r in calls :: r.cpu < MAX_CPUS
      requires forall i | 0 <= i < MAX_CPUS ::
                 start[i] == FromMicros(Micros(syncs[i].system) - Ticks(syncs[i].counter, freq))
      modifies this`oldTs
      ensures out == FixedUp(old(oldTs), Readings(syncs, calls, freq))
      ensures forall i, j | 0 <= i <= j < |out| :: Before(out[i], out[j])
      ensures forall i | 0 <= i < |out| :: Before(old(oldTs), out[i])
    {
      hide Reading, FromMicros, Micros, Ticks, Before, Later;
      ghost var raw := Readings(syncs, calls, freq);
      out := [];
      for k := 0 to |calls|
        invariant out + FixedUp(oldTs, raw[k..]) == FixedUp(old(oldTs), raw)
      {
        var dst := GetTimeKQPC(calls[k].counter, freq, calls[k].cpu, syncs[calls[k].cpu]);
        assert raw[k..][1..] == raw[k + 1..];
        assert out + ([dst] + FixedUp(oldTs, raw[k + 1..])) == out + [dst] + FixedUp(oldTs, raw[k + 1..]);
        out := out + [dst];
      }
      assert out + FixedUp(oldTs, []) == out && raw[|calls|..] == [];
      forall i, j | 0 <= i <= j < |out| ensures Before(out[i], out[j]) {
        FixedUpNeverGoesBack(old(oldTs), raw, i, j);
      }
      forall i | 0 <= i < |out| ensures Before(old(oldTs), out[i]) {
        FixedUpIsRunningMaximum(old(oldTs), raw, i);
      }
    }
  }

  /** One read of the counter on one processor. */
  datatype Read = Read(counter: nat, cpu: nat)

  /** What the reads yield before any fix-up, processor `i` being synchronized at `syncs[i]`. */
  function Readings(syncs: seq<Sample>, calls: seq<Read>, freq: nat): (raw: seq<Timeval>)
    requires freq > 0 && forall r | r in calls :: r.cpu < |syncs|
    ensures |raw| == |calls|
    ensures forall i | 0 <= i < |calls| :: raw[i] == Reading(syncs[calls[i].cpu], calls[i].counter, freq)
  {
    seq(|calls|, i requires 0 <= i < |calls| => Reading(syncs[calls[i].cpu], calls[i].counter, freq))
  }

  predicate PerCpu(mode: Mode) {
    mode.SynchronizationWithFixup? || mode.SynchronizationNoFixup?
  }

  /** GetTimeQST: the system time itself. */
  method GetTimeQST(system: nat) returns (dst: Timeval)
    ensures dst == FromMicros(Micros(system))
  {
    hide Long, Micros;
    MicrosSplit(system);
    LongFits(system % 10000000 / 10);
    FromParts(system / 10000000 - EPOCH, system % 10000000 / 10);
    dst := Timeval(Long(system / 10000000 - EPOCH), Long(system % 10000000 / 10));
  }

  lemma LongFits(x: int)
    requires -0x8000_0000 <= x < 0x8000_0000
    ensures Long(x) == x
  {
  }

  lemma FromParts(sec: int, usec: int)
    requires 0 <= usec < 1000000
    ensures FromMicros(sec * 1000000 + usec) == Timeval(Long(sec), usec)
  {
    hide Long;
  }

  /** The arithmetic of SynchronizeOnCpu, borrow included. */
  lemma StartIs(now: Sample, freq: nat)
    requires Frequency(freq)
    ensures var sec := Long(Long(now.system / 10000000 - EPOCH) - now.counter / freq);
            var usec := Long(now.system % 10000000 / 10) - Long(LongLong(now.counter % freq * 1000000) / freq);
            FromMicros(Micros(now.system) - Ticks(now.counter, freq)) ==
                if usec < 0 then Timeval(Long(sec - 1), usec + 1000000) else Timeval(sec, usec)
  {
    hide Long, LongLong, Ticks, Micros, FromMicros;
    var a, m, q := now.system / 10000000 - EPOCH, now.system % 10000000 / 10, now.counter / freq;
    var u := now.counter % freq * 1000000 / freq;
    SmallProduct(now.counter % freq, freq);
    MicrosSplit(now.system);
    TicksSplit(now.counter, freq);
    LongFits(m);
    LongFits(u);
    LongAbsorbs(a, -q);
    LongAbsorbs(a - q, -1);
    if m - u < 0 {
      FromParts(a - q - 1, m - u + 1000000);
    } else {
      FromParts(a - q, m - u);
    }
  }

  /** The arithmetic of GetTimeKQPC, carry included. */
  lemma ReadIs(begin: int, counter: nat, freq: nat)
    requires Frequency(freq)
    ensures var s := FromMicros(begin);
            var sec := Long(s.sec + Long(counter / freq));
            var usec := s.usec + Long(LongLong(counter % freq * 1000000) / freq);
            FromMicros(begin + Ticks(counter, freq)) ==
                if usec >= 1000000 then Timeval(Long(sec + 1), usec - 1000000) else Timeval(sec, usec)
  {
    hide Long, LongLong, Ticks;
    var a, m, q := begin / 1000000, begin % 1000000, counter / freq;
    var u := counter % freq * 1000000 / freq;
    SmallProduct(counter % freq, freq);
    TicksSplit(counter, freq);
    LongFits(u);
    LongAbsorbs(q, Long(a));
    LongAbsorbs(a, q);
    LongAbsorbs(a + q, 1);
    assert Long(Long(a) + Long(q)) == Long(a + q);
    if m + u >= 1000000 {
      FromParts(a + q + 1, m + u - 1000000);
    } else {
      FromParts(a + q, m + u);
    }
  }

  // ---------------------------------------------------------------- what a reading means

  /** A timeval holds its number of microseconds, with a proper remainder, exactly until the
      LONG of its seconds overflows. */
  lemma TotalSurvivesIff(total: int)
    ensures 0 <= FromMicros(total).usec < 1000000
    ensures ToMicros(FromMicros(total)) == total <==> -0x8000_0000 <= total / 1000000 < 0x8000_0000
  {
    var q := total / 1000000;
    assert total == q * 1000000 + total % 1000000;
    var k := (q + 0x8000_0000) / 0x1_0000_0000;
    assert Long(q) == q - k * 0x1_0000_0000;
  }

  /** A read at the very count of the synchronization is the system time of that moment. */
  lemma ReadingAtSynchronization(sync: Sample, freq: nat)
    requires freq > 0
    ensures Reading(sync, sync.counter, freq) == FromMicros(Micros(sync.system))
  {
  }

  predicate InRange(sync: Sample, counter: nat, freq: nat)
    requires freq > 0
  {
    -0x8000_0000 <= (Micros(sync.system) - Ticks(sync.counter, freq) + Ticks(counter, freq)) / 1000000 < 0x8000_0000
  }

  /** A later count never gives an earlier time, and the time that passes between two reads is
      the time that the counter shows, rounded at both ends: off by less than a microsecond. */
  lemma ReadingFollowsCounter(sync: Sample, c: nat, d: nat, freq: nat)
    requires freq > 0 && c <= d && InRange(sync, c, freq) && InRange(sync, d, freq)
    ensures Before(Reading(sync, c, freq), Reading(sync, d, freq))
    ensures var passed := ToMicros(Reading(sync, d, freq)) - ToMicros(Reading(sync, c, freq));
            passed == Ticks(d - c, freq) || passed == Ticks(d - c, freq) + 1
  {
    hide Ticks, Micros, FromMicros, Before, ToMicros;
    var begin := Micros(sync.system) - Ticks(sync.counter, freq);
    TotalSurvivesIff(begin + Ticks(c, freq));
    TotalSurvivesIff(begin + Ticks(d, freq));
    TimevalsInOrderIff(begin + Ticks(c, freq), begin + Ticks(d, freq));
    TicksDifference(c, d, freq);
  }

  /** Timevals compare as their numbers of microseconds do. */
  lemma TimevalsInOrderIff(x: int, y: int)
    requires -0x8000_0000 <= x / 1000000 < 0x8000_0000 && -0x8000_0000 <= y / 1000000 < 0x8000_0000
    ensures Before(FromMicros(x), FromMicros(y)) <==> x <= y
  {
    LongFits(x / 1000000);
    LongFits(y / 1000000);
    hide Long;
    assert x == x / 1000000 * 1000000 + x % 1000000 && y == y / 1000000 * 1000000 + y % 1000000;
  }

  lemma TicksDifference(c: nat, d: nat, freq: nat)
    requires freq > 0 && c <= d
    ensures Ticks(d, freq) - Ticks(c, freq) - Ticks(d - c, freq) in {0, 1}
    ensures Ticks(c, freq) <= Ticks(d, freq)
  {
    FloorOfSum(c * 1000000, (d - c) * 1000000, freq);
  }

  lemma FloorOfSum(x: nat, y: nat, f: nat)
    requires f > 0
    ensures (x + y) / f == x / f + y / f || (x + y) / f == x / f + y / f + 1
    ensures y / f >= 0
  {
    var p, r, q, s := x / f, x % f, y / f, y % f;
    Distribute(p, q, f);
    if r + s < f {
      DivUnique(x + y, p + q, r + s, f);
    } else {
      Distribute(p + q, 1, f);
      DivUnique(x + y, p + q + 1, r + s - f, f);
    }
    MulOrder(q, -1, f);
  }

  lemma Distribute(p: int, q: int, f: int)
    ensures (p + q) * f == p * f + q * f
  {
  }

  // ---------------------------------------------------------------- the fix-up over many reads

  /** The results of a sequence of reads, whatever processor each is made on: every raw reading
      goes through the one `old_ts`. */
  function FixedUp(before: Timeval, raw: seq<Timeval>): (out: seq<Timeval>)
    ensures |out| == |raw|
    decreases |raw|
  {
    if raw == [] then [] else [Later(before, raw[0])] + FixedUp(Later(before, raw[0]), raw[1..])
  }

  /** Every result is the latest of `old_ts` and of all readings so far: none is later than the
      result, and the result is one of them. */
  lemma {:induction false} FixedUpIsRunningMaximum(before: Timeval, raw: seq<Timeval>, i: nat)
    requires i < |raw|
    ensures Before(before, FixedUp(before, raw)[i])
    ensures forall k | 0 <= k <= i :: Before(raw[k], FixedUp(before, raw)[i])
    ensures FixedUp(before, raw)[i] == before || FixedUp(before, raw)[i] in raw[..i + 1]
    decreases |raw|
  {
    var m := Later(before, raw[0]);
    assert raw[..i + 1] == [raw[0]] + raw[1..][..i];
    if i > 0 {
      FixedUpIsRunningMaximum(m, raw[1..], i - 1);
      var r := FixedUp(before, raw)[i];
      assert r == FixedUp(m, raw[1..])[i - 1];
      forall k | 0 <= k <= i ensures Before(raw[k], r) {
        if k > 0 {
          assert raw[k] == raw[1..][k - 1];
        }
      }
    }
  }

  /** With fix-up, no sequence of reads from any processors ever goes backwards. */
  lemma {:induction false} FixedUpNeverGoesBack(before: Timeval, raw: seq<Timeval>, i: nat, j: nat)
    requires i <= j < |raw|
    ensures Before(FixedUp(before, raw)[i], FixedUp(before, raw)[j])
    decreases |raw|
  {
    var m := Later(before, raw[0]);
    if i > 0 {
      FixedUpNeverGoesBack(m, raw[1..], i - 1, j - 1);
    } else if j > 0 {
      FixedUpIsRunningMaximum(m, raw[1..], j - 1);
    }
  }

  /** Readings that are in order already, and not before `old_ts`, pass unchanged. */
  lemma {:induction false} FixedUpKeepsOrder(before: Timeval, raw: seq<Timeval>)
    requires forall i | 0 <= i < |raw| :: Before(before, raw[i])
    requires forall i, j | 0 <= i <= j < |raw| :: Before(raw[i], raw[j])
    ensures FixedUp(before, raw) == raw
    decreases |raw|
  {
    if raw != [] {
      FixedUpKeepsOrder(raw[0], raw[1..]);
    }
  }

  // ---------------------------------------------------------------- and without the fix-up

  /** The microsecond at which the counter was 0, as a processor's synchronization has it. */
  function Start(sync: Sample, freq: nat): int
    requires freq > 0
  {
    Micros(sync.system) - Ticks(sync.counter, freq)
  }

  /** A read on processor `b` after one on processor `a` never goes backwards. */
  ghost predicate NeverBack(a: Sample, b: Sample, freq: nat)
    requires freq > 0
  {
    forall c: nat, d: nat | c <= d && InRange(a, c, freq) && InRange(b, d, freq) ::
      Before(Reading(a, c, freq), Reading(b, d, freq))
  }

  lemma ReadingsInOrderIff(a: Sample, b: Sample, c: nat, d: nat, freq: nat)
    requires freq > 0 && InRange(a, c, freq) && InRange(b, d, freq)
    ensures Before(Reading(a, c, freq), Reading(b, d, freq)) <==>
            Start(a, freq) + Ticks(c, freq) <= Start(b, freq) + Ticks(d, freq)
  {
    hide Ticks, Micros, FromMicros, Before;
    TimevalsInOrderIff(Start(a, freq) + Ticks(c, freq), Start(b, freq) + Ticks(d, freq));
  }

  /** Without fix-up, reads that move from one processor to another stay in order exactly if the
      first processor's start is not later than the second's.  (`c0` is a count at which neither
      has left the range of a LONG.) */
  lemma NeverBackIff(a: Sample, b: Sample, c0: nat, freq: nat)
    requires freq > 0 && InRange(a, c0, freq) && InRange(b, c0, freq)
    ensures NeverBack(a, b, freq) <==> Start(a, freq) <= Start(b, freq)
  {
    hide Reading, InRange, Start, Ticks, Before;
    ReadingsInOrderIff(a, b, c0, c0, freq);
    if Start(a, freq) <= Start(b, freq) {
      forall c: nat, d: nat | c <= d && InRange(a, c, freq) && InRange(b, d, freq)
        ensures Before(Reading(a, c, freq), Reading(b, d, freq))
      {
        TicksDifference(c, d, freq);
        ReadingsInOrderIff(a, b, c, d, freq);
      }
    }
  }

  /** So reads that move freely between two processors never go backwards exactly if their
      synchronizations agree to the microsecond. */
  lemma ProcessorsAgreeIff(a: Sample, b: Sample, c0: nat, freq: nat)
    requires freq > 0 && InRange(a, c0, freq) && InRange(b, c0, freq)
    ensures NeverBack(a, b, freq) && NeverBack(b, a, freq) <==> Start(a, freq) == Start(b, freq)
  {
    hide NeverBack, InRange, Start;
    NeverBackIff(a, b, c0, freq);
    NeverBackIff(b, a, c0, freq);
  }
}
