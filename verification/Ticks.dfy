/** Tick conversion, deadlines and clock resolution of path_timeout.h. */
module Ticks {
  import opened Bytes

  const NS: nat := 1_000_000_000
  const U64_MAX: nat := 0xFFFF_FFFF_FFFF_FFFF

  /** `r4_duration_to_ticks` for a non-zero rate; the product needs at most 96 bits. */
  function DurationToTicks(ns: nat, hz: nat): (ticks: nat)
    requires hz > 0
    ensures ticks <= U64_MAX
  {
    if ns == 0 then 0 else Min((ns * hz + NS - 1) / NS, U64_MAX)
  }

  /** `r4_timeout_deadline` for a finite timeout, and `r4_deadline_after`. */
  function Deadline(now: nat, ns: nat): (r: nat)
    requires now <= U64_MAX
    ensures r <= U64_MAX
  {
    if U64_MAX - now < ns then U64_MAX else now + ns
  }

  function RemainingTicks(deadline: nat, now: nat, hz: nat): nat
    requires hz > 0
  {
    DurationToTicks(if deadline > now then deadline - now else 0, hz)
  }

  /** `r4_monotonic_resolution_ns`: the length of a tick, rounded up. */
  function Resolution(hz: nat): nat {
    if hz == 0 then 0 else NS / hz + (if NS % hz != 0 then 1 else 0)
  }

  /** The ticks are the least number that covers the duration, or everything 64 bits can hold. */
  lemma TicksAreLeast(ns: nat, hz: nat)
    requires hz > 0
    ensures var t := DurationToTicks(ns, hz);
      && (t < U64_MAX ==> t * NS >= ns * hz)
      && forall s: nat {:trigger s * NS} :: s < t ==> s * NS < ns * hz
  {
  }

  /** The ticks that remain are the least sleep that reaches the deadline, and none once it has passed. */
  lemma RemainingIsLeast(deadline: nat, now: nat, hz: nat)
    requires hz > 0
    ensures var t := RemainingTicks(deadline, now, hz);
      && (deadline <= now ==> t == 0)
      && (t < U64_MAX ==> now * hz + t * NS >= deadline * hz)
      && (deadline > now ==> forall s: nat {:trigger s * NS} :: s < t ==> now * hz + s * NS < deadline * hz)
  {
    hide DurationToTicks;
    var left := if deadline > now then deadline - now else 0;
    TicksAreLeast(left, hz);
    NoDuration(hz);
    Distributes(deadline, now, hz);
    if deadline <= now {
      MulMonotone(deadline, hz, now, hz);
    }
  }

  lemma NoDuration(hz: nat)
    requires hz > 0
    ensures DurationToTicks(0, hz) == 0
  {
  }

  /** The resolution is the length of a tick, rounded up to whole nanoseconds. */
  lemma ResolutionIsLeast(hz: nat)
    ensures Resolution(0) == 0
    ensures hz > 0 ==> Resolution(hz) * hz >= NS && (Resolution(hz) - 1) * hz < NS
  {
    if hz > 0 {
      assert NS == NS / hz * hz + NS % hz;
      Distributes(NS / hz, 1, hz);
    }
  }

  lemma DeadlineSaturates(now: nat, ns: nat)
    requires now <= U64_MAX
    ensures Deadline(now, ns) == Min(now + ns, U64_MAX)
  {
  }

  lemma MulMonotone(a: nat, b: nat, c: nat, d: nat)
    requires a <= c && b <= d
    ensures a * b <= c * d
  {
  }

  /** Longer durations and faster clocks never need fewer ticks. */
  lemma TicksAreMonotone(ns: nat, hz: nat, ns': nat, hz': nat)
    requires 0 < hz <= hz' && ns <= ns'
    ensures DurationToTicks(ns, hz) <= DurationToTicks(ns', hz')
  {
    MulMonotone(ns, hz, ns', hz');
  }

  /** Sleeping the remaining ticks never ends before the deadline: not in exact time, where a tick
      lasts NS / hz, and not when every tick is counted with the rounded-up resolution. */
  lemma SleepReachesDeadline(deadline: nat, now: nat, hz: nat)
    requires hz > 0 && RemainingTicks(deadline, now, hz) < U64_MAX
    ensures var ticks := RemainingTicks(deadline, now, hz);
      && now * hz + ticks * NS >= deadline * hz
      && now + ticks * Resolution(hz) >= deadline
  {
  }

  /** The whole life of a finite timeout: a deadline that did not saturate, asked for at any later
      time, is reached by sleeping the remaining ticks. */
  lemma TimeoutIsNeverEarly(start: nat, ns: nat, now: nat, hz: nat)
    requires start + ns <= U64_MAX && start <= now && hz > 0
    requires RemainingTicks(Deadline(start, ns), now, hz) < U64_MAX
    ensures now + RemainingTicks(Deadline(start, ns), now, hz) * Resolution(hz) >= start + ns
  {
  }
}
