/** The timers of the GUI event loop in app_gui.h and the wait that sleeps between them. */
module EventTimers {
  import opened Bytes
  import opened Ticks

  datatype Timer = Timer(id: nat, deadline: nat, interval: nat, active: bool) {
    predicate Valid() { deadline <= U64_MAX && interval <= U64_MAX }
    predicate Due(now: nat) { active && now >= deadline }
  }

  /** `r4_timer_start`: a repeating timer has at least one tick between firings. */
  function Start(id: nat, now: nat, ticks: nat, repeating: bool): Timer {
    Timer(id, if U64_MAX - now < ticks then U64_MAX else now + ticks,
          if repeating then (if ticks == 0 then 1 else ticks) else 0, true)
  }

  /** How many whole intervals `x` holds. */
  function Quotient(x: nat, interval: nat): (q: nat)
    requires interval > 0
    ensures q * interval <= x < q * interval + interval
  {
    x / interval
  }

  /** The next deadline of a repeating timer that fires at `now`. */
  function Rearm(deadline: nat, interval: nat, now: nat): (r: nat)
    requires interval > 0 && deadline <= now <= U64_MAX
  {
    var periods := Quotient(now - deadline, interval) + 1;
    if periods > Quotient(U64_MAX - deadline, interval) then U64_MAX else deadline + periods * interval
  }

  function Fire(t: Timer, now: nat): Timer
    requires t.Valid() && t.Due(now) && now <= U64_MAX
  {
    if t.interval == 0 then t.(active := false) else t.(deadline := Rearm(t.deadline, t.interval, now))
  }

  ghost predicate OnGrid(base: nat, interval: nat, p: nat) { exists k: nat :: p == base + k * interval }

  lemma CloseMultiplesAreEqual(a: int, b: int, interval: int)
    requires interval > 0 && -interval < a * interval - b * interval < interval
    ensures a == b
  {
    Distributes(a, b, interval);
    SmallMultiple(a - b, interval);
  }

  /** Re-arming goes to the one grid point in (now, now + interval], or saturates beyond it. */
  lemma RearmIsTheNextGridPoint(deadline: nat, interval: nat, now: nat)
    requires interval > 0 && deadline <= now <= U64_MAX
    ensures var g := deadline + (Quotient(now - deadline, interval) + 1) * interval;
      && now < g <= now + interval
      && Rearm(deadline, interval, now) == (if g <= U64_MAX then g else U64_MAX)
  {
    hide Quotient;
    NextPoint(deadline, interval, now, Quotient(now - deadline, interval), Quotient(U64_MAX - deadline, interval));
  }

  /** The same with the quotients given: `q` periods have passed, `room` more fit 64 bits. */
  lemma NextPoint(deadline: nat, interval: nat, now: nat, q: nat, room: nat)
    requires interval > 0 && deadline <= now <= U64_MAX
    requires q * interval <= now - deadline < q * interval + interval
    requires room * interval <= U64_MAX - deadline < room * interval + interval
    ensures var g := deadline + (q + 1) * interval;
      && now < g <= now + interval
      && (if q + 1 > room then U64_MAX else g) == (if g <= U64_MAX then g else U64_MAX)
  {
    Distributes(q, 1, interval);
    Saturation(q + 1, room, interval, U64_MAX - deadline);
  }

  /** The overflow test of the source is exact: `periods` intervals exceed `space` just when
      `periods` exceeds the quotient. */
  lemma Saturation(periods: nat, room: nat, interval: nat, space: nat)
    requires interval > 0 && room * interval <= space < room * interval + interval
    ensures periods > room <==> periods * interval > space
  {
    Distributes(periods, room, interval);
    SmallMultiple(periods - room, interval);
  }

  lemma NextGridPointIsUnique(deadline: nat, interval: nat, now: nat, k: nat, l: nat)
    requires interval > 0
    requires now < deadline + k * interval <= now + interval && now < deadline + l * interval <= now + interval
    ensures k == l
  {
    CloseMultiplesAreEqual(k, l, interval);
  }

  // ------------------------------------------------------------------ whole runs of one timer

  /** A poll at `now`; it reaches the timer unless an earlier timer or an event came first. */
  datatype Poll = Poll(now: nat, reaches: bool)

  datatype Life = Life(timer: Timer, firings: seq<nat>)

  function Live(t: Timer, polls: seq<Poll>): (r: Life)
    requires t.Valid() && forall i :: 0 <= i < |polls| ==> polls[i].now < U64_MAX
    decreases |polls|
  {
    if polls == [] then Life(t, [])
    else if polls[0].reaches && t.Due(polls[0].now) then
      FireStaysValid(t, polls[0].now);
      var rest := Live(Fire(t, polls[0].now), polls[1..]);
      Life(rest.timer, [polls[0].now] + rest.firings)
    else Live(t, polls[1..])
  }

  lemma FireStaysValid(t: Timer, now: nat)
    requires t.Valid() && t.Due(now) && now <= U64_MAX
    ensures Fire(t, now).Valid()
  {
    if t.interval > 0 {
      RearmIsTheNextGridPoint(t.deadline, t.interval, now);
    }
  }

  /** The number of the period, counted from the first deadline, in which a time lies. */
  function Period(base: nat, interval: nat, now: nat): int
    requires interval > 0
  {
    (now - base) / interval
  }

  lemma PeriodsAdvance(base: nat, interval: nat, k: nat, now: nat)
    requires interval > 0 && now >= base + k * interval
    ensures Period(base, interval, now) >= k
  {
    var p := Period(base, interval, now);
    assert k * interval >= 0 by { MulNonNegative(k, interval); }
    assert p == Quotient(now - base, interval);
    hide Quotient, Period;
    Distributes(p, k, interval);
    SmallMultiple(p - k, interval);
  }

  lemma GridAfterFiring(base: nat, interval: nat, k: nat, now: nat)
    requires interval > 0 && base + k * interval <= now
    ensures var j := Quotient(now - (base + k * interval), interval) + 1;
      base + k * interval + j * interval == base + (Period(base, interval, now) + 1) * interval
  {
    var d := base + k * interval;
    assert k * interval >= 0 by { MulNonNegative(k, interval); }
    var q, p := Quotient(now - d, interval), Period(base, interval, now);
    assert p == Quotient(now - base, interval);
    hide Quotient, Period;
    Distributes(k, q, interval);
    CloseMultiplesAreEqual(k + q, p, interval);
    Distributes(p, 1, interval);
    Distributes(q, 1, interval);
  }

  /** No drift and no double firing: over any run of polls on a monotone clock, a repeating timer
      stays on the grid of its first deadline or saturates, and its firings lie in ever later
      periods. */
  lemma {:induction false} FiringsFollowTheGrid(base: nat, t: Timer, k: nat, polls: seq<Poll>)
    requires t.Valid() && t.active && t.interval > 0
    requires t.deadline == U64_MAX || t.deadline == base + k * t.interval
    requires forall i :: 0 <= i < |polls| ==> polls[i].now < U64_MAX
    requires forall i, j :: 0 <= i < j < |polls| ==> polls[i].now <= polls[j].now
    ensures var r := Live(t, polls);
      && r.timer.active && r.timer.interval == t.interval
      && (r.timer.deadline == U64_MAX || OnGrid(base, t.interval, r.timer.deadline))
      && (r.firings != [] ==> t.deadline < U64_MAX)
      && (forall i :: 0 <= i < |r.firings| ==> Period(base, t.interval, r.firings[i]) >= k)
      && (forall i, j :: 0 <= i < j < |r.firings| ==>
            Period(base, t.interval, r.firings[i]) < Period(base, t.interval, r.firings[j]))
    decreases |polls|
  {
    if polls == [] {
    } else if polls[0].reaches && t.Due(polls[0].now) {
      var now := polls[0].now;
      var next := Fire(t, now);
      var p := Period(base, t.interval, now);
      FireStaysValid(t, now);
      RearmIsTheNextGridPoint(t.deadline, t.interval, now);
      GridAfterFiring(base, t.interval, k, now);
      PeriodsAdvance(base, t.interval, k, now);
      FiringsFollowTheGrid(base, next, p + 1, polls[1..]);
    } else {
      FiringsFollowTheGrid(base, t, k, polls[1..]);
    }
  }

  // ------------------------------------------------------------------ polling

  ghost predicate AllValid(timers: seq<Timer>) { forall i :: 0 <= i < |timers| ==> timers[i].Valid() }

  /** The timer part of `r4_event_loop_poll`: fires the first timer that is due, and only it. */
  method PollTimers(timers: array<Timer>, now: nat) returns (fired: int)
    requires AllValid(timers[..]) && now <= U64_MAX
    modifies timers
    ensures -1 <= fired < timers.Length && AllValid(timers[..])
    ensures fired == -1 ==> timers[..] == old(timers[..]) && forall i :: 0 <= i < timers.Length ==> !timers[i].Due(now)
    ensures fired >= 0 ==>
      && old(timers[fired]).Due(now) && (forall i :: 0 <= i < fired ==> !old(timers[i]).Due(now))
      && timers[..] == old(timers[..])[fired := Fire(old(timers[fired]), now)]
  {
    var i := 0;
    while i < timers.Length
      invariant i <= timers.Length && timers[..] == old(timers[..])
      invariant forall k :: 0 <= k < i ==> !timers[k].Due(now)
    {
      if timers[i].active && now >= timers[i].deadline {
        FireStaysValid(timers[i], now);
        timers[i] := Fire(timers[i], now);
        return i;
      }
      i := i + 1;
    }
    return -1;
  }

  // ------------------------------------------------------------------ whole runs of all timers

  /** What one poll does to all timers: the first due one fires, if there is one. */
  ghost predicate Polled(before: seq<Timer>, now: nat, fired: int, after: seq<Timer>)
    requires AllValid(before) && now <= U64_MAX
  {
    && -1 <= fired < |before|
    && (fired == -1 ==> after == before && forall i :: 0 <= i < |before| ==> !before[i].Due(now))
    && (fired >= 0 ==>
          && before[fired].Due(now) && (forall i :: 0 <= i < fired ==> !before[i].Due(now))
          && after == before[fired := Fire(before[fired], now)])
  }

  /** The states of the timers in a run of polls, and which timer fired in each. */
  ghost predicate IsPollRun(states: seq<seq<Timer>>, nows: seq<nat>, fired: seq<int>) {
    && |states| == |nows| + 1 && |fired| == |nows|
    && (forall j :: 0 <= j < |nows| ==> nows[j] < U64_MAX && AllValid(states[j]))
    && forall j :: 0 <= j < |nows| ==> Polled(states[j], nows[j], fired[j], states[j + 1])
  }

  /** Polls the timers once at each time given. */
  method PollRun(timers: array<Timer>, nows: seq<nat>) returns (fired: seq<int>, ghost states: seq<seq<Timer>>)
    requires AllValid(timers[..]) && forall j :: 0 <= j < |nows| ==> nows[j] < U64_MAX
    modifies timers
    ensures IsPollRun(states, nows, fired) && states[0] == old(timers[..]) && states[|nows|] == timers[..]
  {
    fired, states := [], [timers[..]];
    for j := 0 to |nows|
      invariant AllValid(timers[..]) && |states| == j + 1 && |fired| == j
      invariant states[0] == old(timers[..]) && states[j] == timers[..]
      invariant forall k :: 0 <= k < j ==> AllValid(states[k]) && Polled(states[k], nows[k], fired[k], states[k + 1])
    {
      var f := PollTimers(timers, nows[j]);
      assert Polled(states[j], nows[j], f, timers[..]);
      fired, states := fired + [f], states + [timers[..]];
    }
  }

  /** The polls as timer `i` sees them: one in which an earlier timer fires does not reach it. */
  function PollsFor(i: nat, nows: seq<nat>, fired: seq<int>): (r: seq<Poll>)
    requires |nows| == |fired|
    ensures |r| == |nows| && forall j :: 0 <= j < |r| ==> r[j].now == nows[j]
  {
    if nows == [] then []
    else [Poll(nows[0], fired[0] < 0 || i <= fired[0])] + PollsFor(i, nows[1..], fired[1..])
  }

  /** The times at which timer `i` fired. */
  function FiringsOf(i: nat, nows: seq<nat>, fired: seq<int>): seq<nat>
    requires |nows| == |fired|
  {
    if nows == [] then [] else (if fired[0] == i then [nows[0]] else []) + FiringsOf(i, nows[1..], fired[1..])
  }

  /** In a run of polls every timer lives its own life. */
  lemma {:induction false} TimerLives(states: seq<seq<Timer>>, nows: seq<nat>, fired: seq<int>, i: nat)
    requires IsPollRun(states, nows, fired) && i < |states[0]| && AllValid(states[0])
    ensures i < |states[|nows|]|
    ensures Live(states[0][i], PollsFor(i, nows, fired)) == Life(states[|nows|][i], FiringsOf(i, nows, fired))
    decreases |nows|
  {
    if nows != [] {
      hide Fire;
      assert Polled(states[0], nows[0], fired[0], states[1]);
      if fired[0] >= 0 {
        FireStaysValid(states[0][fired[0]], nows[0]);
      }
      RunContinues(states, nows, fired);
      TimerLives(states[1..], nows[1..], fired[1..], i);
      assert PollsFor(i, nows, fired)[1..] == PollsFor(i, nows[1..], fired[1..]);
    }
  }

  lemma RunContinues(states: seq<seq<Timer>>, nows: seq<nat>, fired: seq<int>)
    requires IsPollRun(states, nows, fired) && nows != []
    ensures IsPollRun(states[1..], nows[1..], fired[1..])
  {
    var s, n, f := states[1..], nows[1..], fired[1..];
    forall j | 0 <= j < |n| ensures n[j] < U64_MAX && AllValid(s[j]) && Polled(s[j], n[j], f[j], s[j + 1]) {
      assert s[j] == states[j + 1] && n[j] == nows[j + 1] && f[j] == fired[j + 1] && s[j + 1] == states[j + 2];
    }
  }

  /** In any run of polls on a monotone clock a repeating timer made by `Start` stays active and on
      the grid of its first deadline or saturates, never fires early and at most once a period. */
  lemma RepeatingTimerKeepsItsGrid(states: seq<seq<Timer>>, nows: seq<nat>, fired: seq<int>, i: nat,
                                   id: nat, started: nat, ticks: nat)
    requires IsPollRun(states, nows, fired) && i < |states[0]| && AllValid(states[0])
    requires started <= U64_MAX && ticks <= U64_MAX && states[0][i] == Start(id, started, ticks, true)
    requires forall j, k :: 0 <= j < k < |nows| ==> nows[j] <= nows[k]
    ensures i < |states[|nows|]|
    ensures var interval, after, times := if ticks == 0 then 1 else ticks, states[|nows|][i], FiringsOf(i, nows, fired);
      && after.active && after.id == id && after.interval == interval
      && (after.deadline == U64_MAX || exists k: nat :: after.deadline == started + ticks + k * interval)
      && (forall a :: 0 <= a < |times| ==> started + ticks <= times[a])
      && (forall a, b :: 0 <= a < b < |times| ==>
            (times[a] - started - ticks) / interval < (times[b] - started - ticks) / interval)
  {
    hide Live, PollsFor;
    var t := states[0][i];
    TimerLives(states, nows, fired, i);
    FiringsFollowTheGrid(t.deadline, t, 0, PollsFor(i, nows, fired));
    forall a | 0 <= a < |FiringsOf(i, nows, fired)| ensures t.deadline <= FiringsOf(i, nows, fired)[a] < U64_MAX {
      PeriodsStart(t.deadline, t.interval, FiringsOf(i, nows, fired)[a]);
      FiringsAreTimes(i, nows, fired, a);
    }
    NamesStay(states, nows, fired, i);
    var after := states[|nows|][i];
    if after.deadline != U64_MAX {
      var k: nat :| after.deadline == t.deadline + k * t.interval;
      MulNonNegative(k, t.interval);
      assert after.deadline == started + ticks + k * t.interval;
    }
  }

  lemma {:induction false} FiringsAreTimes(i: nat, nows: seq<nat>, fired: seq<int>, a: nat)
    requires |nows| == |fired| && a < |FiringsOf(i, nows, fired)|
    ensures FiringsOf(i, nows, fired)[a] in nows
  {
    var here := if fired[0] == i then 1 else 0;
    if a >= here {
      FiringsAreTimes(i, nows[1..], fired[1..], a - here);
      assert FiringsOf(i, nows, fired)[a] == FiringsOf(i, nows[1..], fired[1..])[a - here];
    }
  }

  lemma {:induction false} NamesStay(states: seq<seq<Timer>>, nows: seq<nat>, fired: seq<int>, i: nat)
    requires IsPollRun(states, nows, fired) && i < |states[0]| && states[0][i].Valid()
    ensures i < |states[|nows|]| && states[|nows|][i].id == states[0][i].id && states[|nows|][i].Valid()
    decreases |nows|
  {
    if nows != [] {
      assert Polled(states[0], nows[0], fired[0], states[1]);
      if fired[0] == i {
        FireStaysValid(states[0][i], nows[0]);
      }
      RunContinues(states, nows, fired);
      NamesStay(states[1..], nows[1..], fired[1..], i);
    }
  }

  lemma PeriodsStart(base: nat, interval: nat, now: nat)
    requires interval > 0 && Period(base, interval, now) >= 0
    ensures base <= now
  {
  }

  /** A timer that does not repeat fires at most once, and not early. */
  lemma SingleTimerFiresOnce(states: seq<seq<Timer>>, nows: seq<nat>, fired: seq<int>, i: nat,
                             id: nat, started: nat, ticks: nat)
    requires IsPollRun(states, nows, fired) && i < |states[0]| && AllValid(states[0])
    requires started <= U64_MAX && ticks <= U64_MAX && states[0][i] == Start(id, started, ticks, false)
    ensures i < |states[|nows|]|
    ensures var times := FiringsOf(i, nows, fired);
      && |times| <= 1 && (states[|nows|][i].active <==> times == [])
      && forall a :: 0 <= a < |times| ==> started + ticks <= times[a]
  {
    hide Live, PollsFor;
    TimerLives(states, nows, fired, i);
    SingleLife(states[0][i], PollsFor(i, nows, fired));
    forall a | 0 <= a < |FiringsOf(i, nows, fired)| ensures FiringsOf(i, nows, fired)[a] < U64_MAX {
      FiringsAreTimes(i, nows, fired, a);
    }
  }

  lemma {:induction false} SingleLife(t: Timer, polls: seq<Poll>)
    requires t.Valid() && t.interval == 0 && forall i :: 0 <= i < |polls| ==> polls[i].now < U64_MAX
    ensures var r := Live(t, polls);
      && |r.firings| <= (if t.active then 1 else 0) && (r.timer.active <==> t.active && r.firings == [])
      && forall a :: 0 <= a < |r.firings| ==> t.deadline <= r.firings[a]
    decreases |polls|
  {
    if polls != [] {
      SingleLife(if polls[0].reaches && t.Due(polls[0].now) then Fire(t, polls[0].now) else t, polls[1..]);
    }
  }

  // ------------------------------------------------------------------ waiting

  predicate IsDelayOf(t: Timer, now: nat, delay: nat) {
    t.active && if t.Due(now) then delay == 0 else now + delay == t.deadline
  }

  /** The time to the nearest active timer, or all the time there is. */
  function Nearest(timers: seq<Timer>, now: nat): (r: nat)
    requires AllValid(timers)
    ensures r <= U64_MAX
  {
    if timers == [] then U64_MAX
    else
      var rest, t := Nearest(timers[..|timers| - 1], now), timers[|timers| - 1];
      if !t.active then rest else Min(rest, if now >= t.deadline then 0 else t.deadline - now)
  }

  /** `r4_event_loop_timer_delay`: the time to the nearest active timer. */
  method TimerDelay(timers: seq<Timer>, now: nat) returns (found: bool, delay: nat)
    requires AllValid(timers)
    ensures found <==> exists i :: 0 <= i < |timers| && timers[i].active
    ensures forall i :: 0 <= i < |timers| && timers[i].active ==>
      timers[i].Due(now) || now + delay <= timers[i].deadline
    ensures forall i :: 0 <= i < |timers| && timers[i].Due(now) ==> delay == 0
    ensures found ==> exists i :: 0 <= i < |timers| && IsDelayOf(timers[i], now, delay)
    ensures !found ==> delay == U64_MAX
    ensures delay == Nearest(timers, now)
  {
    found, delay := false, U64_MAX;
    for i := 0 to |timers|
      invariant found <==> exists k :: 0 <= k < i && timers[k].active
      invariant forall k :: 0 <= k < i && timers[k].active ==> timers[k].Due(now) || now + delay <= timers[k].deadline
      invariant forall k :: 0 <= k < i && timers[k].Due(now) ==> delay == 0
      invariant found ==> exists k :: 0 <= k < i && IsDelayOf(timers[k], now, delay)
      invariant !found ==> delay == U64_MAX
      invariant delay == Nearest(timers[..i], now)
    {
      assert timers[..i + 1][..i] == timers[..i];
      if timers[i].active {
        var d := if now >= timers[i].deadline then 0 else timers[i].deadline - now;
        if !found || d < delay {
          delay := d;
        }
        found := true;
      }
    }
    assert timers[..|timers|] == timers;
  }

  datatype Timeout = NoWait | Forever | Within(ns: nat)

  /** One round of the wait loop: what the poll found, the clock at the poll and after it, whether
      the application should close, and the result of the wait, if it comes to that. */
  datatype Round = Round(message: bool, polled: nat, closing: bool, now: nat, raw: int)

  datatype Sleep = Sleep(now: nat, ticks: nat)

  datatype Outcome = Message | TimedOut(now: nat) | Failed(raw: int) | Invalid | StillWaiting

  /** The tick budget of a timeout, if the clock rate allows one. */
  function Budget(timeout: Timeout, hz: nat): (r: int)
    ensures -1 <= r <= U64_MAX
  {
    match timeout
    case NoWait => 0
    case Forever => U64_MAX
    case Within(ns) => if hz == 0 then -1 else DurationToTicks(ns, hz)
  }

  /** The budget of a finite timeout is the least number of ticks that covers it, or all there are. */
  lemma BudgetIs(timeout: Timeout, hz: nat)
    ensures timeout.NoWait? ==> Budget(timeout, hz) == 0
    ensures timeout.Forever? ==> Budget(timeout, hz) == U64_MAX
    ensures timeout.Within? ==> (Budget(timeout, hz) == -1 <==> hz == 0)
    ensures timeout.Within? && hz > 0 ==>
      && (Budget(timeout, hz) < U64_MAX ==> Budget(timeout, hz) * NS >= timeout.ns * hz)
      && forall s: nat {:trigger s * NS} :: s < Budget(timeout, hz) ==> s * NS < timeout.ns * hz
  {
    if timeout.Within? && hz > 0 {
      hide DurationToTicks;
      TicksAreLeast(timeout.ns, hz);
    }
  }

  /** A sleep lasts at least one tick, no longer than the budget and never past an active timer. */
  ghost predicate Fitting(s: Sleep, timers: seq<Timer>, timeout: Timeout, deadline: nat) {
    && 0 < s.ticks
    && (!timeout.Forever? ==> s.now + s.ticks <= deadline)
    && forall i :: 0 <= i < |timers| && timers[i].active ==> s.now + s.ticks <= timers[i].deadline
  }

  ghost predicate AnyDue(timers: seq<Timer>, now: nat) { exists i :: 0 <= i < |timers| && timers[i].Due(now) }

  /** What a round decides: an event, a due timer or a closing application is a message; otherwise
      a passed deadline ends the wait, and so does a failing sleep. */
  ghost function Decision(r: Round, timers: seq<Timer>, timeout: Timeout, deadline: nat): Outcome {
    if r.message || r.closing || AnyDue(timers, r.polled) then Message
    else if !timeout.Forever? && r.now >= deadline then TimedOut(r.now)
    else if r.raw < 0 && !AnyDue(timers, r.now) then Failed(r.raw)
    else StillWaiting
  }

  /** What a round decides, case by case. */
  lemma DecisionMeans(r: Round, timers: seq<Timer>, timeout: Timeout, deadline: nat)
    ensures var d := Decision(r, timers, timeout, deadline);
      var found := r.message || r.closing
        || exists i :: 0 <= i < |timers| && timers[i].active && r.polled >= timers[i].deadline;
      && (d == Message <==> found)
      && (d == TimedOut(r.now) <==> !found && !timeout.Forever? && r.now >= deadline)
      && (d == Failed(r.raw) <==>
           && !found && (timeout.Forever? || r.now < deadline) && r.raw < 0
           && forall i :: 0 <= i < |timers| && timers[i].active ==> r.now < timers[i].deadline)
  {
    assert AnyDue(timers, r.polled) <==>
      exists i :: 0 <= i < |timers| && timers[i].active && r.polled >= timers[i].deadline;
  }

  /** The sleep of a round, if it comes to one: nothing was found, time is left and no timer has
      become due meanwhile. It lasts exactly for the budget or until the nearest timer. */
  ghost function SleepOf(r: Round, timers: seq<Timer>, timeout: Timeout, deadline: nat): seq<Sleep>
    requires AllValid(timers)
  {
    if r.message || r.closing || AnyDue(timers, r.polled) || (!timeout.Forever? && r.now >= deadline) then []
    else
      var left := if timeout.Forever? then U64_MAX else deadline - r.now;
      var ticks := Min(left, Nearest(timers, r.now));
      if ticks == 0 then [] else [Sleep(r.now, ticks)]
  }

  /** All sleeps of some rounds, in order. */
  ghost function SleepsOf(rounds: seq<Round>, timers: seq<Timer>, timeout: Timeout, deadline: nat): seq<Sleep>
    requires AllValid(timers)
  {
    if rounds == [] then []
    else
      var n := |rounds| - 1;
      SleepsOf(rounds[..n], timers, timeout, deadline) + SleepOf(rounds[n], timers, timeout, deadline)
  }

  lemma SleepsOfNext(rounds: seq<Round>, k: nat, timers: seq<Timer>, timeout: Timeout, deadline: nat)
    requires AllValid(timers) && k < |rounds|
    ensures SleepsOf(rounds[..k + 1], timers, timeout, deadline)
         == SleepsOf(rounds[..k], timers, timeout, deadline) + SleepOf(rounds[k], timers, timeout, deadline)
  {
    assert rounds[..k + 1][..k] == rounds[..k];
  }

  /** A round that is not decided sleeps, unless a timer has become due since the poll. */
  lemma UndecidedRoundSleeps(r: Round, timers: seq<Timer>, timeout: Timeout, deadline: nat)
    requires AllValid(timers) && Decision(r, timers, timeout, deadline).StillWaiting? && !AnyDue(timers, r.now)
    ensures |SleepOf(r, timers, timeout, deadline)| == 1
  {
    NearestIsPositive(timers, r.now);
  }

  lemma {:induction false} NearestIsPositive(timers: seq<Timer>, now: nat)
    requires AllValid(timers) && !AnyDue(timers, now)
    ensures Nearest(timers, now) > 0
  {
    if timers != [] {
      var n := |timers| - 1;
      assert !timers[n].Due(now);
      assert forall i :: 0 <= i < n ==> timers[..n][i] == timers[i];
      NearestIsPositive(timers[..n], now);
    }
  }

  /** Round `k` is the first to decide anything, or all rounds are used up; `sleeps` are those of
      the rounds up to and including it. */
  ghost predicate DecidedAt(k: nat, rounds: seq<Round>, timers: seq<Timer>, timeout: Timeout, deadline: nat,
                            outcome: Outcome, sleeps: seq<Sleep>)
    requires AllValid(timers)
  {
    && k <= |rounds|
    && sleeps == SleepsOf(rounds[..Min(k + 1, |rounds|)], timers, timeout, deadline)
    && (forall i :: 0 <= i < k ==> Decision(rounds[i], timers, timeout, deadline) == StillWaiting)
    && outcome == if k == |rounds| then StillWaiting else Decision(rounds[k], timers, timeout, deadline)
  }

  lemma {:induction false} SleepsFit(rounds: seq<Round>, timers: seq<Timer>, timeout: Timeout, deadline: nat,
                                     sleeps: seq<Sleep>)
    requires AllValid(timers) && sleeps == SleepsOf(rounds, timers, timeout, deadline)
    ensures forall i :: 0 <= i < |sleeps| ==> Fitting(sleeps[i], timers, timeout, deadline)
  {
    hide SleepOf, Fitting;
    if rounds != [] {
      var n := |rounds| - 1;
      var before := SleepsOf(rounds[..n], timers, timeout, deadline);
      var last := SleepOf(rounds[n], timers, timeout, deadline);
      SleepsFit(rounds[..n], timers, timeout, deadline, before);
      SleepFits(rounds[n], timers, timeout, deadline, last);
      assert forall i :: 0 <= i < |sleeps| ==> sleeps[i] == if i < |before| then before[i] else last[i - |before|];
    }
  }

  lemma SleepFits(r: Round, timers: seq<Timer>, timeout: Timeout, deadline: nat, s: seq<Sleep>)
    requires AllValid(timers) && s == SleepOf(r, timers, timeout, deadline)
    ensures forall i :: 0 <= i < |s| ==> Fitting(s[i], timers, timeout, deadline)
  {
    hide Nearest, AnyDue;
    forall k | 0 <= k < |timers| && timers[k].active
      ensures Nearest(timers, r.now) == 0 || r.now + Nearest(timers, r.now) <= timers[k].deadline
    {
      NearestBounds(timers, r.now, k);
    }
  }

  lemma {:induction false} NearestBounds(timers: seq<Timer>, now: nat, k: nat)
    requires AllValid(timers) && k < |timers| && timers[k].active
    ensures Nearest(timers, now) == 0 || now + Nearest(timers, now) <= timers[k].deadline
  {
    var n := |timers| - 1;
    if k < n {
      assert timers[..n][k] == timers[k];
      NearestBounds(timers[..n], now, k);
    }
  }

  /** The loop of `r4_event_loop_wait` over the rounds that the environment grants it. */
  method WaitRounds(timers: array<Timer>, timeout: Timeout, deadline: nat, rounds: seq<Round>)
    returns (outcome: Outcome, ghost sleeps: seq<Sleep>, ghost k: nat)
    requires AllValid(timers[..]) && deadline <= U64_MAX
    requires forall i :: 0 <= i < |rounds| ==> rounds[i].polled <= U64_MAX
    modifies timers
    ensures !outcome.Message? ==> timers[..] == old(timers[..])
    ensures DecidedAt(k, rounds, old(timers[..]), timeout, deadline, outcome, sleeps)
  {
    hide SleepsOf, Nearest;
    sleeps, k := [], 0;
    ghost var waiting := timers[..];
    NoSleepsYet(rounds, waiting, timeout, deadline);
    var i := 0;
    while i < |rounds|
      invariant i <= |rounds| && timers[..] == waiting && sleeps == SleepsOf(rounds[..i], waiting, timeout, deadline)
      invariant forall k :: 0 <= k < i ==> Decision(rounds[k], waiting, timeout, deadline) == StillWaiting
    {
      var round := rounds[i];
      k := i;
      SleepsOfNext(rounds, i, waiting, timeout, deadline);
      i := i + 1;
      if round.message {
        return Message, sleeps, k;
      }
      var fired := PollTimers(timers, round.polled);
      assert fired >= 0 ==> waiting[fired].Due(round.polled);
      if fired >= 0 || round.closing {
        return Message, sleeps, k;
      }
      var remaining := if timeout.Forever? then U64_MAX else if round.now >= deadline then 0 else deadline - round.now;
      if remaining == 0 {
        return TimedOut(round.now), sleeps, k;
      }
      var found, delay := TimerDelay(timers[..], round.now);
      if found && delay < remaining {
        remaining := delay;
      }
      if remaining == 0 {
        continue;
      }
      sleeps := sleeps + [Sleep(round.now, remaining)];
      if round.raw < 0 {
        return Failed(round.raw), sleeps, k;
      }
    }
    assert rounds[..|rounds|] == rounds;
    return StillWaiting, sleeps, |rounds|;
  }

  lemma NoSleepsYet(rounds: seq<Round>, timers: seq<Timer>, timeout: Timeout, deadline: nat)
    requires AllValid(timers)
    ensures SleepsOf(rounds[..0], timers, timeout, deadline) == []
  {
  }

  /** `r4_event_loop_wait`: the outcome is that of the first round that decides, and the sleeps are
      exactly those of the rounds up to it. */
  method Wait(timers: array<Timer>, timeout: Timeout, hz: nat, started: nat, rounds: seq<Round>)
    returns (outcome: Outcome, ghost sleeps: seq<Sleep>)
    requires AllValid(timers[..]) && started <= U64_MAX
    requires forall i :: 0 <= i < |rounds| ==> started <= rounds[i].polled <= rounds[i].now <= U64_MAX
    modifies timers
    ensures outcome.Invalid? <==> Budget(timeout, hz) == -1
    ensures !outcome.Message? ==> timers[..] == old(timers[..])
    ensures outcome.TimedOut? ==> !timeout.Forever? && outcome.now >= Deadline(started, Budget(timeout, hz))
    ensures outcome.Invalid? <==> timeout.Within? && hz == 0
    ensures outcome.TimedOut? && timeout.Within? && outcome.now < U64_MAX ==>
      outcome.now * NS >= started * NS + timeout.ns * hz
    ensures forall i :: 0 <= i < |sleeps| && timeout.Within? ==>
      started <= sleeps[i].now && (sleeps[i].now + sleeps[i].ticks - started - 1) * NS < timeout.ns * hz
    ensures forall i :: 0 <= i < |sleeps| ==> started <= sleeps[i].now
    ensures timeout.NoWait? && !outcome.Invalid? ==> Deadline(started, Budget(timeout, hz)) == started
    ensures !outcome.Invalid? ==>
      exists k: nat ::
        DecidedAt(k, rounds, old(timers[..]), timeout, Deadline(started, Budget(timeout, hz)), outcome, sleeps)
    ensures !outcome.Invalid? ==> forall i :: 0 <= i < |sleeps| ==>
      Fitting(sleeps[i], old(timers[..]), timeout, Deadline(started, Budget(timeout, hz)))
  {
    hide SleepsOf;
    var budget := Budget(timeout, hz);
    if budget == -1 {
      return Invalid, [];
    }
    var deadline := if timeout.Forever? || U64_MAX - started < budget then U64_MAX else started + budget;
    assert deadline == Deadline(started, budget);
    ghost var k;
    outcome, sleeps, k := WaitRounds(timers, timeout, deadline, rounds);
    SleepsFit(rounds[..Min(k + 1, |rounds|)], old(timers[..]), timeout, deadline, sleeps);
    SleepsAreOfRounds(rounds[..Min(k + 1, |rounds|)], old(timers[..]), timeout, deadline, sleeps, started);
    BudgetIs(timeout, hz);
    forall i | 0 <= i < |sleeps| && timeout.Within?
      ensures started <= sleeps[i].now && (sleeps[i].now + sleeps[i].ticks - started - 1) * NS < timeout.ns * hz
    {
      assert Fitting(sleeps[i], old(timers[..]), timeout, deadline);
    }
  }

  lemma {:induction false} SleepsAreOfRounds(rounds: seq<Round>, timers: seq<Timer>, timeout: Timeout, deadline: nat,
                                             sleeps: seq<Sleep>, started: nat)
    requires AllValid(timers) && sleeps == SleepsOf(rounds, timers, timeout, deadline)
    requires forall i :: 0 <= i < |rounds| ==> started <= rounds[i].now
    ensures forall i :: 0 <= i < |sleeps| ==> started <= sleeps[i].now
  {
    if rounds != [] {
      hide Nearest, AnyDue;
      var n := |rounds| - 1;
      var before := SleepsOf(rounds[..n], timers, timeout, deadline);
      SleepsAreOfRounds(rounds[..n], timers, timeout, deadline, before, started);
    }
  }
}
