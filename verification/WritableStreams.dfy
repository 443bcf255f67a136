/** Writable streams of web_streams.js: a chain of promises runs start, the accepted writes and
    close on the underlying sink, one after the other. */
module WritableStreams {
  import ReadableStreams
  type Size<+E> = ReadableStreams.Size<E>

  datatype State<+E> = Writable | Closed | Errored(reason: E)

  /** A link of the chain that has not settled yet. */
  datatype Job<+T> = Write(chunk: T, size: real) | Close

  /** The link at the head: idle, calling start, in the sink, or about to run its handler. */
  datatype Running<+T, +E> =
    | Idle
    | Starting
    | InSink(job: Job<T>)
    | Finished(job: Job<T>)
    | Broken(job: Job<T>, reason: E)
  {
    predicate HasJob() { InSink? || Finished? || Broken? }
  }

  /** How the link before the head settled. */
  datatype Link<+E> = Fulfilled | Rejected(reason: E)

  datatype Call<+T> = StartCall | WriteCall(chunk: T) | CloseCall
  datatype SinkEvent<+T> = Began(call: Call<T>) | Ended(call: Call<T>, ok: bool)

  function CallOf<T>(job: Job<T>): Call<T> { if job.Write? then WriteCall(job.chunk) else CloseCall }

  /** How far the sink has got. */
  datatype Stage = StartPending | StartBroken | Between | InWrite | WriteBroken | InClose | CloseEnded(ok: bool)

  /** The sink sees start and then `n` successful writes in the order of acceptance. */
  function Writes<T>(accepted: seq<T>, n: nat): seq<SinkEvent<T>>
    requires n <= |accepted|
  {
    if n == 0 then [Began(StartCall), Ended(StartCall, true)]
    else Writes(accepted, n - 1) + [Began(WriteCall(accepted[n - 1])), Ended(WriteCall(accepted[n - 1]), true)]
  }

  /** The only traces there are: calls never overlap, a failed call is the last, and close comes
      only after every accepted write has succeeded. */
  function TraceOf<T>(accepted: seq<T>, n: nat, stage: Stage): seq<SinkEvent<T>>
    requires n <= |accepted| && (stage.InWrite? || stage.WriteBroken? ==> n < |accepted|)
  {
    match stage
    case StartPending => [Began(StartCall)]
    case StartBroken => [Began(StartCall), Ended(StartCall, false)]
    case Between => Writes(accepted, n)
    case InWrite => Writes(accepted, n) + [Began(WriteCall(accepted[n]))]
    case WriteBroken => Writes(accepted, n) + [Began(WriteCall(accepted[n])), Ended(WriteCall(accepted[n]), false)]
    case InClose => Writes(accepted, n) + [Began(CloseCall)]
    case CloseEnded(ok) => Writes(accepted, n) + [Began(CloseCall), Ended(CloseCall, ok)]
  }

  /** Accepting more writes does not change what the sink has seen. */
  lemma {:induction false} TraceKept<T>(accepted: seq<T>, chunk: T, n: nat, stage: Stage)
    requires n <= |accepted| && (stage.InWrite? || stage.WriteBroken? ==> n < |accepted|)
    ensures TraceOf(accepted + [chunk], n, stage) == TraceOf(accepted, n, stage)
    decreases n
  {
    if n > 0 {
      TraceKept(accepted, chunk, n - 1, Between);
    }
  }

  /** Calls alternate: whatever the trace, a call begins only after the one before it ended, and
      nothing begins after a failure. */
  ghost predicate Sequential<T>(trace: seq<SinkEvent<T>>) {
    && (forall i :: 0 <= i < |trace| ==> (trace[i].Began? <==> i % 2 == 0))
    && (forall i :: 0 < i < |trace| && trace[i].Ended? ==> trace[i].call == trace[i - 1].call)
    && (forall i :: 0 <= i < |trace| - 1 && trace[i].Ended? ==> trace[i].ok)
  }

  lemma {:induction false} WritesAreSequential<T>(accepted: seq<T>, n: nat)
    requires n <= |accepted|
    ensures var w := Writes(accepted, n);
      Sequential(w) && |w| == 2 * n + 2 && w[2 * n + 1].Ended? && w[2 * n + 1].ok
  {
    if n > 0 {
      WritesAreSequential(accepted, n - 1);
      CallAppended(Writes(accepted, n - 1), WriteCall(accepted[n - 1]), true);
    }
  }

  lemma CallAppended<T>(w: seq<SinkEvent<T>>, call: Call<T>, ok: bool)
    requires Sequential(w) && |w| % 2 == 0 && (|w| > 0 ==> w[|w| - 1].ok)
    ensures Sequential(w + [Began(call)]) && Sequential(w + [Began(call), Ended(call, ok)])
  {
  }

  lemma TracesAreSequential<T>(accepted: seq<T>, n: nat, stage: Stage)
    requires n <= |accepted| && (stage.InWrite? || stage.WriteBroken? ==> n < |accepted|)
    ensures Sequential(TraceOf(accepted, n, stage))
  {
    hide Writes;
    WritesAreSequential(accepted, n);
    var w := Writes(accepted, n);
    match stage
    case StartPending => CallAppended<T>([], StartCall, false);
    case StartBroken => CallAppended<T>([], StartCall, false);
    case Between =>
    case InWrite => CallAppended(w, WriteCall(accepted[n]), false);
    case WriteBroken => CallAppended(w, WriteCall(accepted[n]), false);
    case InClose => CallAppended(w, CloseCall, false);
    case CloseEnded(ok) => CallAppended(w, CloseCall, ok);
  }

  lemma StartTraces<T>(accepted: seq<T>)
    ensures TraceOf(accepted, 0, Between) == TraceOf(accepted, 0, StartPending) + [Ended(StartCall, true)]
    ensures TraceOf(accepted, 0, StartBroken) == TraceOf(accepted, 0, StartPending) + [Ended(StartCall, false)]
  {
  }

  lemma WriteTraces<T>(accepted: seq<T>, n: nat)
    requires n < |accepted|
    ensures TraceOf(accepted, n, InWrite) == TraceOf(accepted, n, Between) + [Began(WriteCall(accepted[n]))]
    ensures TraceOf(accepted, n + 1, Between) == TraceOf(accepted, n, InWrite) + [Ended(WriteCall(accepted[n]), true)]
    ensures TraceOf(accepted, n, WriteBroken) == TraceOf(accepted, n, InWrite) + [Ended(WriteCall(accepted[n]), false)]
  {
  }

  lemma CloseTraces<T>(accepted: seq<T>, n: nat, ok: bool)
    requires n <= |accepted|
    ensures TraceOf(accepted, n, InClose) == TraceOf(accepted, n, Between) + [Began(CloseCall)]
    ensures TraceOf(accepted, n, CloseEnded(ok)) == TraceOf(accepted, n, InClose) + [Ended(CloseCall, ok)]
  {
  }

  function Sizes<T>(jobs: seq<Job<T>>): real {
    if jobs == [] then 0.0 else (if jobs[0].Write? then jobs[0].size else 0.0) + Sizes(jobs[1..])
  }

  lemma {:induction false} SizesAppend<T>(jobs: seq<Job<T>>, job: Job<T>)
    ensures Sizes(jobs + [job]) == Sizes(jobs) + (if job.Write? then job.size else 0.0)
  {
    if jobs == [] {
      assert jobs + [job] == [job];
    } else {
      assert (jobs + [job])[1..] == jobs[1..] + [job];
      SizesAppend(jobs[1..], job);
    }
  }

  lemma NoJobs<T>()
    ensures Sizes<T>([]) == 0.0
  {
  }

  lemma {:induction false} SizesNonNegative<T>(jobs: seq<Job<T>>)
    requires forall i :: 0 <= i < |jobs| && jobs[i].Write? ==> jobs[i].size >= 0.0
    ensures Sizes(jobs) >= 0.0
    ensures jobs != [] ==> Sizes(jobs) == (if jobs[0].Write? then jobs[0].size else 0.0) + Sizes(jobs[1..])
  {
    if jobs != [] {
      SizesNonNegative(jobs[1..]);
    }
  }

  /** The unsettled links `u` are the accepted writes from number `w` on, then perhaps the close. */
  ghost predicate Queued<T>(u: seq<Job<T>>, accepted: seq<T>, w: nat, closeQueued: bool) {
    && w <= |accepted| <= |u| + w <= |accepted| + 1
    && (forall i :: 0 <= i < |accepted| - w ==> u[i].Write? && u[i].chunk == accepted[w + i] && u[i].size >= 0.0)
    && (|u| + w == |accepted| + 1 ==> u[|u| - 1].Close? && closeQueued)
  }

  lemma QueuedTail<T>(u: seq<Job<T>>, accepted: seq<T>, w: nat, closeQueued: bool)
    requires Queued(u, accepted, w, closeQueued) && u != []
    ensures u[0].Write? ==> w < |accepted| && u[0].chunk == accepted[w] && u[0].size >= 0.0
    ensures u[0].Write? ==> Queued(u[1..], accepted, w + 1, closeQueued)
    ensures u[0].Close? ==> w == |accepted| && closeQueued && u[1..] == [] && Queued([], accepted, w, closeQueued)
    ensures 0.0 <= Sizes(u[1..]) && Sizes(u) == (if u[0].Write? then u[0].size else 0.0) + Sizes(u[1..])
  {
    SizesNonNegative(u[1..]);
  }

  lemma QueuedAppend<T>(u: seq<Job<T>>, accepted: seq<T>, w: nat, job: Job<T>)
    requires Queued(u, accepted, w, false)
    ensures job.Write? && job.size >= 0.0 ==> Queued(u + [job], accepted + [job.chunk], w, false)
    ensures job.Close? ==> Queued(u + [job], accepted, w, true)
    ensures Sizes(u + [job]) == Sizes(u) + (if job.Write? then job.size else 0.0)
  {
    SizesAppend(u, job);
  }

  class Stream<T, E> {
    var state: State<E>
    var queueTotalSize: real
    var closeQueued: bool
    /** The links behind the head. */
    var jobs: seq<Job<T>>
    var running: Running<T, E>
    var previous: Link<E>

    ghost var accepted: seq<T>
    ghost var settledWrites: nat
    ghost var succeeded: nat
    ghost var stage: Stage
    ghost var trace: seq<SinkEvent<T>>

    /** The unsettled links, the one at the head first. */
    ghost function Unsettled(): seq<Job<T>>
      reads this
    {
      (if running.HasJob() then [running.job] else []) + jobs
    }

    /** How far the sink is and what the chain is doing fit together. */
    ghost predicate InStep()
      reads this
    {
      && succeeded <= |accepted|
      && (running.Starting? <==> stage.StartPending?)
      && (stage.StartPending? ==> succeeded == settledWrites == 0 && previous.Fulfilled?)
      && (running.InSink? ==> previous.Fulfilled? && succeeded == settledWrites)
      && (running.Finished? ==>
            previous.Fulfilled? && succeeded == settledWrites + (if running.job.Write? then 1 else 0))
      && (previous.Fulfilled? && !running.Finished? ==> succeeded == settledWrites)
      && (previous.Rejected? ==> state.Errored? && !stage.StartPending?)
      && (stage.InWrite? <==> running.InSink? && running.job.Write?)
      && (stage.InClose? <==> running.InSink? && running.job.Close?)
      && (stage.InWrite? ==> succeeded < |accepted|)
      && (stage.WriteBroken? ==> succeeded < |accepted| && (previous.Rejected? || running.Broken?))
      && (stage.StartBroken? ==> previous.Rejected?)
      && (stage.InClose? || stage.CloseEnded? ==> succeeded == |accepted|)
      && (stage.CloseEnded? ==>
            closeQueued && (previous.Rejected? || Unsettled() == [] || running.HasJob()) && jobs == [])
      && (running.Finished? ==> stage == if running.job.Write? then Between else CloseEnded(true))
      && (running.Idle? && previous.Fulfilled? ==> stage.Between? || stage == CloseEnded(true))
      && (running.Broken? ==> !stage.StartPending?)
    }

    ghost predicate Valid()
      reads this
    {
      && Queued(Unsettled(), accepted, settledWrites, closeQueued) && InStep()
      && trace == TraceOf(accepted, succeeded, stage)
      && queueTotalSize == (if state.Writable? then Sizes(Unsettled()) else 0.0)
      && (state.Closed? ==> Unsettled() == [] && closeQueued && stage == CloseEnded(true))
    }

    ghost function Now(): Frame<T, E>
      reads this
    {
      Frame(state, closeQueued, jobs, running, previous, accepted, trace)
    }

    /** The constructor calls start. */
    constructor ()
      ensures Valid() && state.Writable? && trace == [Began(StartCall)] && accepted == []
    {
      state, queueTotalSize, closeQueued, jobs, running, previous := Writable, 0.0, false, [], Starting, Fulfilled;
      accepted, settledWrites, succeeded, stage, trace := [], 0, 0, StartPending, [Began(StartCall)];
    }

    method ErrorWritable(reason: E)
      requires Valid()
      modifies this`state, this`queueTotalSize
      ensures Valid() && state == if old(state).Writable? then Errored(reason) else old(state)
    {
      if state.Closed? || state.Errored? {
        return;
      }
      state, queueTotalSize := Errored(reason), 0.0;
    }

    /** `writeWritable`: an accepted chunk becomes the last link of the chain. */
    method Write(chunk: T, size: Size<E>) returns (taken: bool)
      requires Valid() && size.Valid()
      modifies this
      ensures Valid() && trace == old(trace)
      ensures taken <==> old(state).Writable? && !old(closeQueued) && size.Fits?
      ensures accepted == if taken then old(accepted) + [chunk] else old(accepted)
      ensures jobs == if taken then old(jobs) + [Job.Write(chunk, size.size)] else old(jobs)
      ensures running == old(running) && previous == old(previous) && closeQueued == old(closeQueued)
      ensures taken || !old(state).Writable? || old(closeQueued) ==> state == old(state)
      ensures !taken && old(state).Writable? && !old(closeQueued) ==> state == Errored(size.reason)
    {
      if !state.Writable? || closeQueued {
        return false;
      }
      if size.Bad? {
        ErrorWritable(size.reason);
        return false;
      }
      hide TraceOf, Sizes, Queued;
      ghost var u := Unsettled();
      QueuedAppend(u, accepted, settledWrites, Job.Write(chunk, size.size));
      TraceKept(accepted, chunk, succeeded, stage);
      queueTotalSize := queueTotalSize + size.size;
      jobs := jobs + [Job.Write(chunk, size.size)];
      accepted := accepted + [chunk];
      assert Unsettled() == u + [Job.Write(chunk, size.size)];
      return true;
    }

    /** `closeWritable`: no write is accepted any more. */
    method Close() returns (taken: bool)
      requires Valid()
      modifies this
      ensures Valid() && trace == old(trace) && accepted == old(accepted)
      ensures taken <==> old(state).Writable? && !old(closeQueued)
      ensures jobs == if taken then old(jobs) + [Job.Close] else old(jobs)
      ensures running == old(running) && previous == old(previous) && state == old(state)
      ensures closeQueued == (old(closeQueued) || taken)
    {
      if !state.Writable? || closeQueued {
        return false;
      }
      hide TraceOf, Sizes, Queued;
      ghost var u := Unsettled();
      QueuedAppend(u, accepted, settledWrites, Job<T>.Close);
      closeQueued := true;
      jobs := jobs + [Job.Close];
      assert Unsettled() == u + [Job<T>.Close];
      return true;
    }

    /** The controller's `error`, or `abortWritable` after it has called the sink's abort. */
    method Error(reason: E)
      requires Valid()
      modifies this
      ensures Valid() && trace == old(trace) && accepted == old(accepted)
      ensures state == (if old(state).Writable? then Errored(reason) else old(state)) && jobs == old(jobs)
      ensures running == old(running) && previous == old(previous) && closeQueued == old(closeQueued)
    {
      ErrorWritable(reason);
    }

    /** The start algorithm's promise settles. */
    method StartSettled(ok: bool, reason: E)
      requires Valid() && running.Starting?
      modifies this
      ensures Valid() && running.Idle? && trace == old(trace) + [Ended(StartCall, ok)]
      ensures accepted == old(accepted) && jobs == old(jobs) && closeQueued == old(closeQueued)
      ensures state == if !ok && old(state).Writable? then Errored(reason) else old(state)
      ensures previous == if ok then Fulfilled else Rejected(reason)
    {
      hide TraceOf, Sizes, Queued;
      StartTraces(accepted);
      ghost var u := Unsettled();
      running := Idle;
      assert Unsettled() == u;
      trace := trace + [Ended(StartCall, ok)];
      if ok {
        stage := Between;
      } else {
        stage, previous := StartBroken, Rejected(reason);
        if state.Writable? {
          state, queueTotalSize := Errored(reason), 0.0;
        }
      }
    }

    /** The first handler of the next link: calls the sink, unless the stream is errored or the
        link before was rejected. */
    method Begin()
      requires Valid() && running.Idle? && jobs != []
      modifies this
      ensures Valid() && running.HasJob() && running.job == old(jobs)[0]
      ensures running.InSink? <==> old(previous).Fulfilled? && !old(state).Errored?
      ensures trace == if running.InSink? then old(trace) + [Began(CallOf(running.job))] else old(trace)
      ensures accepted == old(accepted) && state == old(state) && jobs == old(jobs)[1..]
      ensures previous == old(previous) && closeQueued == old(closeQueued)
      ensures !running.InSink? ==>
        running == Broken(old(jobs)[0], if old(previous).Rejected? then old(previous).reason else old(state).reason)
    {
      hide TraceOf, Sizes, Queued;
      var job := jobs[0];
      ghost var u := Unsettled();
      assert u[0] == job;
      QueuedTail(u, accepted, settledWrites, closeQueued);
      if job.Write? {
        if previous.Fulfilled? {
          WriteTraces(accepted, succeeded);
        }
      } else {
        CloseTraces(accepted, succeeded, true);
      }
      jobs := jobs[1..];
      if previous.Rejected? {
        running := Broken(job, previous.reason);
      } else if state.Errored? {
        running := Broken(job, state.reason);
      } else {
        running := InSink(job);
        stage := if job.Write? then InWrite else InClose;
        trace := trace + [Began(CallOf(job))];
      }
      assert Unsettled() == u;
    }

    /** The sink's promise settles. */
    method SinkSettled(ok: bool, reason: E)
      requires Valid() && running.InSink?
      modifies this
      ensures Valid() && running.HasJob() && running.job == old(running).job
      ensures (running.Finished? <==> ok) && !running.InSink?
      ensures trace == old(trace) + [Ended(CallOf(running.job), ok)]
      ensures accepted == old(accepted) && state == old(state) && jobs == old(jobs)
      ensures previous == old(previous) && closeQueued == old(closeQueued)
      ensures !ok ==> running == Broken(old(running).job, reason)
    {
      hide TraceOf, Sizes, Queued;
      var job := running.job;
      ghost var u := Unsettled();
      assert u[0] == job;
      QueuedTail(u, accepted, settledWrites, closeQueued);
      if job.Write? {
        WriteTraces(accepted, succeeded);
      } else {
        CloseTraces(accepted, succeeded, ok);
      }
      trace := trace + [Ended(CallOf(job), ok)];
      if ok {
        running := Finished(job);
        succeeded := if job.Write? then succeeded + 1 else succeeded;
        stage := if job.Write? then Between else CloseEnded(true);
      } else {
        running := Broken(job, reason);
        stage := if job.Write? then WriteBroken else CloseEnded(false);
      }
      assert Unsettled() == u;
    }

    /** The handler of a write that went through. */
    method WriteFulfilled()
      requires Valid() && running.Finished? && running.job.Write?
      modifies this`queueTotalSize, this`running, this`settledWrites
      ensures Valid() && running.Idle?
    {
      hide TraceOf, Sizes, Queued;
      var size := running.job.size;
      ghost var u := Unsettled();
      assert u[0] == running.job && u[1..] == jobs;
      QueuedTail(u, accepted, settledWrites, closeQueued);
      queueTotalSize := if queueTotalSize - size < 0.0 then 0.0 else queueTotalSize - size;
      running, settledWrites := Idle, settledWrites + 1;
      assert Unsettled() == u[1..];
    }

    /** The handler of a close that went through: it closes the stream even if it was errored
        meanwhile. */
    method CloseFulfilled()
      requires Valid() && running.Finished? && running.job.Close?
      modifies this`state, this`running
      ensures Valid() && running.Idle? && state.Closed?
    {
      hide TraceOf, Sizes, Queued;
      ghost var u := Unsettled();
      assert u[0] == running.job && u[1..] == jobs;
      QueuedTail(u, accepted, settledWrites, closeQueued);
      NoJobs<T>();
      assert jobs == [] && queueTotalSize == 0.0;
      state, running := Closed, Idle;
      assert Unsettled() == [];
    }

    /** The handler of a failed write or close; the rejection goes on to the next link. */
    method LinkRejected()
      requires Valid() && running.Broken?
      modifies this`queueTotalSize, this`running, this`settledWrites, this`previous, this`state
      ensures Valid() && running.Idle? && previous == Rejected(old(running).reason)
      ensures state == (if old(state).Writable? then Errored(old(running).reason) else old(state)) && state.Errored?
    {
      hide TraceOf, Sizes, Queued;
      ghost var u := Unsettled();
      assert u[0] == running.job && u[1..] == jobs;
      QueuedTail(u, accepted, settledWrites, closeQueued);
      if running.job.Write? {
        var size := running.job.size;
        queueTotalSize := if queueTotalSize - size < 0.0 then 0.0 else queueTotalSize - size;
        settledWrites := settledWrites + 1;
      }
      previous := Rejected(running.reason);
      if state.Writable? {
        state, queueTotalSize := Errored(running.reason), 0.0;
      }
      running := Idle;
      assert Unsettled() == u[1..];
    }

    /** The second handler of the link at the head. Only a close that went through leaves the
        errored state. */
    method Settle()
      requires Valid() && (running.Finished? || running.Broken?)
      modifies this
      ensures Valid() && running.Idle? && trace == old(trace) && accepted == old(accepted)
      ensures jobs == old(jobs) && closeQueued == old(closeQueued)
      ensures state.Closed? <==> old(running) == Finished(Job<T>.Close)
      ensures !state.Closed? ==>
        state == if old(running).Broken? && old(state).Writable? then Errored(old(running).reason) else old(state)
      ensures previous == if old(running).Broken? then Rejected(old(running).reason) else old(previous)
    {
      hide TraceOf, Sizes, Queued, Stream.InStep;
      assert !state.Closed?;
      if running.Broken? {
        LinkRejected();
      } else if running.job.Write? {
        WriteFulfilled();
      } else {
        CloseFulfilled();
      }
    }
  }

  /** What a run shows of a stream. */
  datatype Frame<T, E> = Frame(state: State<E>, closeQueued: bool, jobs: seq<Job<T>>, running: Running<T, E>,
                               previous: Link<E>, accepted: seq<T>, trace: seq<SinkEvent<T>>)
  {
    /** Whether a write or a close would be taken. */
    predicate Taking() { state.Writable? && !closeQueued }

    function Failing(reason: E): State<E> { if state.Writable? then Errored(reason) else state }
  }

  /** Everything that can happen to a writable stream. */
  datatype Step<+T, +E> =
    | WriteStep(chunk: T, size: Size<E>) | CloseStep | ErrorStep(reason: E)
    | StartStep(ok: bool, reason: E) | BeginStep | SinkStep(ok: bool, reason: E) | SettleStep

  /** The one thing that a step does, if its promise is pending at all. */
  function Next<T, E>(f: Frame<T, E>, step: Step<T, E>): Frame<T, E> {
    match step
    case WriteStep(chunk, size) =>
      if !f.Taking() then f
      else if size.Bad? then f.(state := Errored(size.reason))
      else f.(jobs := f.jobs + [Job.Write(chunk, size.size)], accepted := f.accepted + [chunk])
    case CloseStep => if f.Taking() then f.(closeQueued := true, jobs := f.jobs + [Job.Close]) else f
    case ErrorStep(reason) => f.(state := f.Failing(reason))
    case StartStep(ok, reason) =>
      if !f.running.Starting? then f
      else
        var g := f.(running := Idle, trace := f.trace + [Ended(StartCall, ok)]);
        if ok then g.(previous := Fulfilled) else g.(state := f.Failing(reason), previous := Rejected(reason))
    case BeginStep =>
      if !f.running.Idle? || f.jobs == [] then f
      else
        var g := f.(jobs := f.jobs[1..]);
        if f.previous.Rejected? then g.(running := Broken(f.jobs[0], f.previous.reason))
        else if f.state.Errored? then g.(running := Broken(f.jobs[0], f.state.reason))
        else g.(running := InSink(f.jobs[0]), trace := f.trace + [Began(CallOf(f.jobs[0]))])
    case SinkStep(ok, reason) =>
      if !f.running.InSink? then f
      else
        f.(trace := f.trace + [Ended(CallOf(f.running.job), ok)],
           running := if ok then Finished(f.running.job) else Broken(f.running.job, reason))
    case SettleStep =>
      match f.running
      case Finished(Close) => f.(running := Idle, state := Closed)
      case Finished(_) => f.(running := Idle)
      case Broken(_, reason) => f.(running := Idle, state := f.Failing(reason), previous := Rejected(reason))
      case _ => f
  }

  function After<T, E>(f: Frame<T, E>, steps: seq<Step<T, E>>): Frame<T, E> {
    if steps == [] then f else Next(After(f, steps[..|steps| - 1]), steps[|steps| - 1])
  }

  /** The chunks that were offered, in order. */
  function Offered<T, E>(steps: seq<Step<T, E>>): seq<T> {
    if steps == [] then []
    else
      var n := |steps| - 1;
      Offered(steps[..n]) + (if steps[n].WriteStep? then [steps[n].chunk] else [])
  }

  /** The writes accepted in a run are the first ones offered, and all of them as long as the stream
      takes writes; once it does not, it never does again. */
  lemma {:induction false} AcceptedAreOffered<T, E>(f: Frame<T, E>, steps: seq<Step<T, E>>)
    ensures var g := After(f, steps);
      && f.accepted <= g.accepted <= f.accepted + Offered(steps)
      && (g.Taking() ==> g.accepted == f.accepted + Offered(steps))
      && (!f.Taking() ==> !g.Taking() && g.accepted == f.accepted)
  {
    if steps != [] {
      hide Next;
      var n := |steps| - 1;
      AcceptedAreOffered(f, steps[..n]);
      OneStepAccepts(After(f, steps[..n]), steps[n]);
    }
  }

  lemma OneStepAccepts<T, E>(f: Frame<T, E>, step: Step<T, E>)
    ensures var g := Next(f, step);
      && (g.accepted == f.accepted || (f.Taking() && step.WriteStep? && g.accepted == f.accepted + [step.chunk]))
      && (step.WriteStep? && g.Taking() ==> g.accepted == f.accepted + [step.chunk])
      && (!f.Taking() ==> !g.Taking())
  {
  }

  /** Any interleaving of steps, in which promises settle only while they are pending: the stream
      ends where the steps lead, the accepted writes are the first ones offered, and the sink is left
      with one of the sequential traces over them. */
  method Drive<T, E>(s: Stream<T, E>, steps: seq<Step<T, E>>)
    requires s.Valid() && forall i :: 0 <= i < |steps| && steps[i].WriteStep? ==> steps[i].size.Valid()
    modifies s
    ensures s.Valid() && Sequential(s.trace) && s.Now() == After(old(s.Now()), steps)
    ensures old(s.accepted) <= s.accepted <= old(s.accepted) + Offered(steps)
    ensures s.Now().Taking() ==> s.accepted == old(s.accepted) + Offered(steps)
    ensures Began(CloseCall) in s.trace ==> s.succeeded == |s.accepted|
  {
    hide Stream.Valid, Sequential, Next;
    for i := 0 to |steps|
      invariant s.Valid() && s.Now() == After(old(s.Now()), steps[..i])
    {
      assert steps[..i + 1][..i] == steps[..i];
      Take(s, steps[i]);
    }
    assert steps[..|steps|] == steps;
    AcceptedAreOffered(old(s.Now()), steps);
    TraceOfValid(s);
  }

  method Take<T, E>(s: Stream<T, E>, step: Step<T, E>)
    requires s.Valid() && (step.WriteStep? ==> step.size.Valid())
    modifies s
    ensures s.Valid() && s.Now() == Next(old(s.Now()), step)
  {
    hide Stream.Valid;
    match step
    case WriteStep(chunk, size) => var _ := s.Write(chunk, size);
    case CloseStep => var _ := s.Close();
    case ErrorStep(reason) => s.Error(reason);
    case StartStep(ok, reason) => if s.running.Starting? { s.StartSettled(ok, reason); }
    case BeginStep => if s.running.Idle? && s.jobs != [] { s.Begin(); }
    case SinkStep(ok, reason) => if s.running.InSink? { s.SinkSettled(ok, reason); }
    case SettleStep => if s.running.Finished? || s.running.Broken? { s.Settle(); }
  }

  lemma TraceOfValid<T, E>(s: Stream<T, E>)
    requires s.Valid()
    ensures Sequential(s.trace) && (Began(CloseCall) in s.trace ==> s.succeeded == |s.accepted|)
  {
    hide Writes, Sequential, Sizes, Queued;
    TracesAreSequential(s.accepted, s.succeeded, s.stage);
    NoCloseAmongWrites(s.accepted, s.succeeded);
  }

  lemma {:induction false} NoCloseAmongWrites<T>(accepted: seq<T>, n: nat)
    requires n <= |accepted|
    ensures Began(CloseCall) !in Writes(accepted, n)
  {
    if n > 0 {
      NoCloseAmongWrites(accepted, n - 1);
    }
  }
}
