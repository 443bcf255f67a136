/** Default readable streams of web_streams.js.

    The reference model knows only the accepted chunks, the number of reads and how the stream
    ends. The class is the queue, request list and pull flags of the source, and every one of
    its steps is proved to be a step of the reference model. */
module ReadableStreams {

  /** How one read settles. */
  datatype Outcome<+T, +E> = Pending | Chunk(value: T) | Done | Rejected(reason: E)

  /** A chunk's size: a finite non-negative number, or the reason why there is none. */
  datatype Size<+E> = Fits(size: real) | Bad(reason: E) {
    predicate Valid() { Fits? ==> size >= 0.0 }
  }

  datatype End<+E> = Open | Ended | Failed(reason: E)

  /** Everything that can happen to a stream: its controller, its reader and the promises of its
      start and pull algorithms. */
  datatype Event<+T, +E> =
    | Enqueue(chunk: T, size: Size<E>) | Read | Close | Fail(reason: E) | Cancel
    | Started | StartFailed(reason: E) | PullDone | PullFailed(reason: E)
  {
    predicate Valid() { Enqueue? ==> size.Valid() }
  }

  /** The reference model: read number k gets chunk number k; reads without a chunk wait or share
      the fate of the stream. */
  datatype Model<T, E> = Model(chunks: seq<T>, asked: nat, end: End<E>) {

    function OutcomeOf(k: nat): Outcome<T, E> {
      if k < |chunks| then Chunk(chunks[k])
      else match end
        case Open => Pending
        case Ended => Done
        case Failed(reason) => Rejected(reason)
    }

    /** Whether anything can still change for a reader. */
    predicate Live() { end.Open? || (end.Ended? && asked < |chunks|) }

    /** Chunks nobody has read yet are dropped. */
    function Drop(last: End<E>): Model<T, E> {
      if !Live() then this
      else Model(if asked < |chunks| then chunks[..asked] else chunks, asked, last)
    }

    function Step(ev: Event<T, E>): Model<T, E> {
      match ev
      case Enqueue(chunk, size) =>
        if !end.Open? then this
        else if size.Bad? && asked <= |chunks| then Drop(Failed(size.reason))
        else this.(chunks := chunks + [chunk])
      case Read => this.(asked := asked + 1)
      case Close => if end.Open? then this.(end := Ended) else this
      case Cancel => Drop(Ended)
      case Fail(reason) => Drop(Failed(reason))
      case StartFailed(reason) => Drop(Failed(reason))
      case PullFailed(reason) => Drop(Failed(reason))
      case Started => this
      case PullDone => this
    }

    function Run(evs: seq<Event<T, E>>): Model<T, E>
      decreases |evs|
    {
      if evs == [] then this else Step(evs[0]).Run(evs[1..])
    }
  }

  lemma {:induction false} RunAppend<T, E>(m: Model<T, E>, evs: seq<Event<T, E>>, ev: Event<T, E>)
    ensures m.Run(evs + [ev]) == m.Run(evs).Step(ev)
    decreases |evs|
  {
    if evs == [] {
      assert (evs + [ev])[1..] == [];
    } else {
      assert (evs + [ev])[1..] == evs[1..] + [ev];
      RunAppend(m.Step(evs[0]), evs[1..], ev);
    }
  }

  /** A read settles once: over any run, what a settled read got never changes, and a chunk it
      got is the accepted chunk of the same number. */
  lemma {:induction false} SettledForGood<T, E>(m: Model<T, E>, evs: seq<Event<T, E>>, k: nat)
    requires k < m.asked && !m.OutcomeOf(k).Pending?
    ensures k < m.Run(evs).asked && m.Run(evs).OutcomeOf(k) == m.OutcomeOf(k)
    decreases |evs|
  {
    if evs != [] {
      SettledForGood(m.Step(evs[0]), evs[1..], k);
    }
  }

  /** Closed and errored are absorbing: nothing is accepted and the end stays the same. */
  lemma {:induction false} EndIsAbsorbing<T, E>(m: Model<T, E>, evs: seq<Event<T, E>>)
    requires !m.Live()
    ensures m.Run(evs).chunks == m.chunks && m.Run(evs).end == m.end && !m.Run(evs).Live()
    decreases |evs|
  {
    if evs != [] {
      EndIsAbsorbing(m.Step(evs[0]), evs[1..]);
    }
  }

  /** Nothing but the source's own close ends the stream. */
  ghost predicate Gentle<T, E>(evs: seq<Event<T, E>>) {
    forall i :: 0 <= i < |evs| ==>
      && !evs[i].Fail? && !evs[i].Cancel? && !evs[i].StartFailed? && !evs[i].PullFailed?
      && (evs[i].Enqueue? ==> evs[i].size.Fits?)
  }

  /** The place of the first close. */
  function FirstClose<T, E>(evs: seq<Event<T, E>>): (c: nat)
    ensures c <= |evs| && (c < |evs| ==> evs[c].Close?) && forall i :: 0 <= i < c ==> !evs[i].Close?
  {
    if evs == [] || evs[0].Close? then 0 else 1 + FirstClose(evs[1..])
  }

  function Reads<T, E>(evs: seq<Event<T, E>>): nat {
    if evs == [] then 0 else Reads(evs[..|evs| - 1]) + if evs[|evs| - 1].Read? then 1 else 0
  }

  /** Nothing is lost by closing: over every gentle run the chunks are exactly those offered before
      the first close, and reads beyond them are done after a close and wait without one. */
  lemma {:induction false} GentleRun<T, E>(m: Model<T, E>, evs: seq<Event<T, E>>)
    requires m.end.Open? && Gentle(evs)
    ensures var r, c := m.Run(evs), FirstClose(evs);
      && r.chunks == m.chunks + Offered(evs[..c]) && r.asked == m.asked + Reads(evs)
      && r.end == (if c < |evs| then Ended else Open)
      && forall k: nat :: r.OutcomeOf(k) ==
           if k < |r.chunks| then Chunk(r.chunks[k]) else if c < |evs| then Done else Pending
    decreases |evs|
  {
    if evs == [] {
      assert m.chunks + Offered(evs[..0]) == m.chunks;
    } else {
      hide Model.Run, Model.Step, Offered, FirstClose, Gentle;
      var n := |evs| - 1;
      GentlePrefix(evs, n);
      GentleRun(m, evs[..n]);
      assert evs == evs[..n] + [evs[n]];
      RunAppend(m, evs[..n], evs[n]);
      GentleStep(m.Run(evs[..n]), evs[n]);
      FirstCloseAppend(evs, n);
      OfferedAppend(evs[..n], evs[n]);
      assert evs[..n][..n] == evs[..n];
    }
  }

  lemma GentlePrefix<T, E>(evs: seq<Event<T, E>>, n: nat)
    requires Gentle(evs) && n < |evs|
    ensures Gentle(evs[..n]) && Gentle([evs[n]])
  {
  }

  lemma GentleStep<T, E>(m: Model<T, E>, ev: Event<T, E>)
    requires Gentle([ev]) && !m.end.Failed?
    ensures var r := m.Step(ev);
      && r.chunks == (if m.end.Open? && ev.Enqueue? then m.chunks + [ev.chunk] else m.chunks)
      && r.asked == m.asked + (if ev.Read? then 1 else 0) && r.end == (if ev.Close? then Ended else m.end)
  {
    assert [ev][0] == ev;
  }

  lemma {:induction false} FirstCloseAppend<T, E>(evs: seq<Event<T, E>>, n: nat)
    requires |evs| == n + 1
    ensures FirstClose(evs) == if FirstClose(evs[..n]) < n || evs[n].Close? then FirstClose(evs[..n]) else |evs|
    ensures var c := FirstClose(evs[..n]);
      if c < n || evs[n].Close? then evs[..FirstClose(evs)] == evs[..n][..c]
      else evs[..FirstClose(evs)] == evs && c == n
    decreases n
  {
    if n > 0 {
      FirstCloseAppend(evs[1..], n - 1);
      assert evs[1..][..n - 1] == evs[..n][1..];
    }
  }

  /** How the stream ends decides every read that has not been given a chunk: after an error or a
      cancellation, also those whose chunk was still queued. */
  lemma EndDecides<T, E>(m: Model<T, E>, ev: Event<T, E>, k: nat)
    requires m.Live() && !(k < m.asked && k < |m.chunks|)
    ensures ev.Cancel? ==> m.Step(ev).OutcomeOf(k) == Done
    ensures ev.Fail? || ev.StartFailed? || ev.PullFailed? ==> m.Step(ev).OutcomeOf(k) == Rejected(ev.reason)
    ensures ev.Enqueue? && m.end.Open? && ev.size.Bad? && m.asked <= |m.chunks| ==>
      m.Step(ev).OutcomeOf(k) == Rejected(ev.size.reason)
    ensures ev.Enqueue? && m.end.Open? && (ev.size.Fits? || m.asked > |m.chunks|) && k == |m.chunks| ==>
      m.Step(ev).OutcomeOf(k) == Chunk(ev.chunk)
  {
  }

  datatype Mark = Finite(n: real) | Unbounded

  datatype State<+E> = Readable | Closed | Errored(reason: E)

  datatype Entry<+T> = Entry(value: T, size: real)

  function Total<T>(queue: seq<Entry<T>>): real {
    if queue == [] then 0.0 else queue[0].size + Total(queue[1..])
  }

  lemma {:induction false} TotalAppend<T>(queue: seq<Entry<T>>, e: Entry<T>)
    ensures Total(queue + [e]) == Total(queue) + e.size
  {
    if queue == [] {
      assert queue + [e] == [e];
    } else {
      assert (queue + [e])[1..] == queue[1..] + [e];
      TotalAppend(queue[1..], e);
    }
  }

  class Stream<T, E> {
    const highWaterMark: Mark
    const hasPull: bool
    var state: State<E>
    var queue: seq<Entry<T>>
    var queueTotalSize: real
    /** The reads waiting for a chunk, by number. */
    var readRequests: seq<nat>
    var started: bool
    var pulling: bool
    var pullAgain: bool
    var closeRequested: bool
    /** What the promise of each read has settled to. */
    var settled: seq<Outcome<T, E>>

    ghost var model: Model<T, E>
    /** Calls of the pull algorithm whose promise is still pending. */
    ghost var pullsInFlight: nat

    predicate WantsMore()
      reads this
    {
      highWaterMark.Unbounded? || highWaterMark.n - queueTotalSize > 0.0
    }

    /** The stream is ready for data and either somebody waits for it or there is room. */
    predicate Demand()
      reads this
    {
      && state.Readable? && started && !closeRequested && hasPull
      && (readRequests != [] || WantsMore())
    }

    /** The queue, the requests and the settled reads are those of the reference model. */
    ghost predicate Agrees()
      reads this
    {
      && (state.Readable? <==> model.Live())
      && (state.Errored? ==> model.end == Failed(state.reason))
      && (state.Closed? ==> model.end.Ended?)
      && (model.end.Failed? ==> |model.chunks| <= model.asked)
      && (state.Readable? ==> (closeRequested <==> model.end.Ended?))
      && |queue| == (if model.asked < |model.chunks| then |model.chunks| - model.asked else 0)
      && (forall i :: 0 <= i < |queue| ==> queue[i].value == model.chunks[model.asked + i])
      && queueTotalSize == Total(queue)
      && |readRequests| == (if model.end.Open? && model.asked > |model.chunks| then model.asked - |model.chunks| else 0)
      && (forall i :: 0 <= i < |readRequests| ==> readRequests[i] == |model.chunks| + i)
      && |settled| == model.asked
      && (forall k :: 0 <= k < |settled| ==> settled[k] == model.OutcomeOf(k))
    }

    /** The waiting reads are exactly those the model leaves pending. */
    lemma Waiting()
      requires Agrees()
      ensures forall k :: k in readRequests <==> model.end.Open? && |model.chunks| <= k < model.asked
    {
      forall k | model.end.Open? && |model.chunks| <= k < model.asked
        ensures k in readRequests
      {
        assert readRequests[k - |model.chunks|] == k;
      }
    }

    /** Pulls never overlap and demand is never lost. */
    ghost predicate Valid()
      reads this
    {
      && Agrees()
      && pullsInFlight == (if pulling then 1 else 0)
      && (Demand() ==> pulling)
    }

    ghost function Now(): Frame<T, E>
      reads this
    {
      Frame(model, pulling, Demand())
    }

    constructor (highWaterMark: Mark, hasPull: bool)
      ensures Valid() && model == Model([], 0, Open) && !pulling && !started
    {
      this.highWaterMark, this.hasPull := highWaterMark, hasPull;
      state, queue, queueTotalSize, readRequests, settled := Readable, [], 0.0, [], [];
      started, pulling, pullAgain, closeRequested := false, false, false, false;
      model, pullsInFlight := Model([], 0, Open), 0;
    }

    /** Resolves or rejects the promise of a read that is still pending. */
    method Settle(id: nat, outcome: Outcome<T, E>)
      requires id < |settled| && settled[id].Pending?
      modifies this`settled
      ensures settled == old(settled)[id := outcome]
    {
      settled := settled[id := outcome];
    }

    /** Settles every waiting read the same way. */
    method SettleAll(outcome: Outcome<T, E>)
      requires forall i :: 0 <= i < |readRequests| ==> readRequests[i] < |settled| && settled[readRequests[i]].Pending?
      requires forall i, j :: 0 <= i < j < |readRequests| ==> readRequests[i] != readRequests[j]
      modifies this`settled, this`readRequests
      ensures readRequests == [] && |settled| == |old(settled)|
      ensures forall k :: 0 <= k < |settled| ==>
        settled[k] == if k in old(readRequests) then outcome else old(settled)[k]
    {
      ghost var all := readRequests;
      while readRequests != []
        invariant |readRequests| <= |all| && readRequests == all[|all| - |readRequests|..]
        invariant |settled| == |old(settled)|
        invariant forall k :: 0 <= k < |settled| ==>
          settled[k] == if k in all[..|all| - |readRequests|] then outcome else old(settled)[k]
        decreases |readRequests|
      {
        var id := readRequests[0];
        ghost var n := |all| - |readRequests|;
        assert all[..n + 1] == all[..n] + [id] && id == all[n];
        readRequests := readRequests[1..];
        Settle(id, outcome);
      }
      assert all[..|all|] == all;
    }

    /** `closeReadable` up to the bookkeeping of the model, which is the caller's. */
    method CloseReadable()
      requires forall i :: 0 <= i < |readRequests| ==> readRequests[i] < |settled| && settled[readRequests[i]].Pending?
      requires forall i, j :: 0 <= i < j < |readRequests| ==> readRequests[i] != readRequests[j]
      modifies this`state, this`settled, this`readRequests
      ensures !old(state).Readable? ==>
        state == old(state) && settled == old(settled) && readRequests == old(readRequests)
      ensures old(state).Readable? ==>
        && state.Closed? && readRequests == [] && |settled| == |old(settled)|
        && forall k :: 0 <= k < |settled| ==>
             settled[k] == if k in old(readRequests) then Done else old(settled)[k]
    {
      if !state.Readable? {
        return;
      }
      state := Closed;
      SettleAll(Done);
    }

    method ErrorReadable(reason: E)
      requires Agrees()
      modifies this`state, this`settled, this`readRequests, this`queue, this`queueTotalSize, this`model
      ensures Agrees() && model == old(model).Drop(Failed(reason)) && !state.Readable?
    {
      if !state.Readable? {
        return;
      }
      Waiting();
      state, queue, queueTotalSize := Errored(reason), [], 0.0;
      SettleAll(Rejected(reason));
      model := model.Drop(Failed(reason));
    }

    method CallPull()
      requires Agrees() && pullsInFlight == (if pulling then 1 else 0)
      modifies this`pulling, this`pullsInFlight
      ensures Valid() && pulling == (old(pulling) || Demand())
    {
      if !state.Readable? || closeRequested || !started || pulling || !hasPull {
        return;
      }
      if readRequests == [] && !WantsMore() {
        return;
      }
      pulling := true;
      pullsInFlight := pullsInFlight + 1;
    }

    method RequestPull()
      requires Agrees() && pullsInFlight == (if pulling then 1 else 0)
      modifies this`pulling, this`pullAgain, this`pullsInFlight
      ensures Valid() && pulling == (old(pulling) || Demand())
    {
      if pulling {
        pullAgain := true;
        return;
      }
      CallPull();
    }

    /** The controller's `enqueue`; a chunk goes to the first waiting read or to the queue. */
    method Enqueue(chunk: T, size: Size<E>) returns (thrown: bool)
      requires Valid() && size.Valid()
      modifies this
      ensures Valid() && model == old(model).Step(Event.Enqueue(chunk, size))
      ensures pulling == (old(pulling) || Demand())
      ensures thrown <==> model.chunks == old(model).chunks || model.end != old(model).end
    {
      if closeRequested || !state.Readable? {
        return true;
      }
      if readRequests != [] {
        Hand(chunk);
      } else {
        if size.Bad? {
          ErrorReadable(size.reason);
          return true;
        }
        Append(chunk, size.size);
      }
      RequestPull();
      return false;
    }

    /** A chunk for the first waiting read. */
    method Hand(chunk: T)
      requires Agrees() && state.Readable? && !closeRequested && readRequests != []
      modifies this`readRequests, this`settled, this`model
      ensures Agrees() && model == old(model).(chunks := old(model).chunks + [chunk])
    {
      var id := readRequests[0];
      readRequests := readRequests[1..];
      Settle(id, Chunk(chunk));
      model := model.(chunks := model.chunks + [chunk]);
    }

    /** A chunk for the queue. */
    method Append(chunk: T, size: real)
      requires Agrees() && state.Readable? && !closeRequested && readRequests == []
      modifies this`queue, this`queueTotalSize, this`model
      ensures Agrees() && model == old(model).(chunks := old(model).chunks + [chunk])
    {
      TotalAppend(queue, Entry(chunk, size));
      queue := queue + [Entry(chunk, size)];
      queueTotalSize := queueTotalSize + size;
      model := model.(chunks := model.chunks + [chunk]);
    }

    /** A read that finds a chunk in the queue. */
    method ReadQueued()
      requires Valid() && queue != []
      modifies this
      ensures Valid() && model == old(model).Step(Event.Read)
      ensures pulling == (old(pulling) || Demand())
    {
      var entry := queue[0];
      queue := queue[1..];
      queueTotalSize := queueTotalSize - entry.size;
      settled := settled + [Chunk(entry.value)];
      model := model.Step(Event.Read);
      if closeRequested && queue == [] {
        CloseReadable();
      } else {
        RequestPull();
      }
    }

    /** A reader's `read`: the promise is number `old(model).asked`. */
    method Read()
      requires Valid()
      modifies this
      ensures Valid() && model == old(model).Step(Event.Read)
      ensures pulling == (old(pulling) || Demand())
    {
      if queue != [] {
        ReadQueued();
        return;
      }
      model := model.Step(Event.Read);
      if state.Closed? {
        settled := settled + [Done];
      } else if state.Errored? {
        settled := settled + [Rejected(state.reason)];
      } else {
        readRequests := readRequests + [|settled|];
        settled := settled + [Pending];
        RequestPull();
      }
    }

    /** The controller's `close`. */
    method Close() returns (thrown: bool)
      requires Valid()
      modifies this
      ensures Valid() && model == old(model).Step(Event.Close)
      ensures pulling == (old(pulling) || Demand())
      ensures thrown <==> !old(model).end.Open?
    {
      if closeRequested || !state.Readable? {
        return true;
      }
      Waiting();
      closeRequested := true;
      if queue == [] {
        CloseReadable();
      }
      model := model.Step(Event.Close);
      return false;
    }

    /** The controller's `error`. */
    method Error(reason: E)
      requires Valid()
      modifies this
      ensures Valid() && model == old(model).Step(Event.Fail(reason))
      ensures pulling == (old(pulling) || Demand())
    {
      ErrorReadable(reason);
    }

    /** `cancelReadable`: forgets the queue and closes. */
    method Cancel()
      requires Valid()
      modifies this
      ensures Valid() && model == old(model).Step(Event.Cancel)
      ensures pulling == (old(pulling) || Demand())
    {
      Waiting();
      queue, queueTotalSize := [], 0.0;
      if state.Readable? {
        CloseReadable();
      }
      model := model.Step(Event.Cancel);
    }

    /** The start algorithm's promise is fulfilled. */
    method Started()
      requires Valid()
      modifies this
      ensures Valid() && model == old(model).Step(Event.Started) && started
      ensures pulling == (old(pulling) || Demand())
    {
      started := true;
      RequestPull();
    }

    method StartFailed(reason: E)
      requires Valid()
      modifies this
      ensures Valid() && model == old(model).Step(Event.StartFailed(reason))
      ensures pulling == (old(pulling) || Demand())
    {
      ErrorReadable(reason);
    }

    /** The pending pull's promise is fulfilled; the next pull starts exactly when wanted. */
    method PullDone()
      requires Valid() && pullsInFlight > 0
      modifies this
      ensures Valid() && model == old(model).Step(Event.PullDone) && pulling == Demand()
    {
      pulling := false;
      pullsInFlight := pullsInFlight - 1;
      if pullAgain {
        pullAgain := false;
        CallPull();
      } else if readRequests != [] || WantsMore() {
        CallPull();
      }
    }

    method PullFailed(reason: E)
      requires Valid() && pullsInFlight > 0
      modifies this
      ensures Valid() && model == old(model).Step(Event.PullFailed(reason)) && !pulling
    {
      pulling := false;
      pullsInFlight := pullsInFlight - 1;
      ErrorReadable(reason);
    }
  }

  /** Demand is never lost and pulls never overlap: in every valid state that is readable, started
      and not closing, with a pull algorithm and a waiting read or room in the queue, exactly one
      pull is in flight, and never more than one. */
  lemma ExactlyOnePull<T, E>(s: Stream<T, E>)
    requires s.Valid()
    ensures s.pullsInFlight <= 1
    ensures && s.state.Readable? && s.started && !s.closeRequested && s.hasPull
            && (s.readRequests != [] || s.highWaterMark.Unbounded? || s.highWaterMark.n > s.queueTotalSize) ==>
      s.pullsInFlight == 1
  {
  }

  /** What a trace shows of a stream between two events. */
  datatype Frame<T, E> = Frame(model: Model<T, E>, pulling: bool, demand: bool)

  /** A pull cannot complete while none is in flight. */
  predicate Skipped<T, E>(f: Frame<T, E>, ev: Event<T, E>) { (ev.PullDone? || ev.PullFailed?) && !f.pulling }

  /** An event is a step of the model, and afterwards a pull is in flight exactly if one was and has
      not completed, or there is demand. */
  ghost predicate Follows<T, E>(f: Frame<T, E>, ev: Event<T, E>, g: Frame<T, E>) {
    if Skipped(f, ev) then g == f
    else
      && g.model == f.model.Step(ev)
      && (g.pulling <==> g.demand || (f.pulling && !ev.PullDone? && !ev.PullFailed?))
  }

  ghost predicate IsTrace<T, E>(trace: seq<Frame<T, E>>, evs: seq<Event<T, E>>) {
    |trace| == |evs| + 1 && forall i :: 0 <= i < |evs| ==> Follows(trace[i], evs[i], trace[i + 1])
  }

  /** All events but those completions of a pull that found none in flight. */
  function Taken<T, E>(trace: seq<Frame<T, E>>, evs: seq<Event<T, E>>): seq<Event<T, E>>
    requires |trace| == |evs| + 1
  {
    if evs == [] then []
    else
      var n := |evs| - 1;
      Taken(trace[..n + 1], evs[..n]) + (if Skipped(trace[n], evs[n]) then [] else [evs[n]])
  }

  /** The chunks that were offered, in order. */
  function Offered<T, E>(evs: seq<Event<T, E>>): seq<T> {
    if evs == [] then []
    else
      var n := |evs| - 1;
      Offered(evs[..n]) + (if evs[n].Enqueue? then [evs[n].chunk] else [])
  }

  lemma OfferedAppend<T, E>(evs: seq<Event<T, E>>, ev: Event<T, E>)
    ensures Offered(evs + [ev]) == Offered(evs) + (if ev.Enqueue? then [ev.chunk] else [])
  {
    assert (evs + [ev])[..|evs|] == evs;
  }

  /** A trace is a run of the model over the events taken, and no chunk offered is missing there. */
  lemma {:induction false} TraceRuns<T, E>(trace: seq<Frame<T, E>>, evs: seq<Event<T, E>>)
    requires IsTrace(trace, evs)
    ensures trace[|evs|].model == trace[0].model.Run(Taken(trace, evs)) && Offered(Taken(trace, evs)) == Offered(evs)
    decreases |evs|
  {
    if evs == [] {
      assert trace[0].model.Run([]) == trace[0].model;
    } else {
      hide Model.Step, Model.Run, Offered;
      var n := |evs| - 1;
      var before := Taken(trace[..n + 1], evs[..n]);
      assert before + [] == before && evs == evs[..n] + [evs[n]];
      OfferedAppend(evs[..n], evs[n]);
      TraceRuns(trace[..n + 1], evs[..n]);
      assert Follows(trace[n], evs[n], trace[n + 1]);
      RunAppend(trace[0].model, before, evs[n]);
      OfferedAppend(before, evs[n]);
    }
  }

  /** First in, first out over every run: the chunks kept are the first ones offered, and all of
      them as long as the stream is open. */
  lemma {:induction false} ChunksAreOffered<T, E>(m: Model<T, E>, evs: seq<Event<T, E>>)
    ensures m.Run(evs).chunks <= m.chunks + Offered(evs)
    ensures m.Run(evs).end.Open? ==> m.Run(evs).chunks == m.chunks + Offered(evs)
    decreases |evs|
  {
    if evs != [] {
      var n := |evs| - 1;
      ChunksAreOffered(m, evs[..n]);
      assert evs == evs[..n] + [evs[n]];
      RunAppend(m, evs[..n], evs[n]);
    }
  }

  /** Any interleaving of events, in which a pull can complete only while one is in flight: every
      other event is taken, in order, the stream follows the reference model, and the k-th read that
      gets a chunk gets the k-th chunk offered. */
  method Drive<T, E>(s: Stream<T, E>, evs: seq<Event<T, E>>) returns (ghost trace: seq<Frame<T, E>>)
    requires s.Valid() && forall i :: 0 <= i < |evs| ==> evs[i].Valid()
    modifies s
    ensures s.Valid() && IsTrace(trace, evs) && trace[0] == old(s.Now()) && trace[|evs|] == s.Now()
    ensures s.model == old(s.model).Run(Taken(trace, evs))
    ensures var all := old(s.model).chunks + Offered(evs);
      forall k :: 0 <= k < |s.settled| && s.settled[k].Chunk? ==> k < |all| && s.settled[k].value == all[k]
    ensures old(s.model).end.Open? && Gentle(evs) ==>
      var all, c := old(s.model).chunks + Offered(evs[..FirstClose(evs)]), FirstClose(evs);
      && |s.settled| == old(s.model).asked + Reads(evs)
      && (s.state.Readable? <==> c == |evs| || |s.settled| < |all|)
      && forall k :: 0 <= k < |s.settled| ==>
           s.settled[k] == if k < |all| then Chunk(all[k]) else if c < |evs| then Done else Pending
  {
    hide Model.Step, Model.Run;
    trace := [s.Now()];
    for i := 0 to |evs|
      invariant s.Valid() && IsTrace(trace, evs[..i]) && trace[0] == old(s.Now()) && trace[i] == s.Now()
    {
      ghost var f := s.Now();
      Take(s, evs[i]);
      assert Follows(f, evs[i], s.Now());
      trace := trace + [s.Now()];
    }
    assert evs[..|evs|] == evs;
    TraceRuns(trace, evs);
    ChunksAreOffered(old(s.model), Taken(trace, evs));
    ReadsAreChunks(s);
    if old(s.model).end.Open? && Gentle(evs) {
      GentleTrace(trace, evs);
      GentleRun(old(s.model), evs);
    }
  }

  /** Completions of a pull that is not in flight change nothing in a gentle run. */
  lemma {:induction false} GentleTrace<T, E>(trace: seq<Frame<T, E>>, evs: seq<Event<T, E>>)
    requires IsTrace(trace, evs) && Gentle(evs)
    ensures trace[|evs|].model == trace[0].model.Run(evs)
    decreases |evs|
  {
    if evs == [] {
      assert trace[0].model.Run(evs) == trace[0].model;
    } else {
      var n := |evs| - 1;
      assert Gentle(evs[..n]);
      GentleTrace(trace[..n + 1], evs[..n]);
      assert Follows(trace[n], evs[n], trace[n + 1]) && evs == evs[..n] + [evs[n]];
      hide Model.Run;
      RunAppend(trace[0].model, evs[..n], evs[n]);
    }
  }

  method Take<T, E>(s: Stream<T, E>, ev: Event<T, E>)
    requires s.Valid() && ev.Valid()
    modifies s
    ensures s.Valid() && Follows(old(s.Now()), ev, s.Now())
  {
    hide Stream.Agrees, Model.Step, Stream.Demand;
    if (ev.PullDone? || ev.PullFailed?) && !s.pulling {
      return;
    }
    match ev
    case Enqueue(chunk, size) => var _ := s.Enqueue(chunk, size);
    case Read => s.Read();
    case Close => var _ := s.Close();
    case Fail(reason) => s.Error(reason);
    case Cancel => s.Cancel();
    case Started => s.Started();
    case StartFailed(reason) => s.StartFailed(reason);
    case PullDone => s.PullDone();
    case PullFailed(reason) => s.PullFailed(reason);
  }

  lemma ReadsAreChunks<T, E>(s: Stream<T, E>)
    requires s.Valid()
    ensures forall k :: 0 <= k < |s.settled| && s.settled[k].Chunk? ==>
      k < |s.model.chunks| && s.settled[k].value == s.model.chunks[k]
    ensures |s.settled| == s.model.asked && forall k :: 0 <= k < |s.settled| ==> s.settled[k] == s.model.OutcomeOf(k)
    ensures s.state.Readable? <==> s.model.end.Open? || (s.model.end.Ended? && |s.settled| < |s.model.chunks|)
  {
  }
}
