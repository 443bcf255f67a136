/** Readable byte streams of web_streams.js with `Uint8Array` views.

    Bytes enter by `enqueue` or by filling a bring-your-own-buffer view and leave by settled
    reads. As long as the stream is used in an orderly way (one kind of reader, at most one
    outstanding view) no byte is lost, duplicated or reordered. */
module ByteStreams {
  import opened Bytes
  import ReadableStreams
  type Mark = ReadableStreams.Mark

  datatype State = Readable | Closed | Errored

  /** How a read settles: with bytes and a done flag, or with an error. */
  datatype Outcome = Pending | Value(bytes: seq<Byte>, done: bool) | Rejected

  datatype Entry = Entry(value: seq<Byte>, offset: nat, size: nat)

  datatype Request =
    | Default(id: nat)
    | Byob(id: nat, capacity: nat, minimum: nat, filled: seq<Byte>)

  /** The bytes still queued, in order. */
  function Unread(queue: seq<Entry>): seq<Byte> {
    if queue == [] then []
    else (if queue[0].offset <= |queue[0].value| then queue[0].value[queue[0].offset..] else []) + Unread(queue[1..])
  }

  lemma {:induction false} UnreadAppend(queue: seq<Entry>, e: Entry)
    requires e.offset <= |e.value|
    ensures Unread(queue + [e]) == Unread(queue) + e.value[e.offset..]
  {
    var more := queue + [e];
    if queue == [] {
      assert more == [e] && more[1..] == [] && Unread([]) == [];
    } else {
      assert more[0] == queue[0] && more[1..] == queue[1..] + [e];
      UnreadAppend(queue[1..], e);
      var head := if queue[0].offset <= |queue[0].value| then queue[0].value[queue[0].offset..] else [];
      assert head + (Unread(queue[1..]) + e.value[e.offset..]) == head + Unread(queue[1..]) + e.value[e.offset..];
    }
  }

  /** The bytes already copied into the view at the head. */
  function Partial(requests: seq<Request>): seq<Byte> {
    if requests != [] && requests[0].Byob? then requests[0].filled else []
  }

  /** Queued entries have unread bytes; without views nothing is ever partly read. */
  ghost predicate QueueShape(queue: seq<Entry>, byobUsed: bool) {
    forall i :: 0 <= i < |queue| ==>
      && queue[i].offset < |queue[i].value|
      && (!byobUsed ==> queue[i].offset == 0 && queue[i].size == |queue[i].value|)
  }

  /** Waiting reads are pending, in order of their numbers, and no view has its minimum yet. */
  ghost predicate RequestShape(requests: seq<Request>, settled: seq<Outcome>, byobUsed: bool, defaultUsed: bool) {
    && (forall i :: 0 <= i < |requests| ==> requests[i].id < |settled| && settled[requests[i].id].Pending?)
    && (forall i, j :: 0 <= i < j < |requests| ==> requests[i].id < requests[j].id)
    && (forall i :: 0 <= i < |requests| && requests[i].Default? ==> defaultUsed)
    && (forall i :: 0 <= i < |requests| && requests[i].Byob? ==>
          byobUsed && |requests[i].filled| < requests[i].minimum <= requests[i].capacity)
  }

  /** The bytes that reads have been given, in the order in which the reads were made. */
  function Collected(settled: seq<Outcome>): seq<Byte> {
    if settled == [] then []
    else
      var last := settled[|settled| - 1];
      Collected(settled[..|settled| - 1]) + (if last.Value? then last.bytes else [])
  }

  /** No read from number `id` on has been given bytes. */
  ghost predicate QuietFrom(settled: seq<Outcome>, id: nat) {
    forall k :: id <= k < |settled| && settled[k].Value? ==> settled[k].bytes == []
  }

  lemma {:induction false} CollectedQuiet(settled: seq<Outcome>, id: nat)
    requires id <= |settled| && QuietFrom(settled, id)
    ensures Collected(settled) == Collected(settled[..id])
    decreases |settled|
  {
    if id == |settled| {
      assert settled[..id] == settled;
    } else {
      var n := |settled| - 1;
      CollectedQuiet(settled[..n], id);
      assert settled[..n][..id] == settled[..id];
    }
  }

  /** Giving bytes to a read after which all is quiet appends them. */
  lemma CollectedSettle(settled: seq<Outcome>, id: nat, outcome: Outcome)
    requires id < |settled| && QuietFrom(settled, id) && outcome.Value?
    ensures Collected(settled[id := outcome]) == Collected(settled) + outcome.bytes
  {
    var after := settled[id := outcome];
    CollectedQuiet(settled, id);
    CollectedQuiet(after, id + 1);
    assert after[..id + 1][..id] == settled[..id];
  }

  /** Settling a pending read without bytes changes nothing. */
  lemma {:induction false} CollectedSilent(settled: seq<Outcome>, id: nat, outcome: Outcome)
    requires id < |settled| && settled[id].Pending? && (outcome.Value? ==> outcome.bytes == [])
    ensures Collected(settled[id := outcome]) == Collected(settled)
    decreases |settled|
  {
    var n := |settled| - 1;
    if id == n {
      assert settled[id := outcome][..n] == settled[..n];
    } else {
      CollectedSilent(settled[..n], id, outcome);
      assert settled[id := outcome][..n] == settled[..n][id := outcome];
    }
  }

  lemma CollectedAppend(settled: seq<Outcome>, outcome: Outcome)
    ensures Collected(settled + [outcome]) == Collected(settled) + (if outcome.Value? then outcome.bytes else [])
    ensures (outcome.Value? ==> outcome.bytes == []) ==> Collected(settled + [outcome]) == Collected(settled)
  {
  }

  /** How closing settles a waiting read: a view keeps what it was given. */
  function ClosedOutcome(request: Request): Outcome {
    match request
    case Default(_) => Value([], true)
    case Byob(_, _, _, filled) => Value(filled, filled == [])
  }

  /** How a waiting read ends when the stream closes or fails. */
  function EndOutcome(request: Request, failed: bool): Outcome {
    if failed then Rejected else ClosedOutcome(request)
  }

  /** The reads after the stream has ended with `requests` waiting. */
  function EndAll(settled: seq<Outcome>, requests: seq<Request>, failed: bool): (r: seq<Outcome>)
    ensures |r| == |settled|
    decreases |requests|
  {
    if requests == [] then settled
    else
      EndAll(if requests[0].id < |settled| then settled[requests[0].id := EndOutcome(requests[0], failed)] else settled,
             requests[1..], failed)
  }

  lemma EndHead(settled: seq<Outcome>, requests: seq<Request>, failed: bool)
    ensures EndAll(settled, [], failed) == settled
    ensures requests != [] && requests[0].id < |settled| ==>
      EndAll(settled, requests, failed)
      == EndAll(settled[requests[0].id := EndOutcome(requests[0], failed)], requests[1..], failed)
  {
  }

  /** Every waiting read ends in its own way, and no other read changes. */
  lemma {:induction false} EndAllSettles(settled: seq<Outcome>, requests: seq<Request>, byobUsed: bool,
                                         defaultUsed: bool, failed: bool, k: nat)
    requires RequestShape(requests, settled, byobUsed, defaultUsed) && k < |settled|
    ensures forall i :: 0 <= i < |requests| && requests[i].id == k ==>
      EndAll(settled, requests, failed)[k] == EndOutcome(requests[i], failed)
    ensures (forall i :: 0 <= i < |requests| ==> requests[i].id != k) ==>
      EndAll(settled, requests, failed)[k] == settled[k]
    decreases |requests|
  {
    if requests != [] {
      var next := settled[requests[0].id := EndOutcome(requests[0], failed)];
      HeadSettled([], settled, requests, byobUsed, defaultUsed, EndOutcome(requests[0], failed));
      EndAllSettles(next, requests[1..], byobUsed, defaultUsed, failed, k);
      assert forall i :: 0 < i < |requests| ==> requests[i] == requests[1..][i - 1];
    }
  }

  /** Closing resolves a waiting default read as done and a view with what it holds, done only if that
      is nothing; failing rejects both. */
  lemma EndAllMeans(settled: seq<Outcome>, requests: seq<Request>, byobUsed: bool, defaultUsed: bool)
    requires RequestShape(requests, settled, byobUsed, defaultUsed)
    ensures forall i :: 0 <= i < |requests| ==>
      && requests[i].id < |settled| && EndAll(settled, requests, true)[requests[i].id] == Rejected
      && EndAll(settled, requests, false)[requests[i].id] ==
           if requests[i].Default? then Value([], true) else Value(requests[i].filled, requests[i].filled == [])
  {
    hide EndAll;
    forall i | 0 <= i < |requests|
      ensures requests[i].id < |settled|
      ensures EndAll(settled, requests, true)[requests[i].id] == EndOutcome(requests[i], true)
      ensures EndAll(settled, requests, false)[requests[i].id] == EndOutcome(requests[i], false)
    {
      EndAllSettles(settled, requests, byobUsed, defaultUsed, true, requests[i].id);
      EndAllSettles(settled, requests, byobUsed, defaultUsed, false, requests[i].id);
    }
  }

  /** A read that got bytes is not done, and one that is done got none. */
  ghost predicate Honest(settled: seq<Outcome>) {
    forall k :: 0 <= k < |settled| && settled[k].Value? ==> (settled[k].done <==> settled[k].bytes == [])
  }

  lemma HonestUpdate(settled: seq<Outcome>, id: nat, outcome: Outcome)
    requires Honest(settled) && (outcome.Value? ==> (outcome.done <==> outcome.bytes == []))
    ensures Honest(settled + [outcome]) && (id < |settled| ==> Honest(settled[id := outcome]))
  {
  }

  lemma {:induction false} HonestEnd(settled: seq<Outcome>, requests: seq<Request>, failed: bool)
    requires Honest(settled) && AllDefault(requests)
    ensures Honest(EndAll(settled, requests, failed))
    decreases |requests|
  {
    if requests != [] {
      hide Honest;
      var next := settled;
      if requests[0].id < |settled| {
        HonestUpdate(settled, requests[0].id, EndOutcome(requests[0], failed));
        next := settled[requests[0].id := EndOutcome(requests[0], failed)];
      }
      HonestEnd(next, requests[1..], failed);
    }
  }

  /** Only the head can be a view when at most one read waits or none of them is a view. */
  lemma PartialNext(requests: seq<Request>, settled: seq<Outcome>, byobUsed: bool, defaultUsed: bool)
    requires requests != [] && RequestShape(requests, settled, byobUsed, defaultUsed)
    ensures (byobUsed ==> |requests| <= 1) ==>
      Partial(requests) == ClosedOutcome(requests[0]).bytes && Partial(requests[1..]) == []
  {
  }

  /** What draining makes of a new view and the unread bytes: either the view gets its minimum, in
      order and within its capacity, or it takes all there is and waits. */
  ghost predicate Drained(view: Request, unread: seq<Byte>, requests: seq<Request>, settled: seq<Outcome>,
                          left: seq<Byte>)
    requires view.Byob?
  {
    if requests == [] then
      && view.id < |settled| && settled[view.id].Value? && !settled[view.id].done
      && view.minimum <= |settled[view.id].bytes| <= view.capacity
      && unread == settled[view.id].bytes + left
    else
      && requests == [view.(filled := unread)] && |unread| < view.minimum && left == []
      && view.id < |settled| && settled[view.id].Pending?
  }

  /** How a view is served from the unread bytes: with at least its minimum if there is that much,
      else with everything, done if the stream is closing and waiting for more if not. */
  ghost predicate ServedWithin(capacity: nat, minimum: nat, unread: seq<Byte>, closing: bool, outcome: Outcome,
                               left: seq<Byte>)
  {
    if |unread| >= minimum then
      outcome.Value? && !outcome.done && minimum <= |outcome.bytes| <= capacity && unread == outcome.bytes + left
    else
      left == [] && outcome == if closing then Value(unread, true) else Pending
  }

  lemma DrainedServes(view: Request, unread: seq<Byte>, requests: seq<Request>, settled: seq<Outcome>, left: seq<Byte>)
    requires view.Byob? && Drained(view, unread, requests, settled, left) && view.id < |settled|
    ensures requests == [] <==> |unread| >= view.minimum
    ensures requests != [] ==> requests[0].id == view.id && ClosedOutcome(requests[0]).bytes == unread && left == []
    ensures requests == [] ==> forall closing ::
      ServedWithin(view.capacity, view.minimum, unread, closing, settled[view.id], left)
    ensures requests != [] ==> ServedWithin(view.capacity, view.minimum, unread, false, settled[view.id], left)
    ensures requests != [] ==> ServedWithin(view.capacity, view.minimum, unread, true, Value(unread, true), left)
  {
  }

  /** The unread bytes of an entry. */
  function Rest(e: Entry): nat { if e.offset <= |e.value| then |e.value| - e.offset else 0 }

  /** The queue after `used` bytes of its first entry were taken. */
  function Advance(queue: seq<Entry>, used: nat): seq<Entry>
    requires queue != []
  {
    if queue[0].offset + used == |queue[0].value| then queue[1..]
    else [queue[0].(offset := queue[0].offset + used)] + queue[1..]
  }

  /** How many bytes a view takes that has room for `room` and wants `need`: whole entries until it has
      what it wants, the last one cut at its room. */
  function Amount(queue: seq<Entry>, room: nat, need: nat): nat
    requires 0 < need <= room
    decreases |queue|
  {
    if queue == [] then 0
    else
      var used := Min(Rest(queue[0]), room);
      if used >= need then used else used + Amount(queue[1..], room - used, need - used)
  }

  /** What such a view leaves in the queue. */
  function Leftover(queue: seq<Entry>, room: nat, need: nat): seq<Entry>
    requires 0 < need <= room
    decreases |queue|
  {
    if queue == [] then []
    else
      var used := Min(Rest(queue[0]), room);
      if used >= need then Advance(queue, used) else Leftover(queue[1..], room - used, need - used)
  }

  /** The view takes the first unread bytes: at least what it wants, if there is so much, and else all. */
  lemma {:induction false} AmountIsTaken(queue: seq<Entry>, room: nat, need: nat)
    requires 0 < need <= room
    ensures var n := Amount(queue, room, need);
      && n <= |Unread(queue)| && n <= room && Unread(Leftover(queue, room, need)) == Unread(queue)[n..]
      && (if |Unread(queue)| < need then n == |Unread(queue)| else need <= n)
    decreases |queue|
  {
    hide Unread;
    UnreadEmpty();
    if queue != [] {
      var used := Min(Rest(queue[0]), room);
      if used >= need {
        ConsumeHead(queue, used);
        UnreadLength(queue);
      } else {
        AmountIsTaken(queue[1..], room - used, need - used);
        UnreadBeyond(queue, Amount(queue[1..], room - used, need - used));
      }
    }
  }

  /** When a view takes everything: it all fits, and what comes before the last entry is not enough. */
  predicate Empties(queue: seq<Entry>, capacity: nat, minimum: nat) {
    queue == [] || (|Unread(queue)| <= capacity && |Unread(queue[..|queue| - 1])| < minimum)
  }

  lemma UnreadLength(queue: seq<Entry>)
    requires queue != []
    ensures |Unread(queue)| == Rest(queue[0]) + |Unread(queue[1..])|
  {
  }

  lemma UnreadBeyond(queue: seq<Entry>, n: nat)
    requires queue != [] && n <= |Unread(queue[1..])|
    ensures |Unread(queue)| == Rest(queue[0]) + |Unread(queue[1..])|
    ensures Unread(queue)[Rest(queue[0]) + n..] == Unread(queue[1..])[n..]
  {
  }

  /** The length of what comes before the last entry. */
  lemma FrontLength(queue: seq<Entry>)
    requires queue != []
    ensures |queue| == 1 ==> Unread(queue[..|queue| - 1]) == [] && Unread(queue[1..]) == []
    ensures |queue| > 1 ==>
      |Unread(queue[..|queue| - 1])| == Rest(queue[0]) + |Unread(queue[1..][..|queue| - 2])|
  {
    hide Unread;
    var front := queue[..|queue| - 1];
    UnreadEmpty();
    if |queue| > 1 {
      UnreadLength(front);
      assert front[1..] == queue[1..][..|queue| - 2];
    }
  }

  lemma AdvancedToNothing(queue: seq<Entry>, used: nat)
    requires queue != [] && 0 < used <= Rest(queue[0])
    ensures Advance(queue, used) == [] <==> |queue| == 1 && used == Rest(queue[0])
  {
  }

  lemma {:induction false} NothingLeftIff(queue: seq<Entry>, room: nat, need: nat)
    requires 0 < need <= room
    ensures Leftover(queue, room, need) == [] <==> Empties(queue, room, need)
    decreases |queue|
  {
    if queue != [] {
      hide Unread, Rest;
      var used := Min(Rest(queue[0]), room);
      UnreadLength(queue);
      FrontLength(queue);
      if used < need {
        NothingLeftIff(queue[1..], room - used, need - used);
      } else {
        AdvancedToNothing(queue, used);
      }
    }
  }

  /** How a view is served, to the byte: with the amount due if that is its minimum, else with
      everything, done if the stream is closing and waiting for more if not. */
  ghost predicate Served(capacity: nat, minimum: nat, queue: seq<Entry>, closing: bool, outcome: Outcome,
                         left: seq<Entry>)
    requires 0 < minimum <= capacity
  {
    var unread, n := Unread(queue), Amount(queue, capacity, minimum);
    && left == Leftover(queue, capacity, minimum) && n <= |unread|
    && outcome == if n >= minimum then Value(unread[..n], false) else if closing then Value(unread, true) else Pending
  }

  lemma ServedExactly(capacity: nat, minimum: nat, queue: seq<Entry>, closing: bool, outcome: Outcome, left: seq<Entry>)
    requires 0 < minimum <= capacity && left == Leftover(queue, capacity, minimum)
    requires ServedWithin(capacity, minimum, Unread(queue), closing, outcome, Unread(left))
    ensures Served(capacity, minimum, queue, closing, outcome, left)
  {
    hide Unread, Amount, Leftover;
    AmountIsTaken(queue, capacity, minimum);
    var unread := Unread(queue);
    if |unread| >= minimum {
      assert unread[..|outcome.bytes|] == outcome.bytes;
    }
  }

  ghost predicate Waiting(view: Request, requests: seq<Request>)
    requires view.Byob?
  {
    |requests| == 1 && requests[0].Byob? && requests[0] == view.(filled := requests[0].filled)
  }

  ghost predicate Filled(view: Request, outcome: Outcome)
    requires view.Byob?
  {
    outcome.Value? && !outcome.done && view.minimum <= |outcome.bytes| <= view.capacity
  }

  /** Conservation decides which bytes the view was given. */
  lemma AfterDraining(view: Request, unread: seq<Byte>, requests: seq<Request>, settled: seq<Outcome>,
                      out: seq<Byte>, left: seq<Byte>)
    requires view.Byob? && view.id < |settled|
    requires requests == [] ==>
      Filled(view, settled[view.id]) && out + unread == out + settled[view.id].bytes + left
    requires requests != [] ==>
      && Waiting(view, requests) && settled[view.id].Pending? && left == []
      && |requests[0].filled| < view.minimum && out + unread == out + (requests[0].filled + left)
    ensures Drained(view, unread, requests, settled, left)
  {
    assert (out + unread)[|out|..] == unread;
    if requests == [] {
      assert (out + settled[view.id].bytes + left)[|out|..] == settled[view.id].bytes + left;
    } else {
      assert (out + (requests[0].filled + left))[|out|..] == requests[0].filled;
    }
  }

  /** The bytes delivered are those of the settled reads, and reads settle in order. */
  ghost predicate Tracks(delivered: seq<Byte>, settled: seq<Outcome>, requests: seq<Request>) {
    && delivered == Collected(settled)
    && (requests != [] ==> QuietFrom(settled, requests[0].id))
  }

  /** Settling the read at the head keeps the rest in shape and appends its bytes. */
  lemma HeadSettled(delivered: seq<Byte>, settled: seq<Outcome>, requests: seq<Request>, byobUsed: bool,
                    defaultUsed: bool, outcome: Outcome)
    requires requests != [] && RequestShape(requests, settled, byobUsed, defaultUsed) && !outcome.Pending?
    ensures requests[0].id < |settled|
    ensures RequestShape(requests[1..], settled[requests[0].id := outcome], byobUsed, defaultUsed)
    ensures Tracks(delivered, settled, requests) && outcome.Value? ==>
      Tracks(delivered + outcome.bytes, settled[requests[0].id := outcome], requests[1..])
  {
    hide Collected;
    if Tracks(delivered, settled, requests) && outcome.Value? {
      CollectedSettle(settled, requests[0].id, outcome);
    }
  }

  /** What a trace shows of a stream between two steps. */
  datatype Frame = Frame(state: State, closing: bool, started: bool, pulling: bool, demand: bool, queue: seq<Entry>,
                         requests: seq<Request>, settled: seq<Outcome>, supplied: seq<Byte>)

  class ByteStream {
    const highWaterMark: Mark
    const hasPull: bool
    var state: State
    var queue: seq<Entry>
    var queueTotalSize: int
    var readRequests: seq<Request>
    var started: bool
    var pulling: bool
    var pullAgain: bool
    var closeRequested: bool
    var settled: seq<Outcome>

    /** All bytes that entered, that left by a read, and that were dropped. */
    ghost var supplied: seq<Byte>
    ghost var delivered: seq<Byte>
    ghost var dropped: seq<Byte>
    ghost var byobUsed: bool
    ghost var defaultUsed: bool
    /** Two views were outstanding at once. */
    ghost var crowded: bool
    ghost var pullsInFlight: nat

    predicate WantsMore()
      reads this
    {
      highWaterMark.Unbounded? || highWaterMark.n - queueTotalSize as real > 0.0
    }

    predicate Demand()
      reads this
    {
      && state.Readable? && started && !closeRequested && hasPull
      && (readRequests != [] || WantsMore())
    }

    ghost predicate Orderly()
      reads this
    {
      !crowded && !(byobUsed && defaultUsed)
    }

    /** What holds however the stream is used. */
    ghost predicate Shape()
      reads this`queue, this`byobUsed, this`readRequests, this`settled, this`defaultUsed, this`state, this`dropped
    {
      && QueueShape(queue, byobUsed)
      && RequestShape(readRequests, settled, byobUsed, defaultUsed)
      && (!state.Readable? ==> readRequests == [] && queue == [])
      && (state.Readable? ==> dropped == [])
    }

    /** The bytes inside the stream: in the view at the head, then in the queue. */
    ghost function Held(): seq<Byte>
      reads this`readRequests, this`queue
    {
      Partial(readRequests) + Unread(queue)
    }

    /** What orderly use maintains besides the bytes themselves. */
    ghost predicate Flow()
      reads this`queueTotalSize, this`queue, this`readRequests, this`byobUsed, this`delivered, this`settled
    {
      && queueTotalSize == |Unread(queue)|
      && (readRequests != [] ==> queue == [])
      && (byobUsed ==> |readRequests| <= 1)
      && Tracks(delivered, settled, readRequests)
    }

    /** Conservation: every byte is, in order, delivered, dropped, in the view or in the queue. */
    ghost predicate Conserved()
      reads this
    {
      supplied == delivered + dropped + Held() && Flow()
    }

    /** Everything but the pull discipline, which the last action of a step restores. */
    ghost predicate Settled()
      reads this
    {
      && Shape() && (Orderly() ==> Conserved()) && (!byobUsed ==> Honest(settled))
      && pullsInFlight == (if pulling then 1 else 0)
    }

    ghost predicate Valid()
      reads this
    {
      Settled() && (Demand() ==> pulling)
    }

    ghost function Now(): Frame
      reads this
    {
      Frame(state, closeRequested, started, pulling, Demand(), queue, readRequests, settled, supplied)
    }

    constructor (highWaterMark: Mark, hasPull: bool)
      ensures Valid() && supplied == delivered == [] && Orderly() && !byobUsed && !defaultUsed && !crowded
      ensures Now() == Frame(Readable, false, false, false, false, [], [], [], [])
    {
      this.highWaterMark, this.hasPull := highWaterMark, hasPull;
      state, queue, queueTotalSize, readRequests, settled := Readable, [], 0, [], [];
      started, pulling, pullAgain, closeRequested := false, false, false, false;
      supplied, delivered, dropped, pullsInFlight := [], [], [], 0;
      byobUsed, defaultUsed, crowded := false, false, false;
      new;
      hide Unread, Collected, QueueShape, RequestShape, Tracks, ByteStream.WantsMore;
      UnreadEmpty();
      NothingHappened();
      assert Held() == [];
      assert Shape();
      assert Flow();
      assert Conserved();
      assert !Demand();
    }

    method CallPull()
      requires Settled()
      modifies this`pulling, this`pullsInFlight
      ensures Valid() && pulling == (old(pulling) || Demand())
    {
      hide Unread, Collected, RequestShape, QueueShape;
      if !state.Readable? || closeRequested || !started || pulling || !hasPull {
        return;
      }
      if readRequests == [] && !WantsMore() {
        return;
      }
      pulling := true;
      pullsInFlight := pullsInFlight + 1;
    }

    method RequestPull()
      requires Settled()
      modifies this`pulling, this`pullAgain, this`pullsInFlight
      ensures Valid() && pulling == (old(pulling) || Demand())
    {
      hide Unread, Collected, RequestShape, QueueShape;
      if pulling {
        pullAgain := true;
        return;
      }
      CallPull();
    }

    /** `finishPullInto`: the view at the head is resolved with what it holds. */
    method FinishPullInto(done: bool)
      requires readRequests != [] && readRequests[0].Byob? && readRequests[0].id < |settled|
      requires settled[readRequests[0].id].Pending?
      modifies this`readRequests, this`settled, this`delivered
      ensures readRequests == old(readRequests)[1..]
      ensures settled == old(settled)[old(readRequests)[0].id := Value(old(readRequests)[0].filled, done)]
      ensures delivered == old(delivered) + old(readRequests)[0].filled
    {
      var request := readRequests[0];
      readRequests := readRequests[1..];
      settled := settled[request.id := Value(request.filled, done)];
      delivered := delivered + request.filled;
    }

    /** `fillPullInto`: copies into the view at the head what fits, and finishes it when it has its
        minimum. */
    method FillPullInto(source: seq<Byte>) returns (count: nat)
      requires readRequests != [] && readRequests[0].Byob? && Shape()
      modifies this`readRequests, this`settled, this`delivered
      ensures Shape() && (source != [] ==> count > 0)
      ensures count == Min(|source|, old(readRequests)[0].capacity - |old(readRequests)[0].filled|)
      ensures |settled| == |old(settled)|
      ensures |readRequests| == |old(readRequests)| - 1 || |readRequests| == |old(readRequests)|
      ensures |readRequests| == |old(readRequests)| - 1 ==>
        && readRequests == old(readRequests)[1..]
        && (readRequests != [] ==> readRequests[0].id > old(readRequests)[0].id)
        && delivered == old(delivered) + (old(readRequests)[0].filled + source[..count])
        && old(readRequests)[0].minimum <= |old(readRequests)[0].filled| + count <= old(readRequests)[0].capacity
        && settled == old(settled)[old(readRequests)[0].id :=
             Value(old(readRequests)[0].filled + source[..count], false)]
      ensures |readRequests| == |old(readRequests)| ==>
        && count == |source| && delivered == old(delivered) && settled == old(settled)
        && readRequests == old(readRequests)[0 := old(readRequests)[0].(filled := old(readRequests)[0].filled + source)]
    {
      var request := readRequests[0];
      count := Min(|source|, request.capacity - |request.filled|);
      request := request.(filled := request.filled + source[..count]);
      readRequests := readRequests[0 := request];
      if |request.filled| >= request.minimum || |request.filled| == request.capacity {
        FinishPullInto(false);
      } else {
        assert source[..count] == source;
      }
    }

    /** One round of `drainByteQueueInto`: the head of the queue goes into the view at the head. */
    method DrainOne() returns (used: nat)
      requires Shape() && state.Readable? && queue != [] && byobUsed
      requires readRequests != [] && readRequests[0].Byob?
      modifies this`readRequests, this`settled, this`delivered, this`queue, this`queueTotalSize
      ensures Shape() && |settled| == |old(settled)|
      ensures 0 < used <= |old(Unread(queue))| && Unread(queue) == old(Unread(queue))[used..]
      ensures queueTotalSize == old(queueTotalSize) - used
      ensures used == Min(Rest(old(queue)[0]), old(readRequests)[0].capacity - |old(readRequests)[0].filled|)
      ensures queue == Advance(old(queue), used)
      ensures
        || |readRequests| == |old(readRequests)| - 1
        || (|readRequests| == |old(readRequests)| && used == Rest(old(queue)[0]))
      ensures |readRequests| == |old(readRequests)| - 1 ==>
        && readRequests == old(readRequests)[1..]
        && (readRequests != [] ==> readRequests[0].id > old(readRequests)[0].id)
        && delivered == old(delivered) + (old(readRequests)[0].filled + old(Unread(queue))[..used])
        && old(readRequests)[0].minimum <= |old(readRequests)[0].filled| + used <= old(readRequests)[0].capacity
        && settled == old(settled)[old(readRequests)[0].id :=
             Value(old(readRequests)[0].filled + old(Unread(queue))[..used], false)]
      ensures |readRequests| == |old(readRequests)| ==>
        && delivered == old(delivered) && settled == old(settled)
        && readRequests == old(readRequests)[0 :=
             old(readRequests)[0].(filled := old(readRequests)[0].filled + old(Unread(queue))[..used])]
    {
      hide Unread, RequestShape;
      var entry := queue[0];
      var source := entry.value[entry.offset..];
      used := FillPullInto(source);
      assert used == |source| ==> source[..used] == source;
      ConsumeHead(queue, used);
      queueTotalSize := queueTotalSize - used;
      if entry.offset + used == |entry.value| {
        queue := queue[1..];
      } else {
        queue := [entry.(offset := entry.offset + used)] + queue[1..];
      }
    }

    /** What draining into view number `id` will leave in the queue. */
    ghost function Goal(id: nat): seq<Entry>
      reads this`queue, this`readRequests
    {
      if readRequests != [] && readRequests[0].id == id && readRequests[0].Byob?
         && |readRequests[0].filled| < readRequests[0].minimum <= readRequests[0].capacity
      then
        var had := |readRequests[0].filled|;
        Leftover(queue, readRequests[0].capacity - had, readRequests[0].minimum - had)
      else queue
    }

    /** While the queue is drained into `view`, number `id`: `out` was delivered before. In orderly
        use the view either still waits at the head or has been given its bytes. */
    ghost predicate Draining(id: nat, view: Request, out: seq<Byte>, made: nat)
      requires view.Byob?
      reads this
    {
      && Shape() && state.Readable? && byobUsed && |settled| == made
      && (readRequests != [] && readRequests[0].id == id ==> readRequests[0].Byob?)
      && (Orderly() ==>
        && id < |settled| && supplied == delivered + (Partial(readRequests) + Unread(queue))
        && queueTotalSize == |Unread(queue)| && Tracks(delivered, settled, readRequests)
        && if readRequests != [] then
             Waiting(view, readRequests) && view.id == id && settled[id].Pending? && delivered == out
           else
             Filled(view, settled[id]) && delivered == out + settled[id].bytes)
    }

    method DrainRound(id: nat, ghost view: Request, ghost out: seq<Byte>, ghost made: nat)
      requires view.Byob? && Draining(id, view, out, made)
      requires queue != [] && readRequests != [] && readRequests[0].id == id
      modifies this`readRequests, this`settled, this`delivered, this`queue, this`queueTotalSize
      ensures Draining(id, view, out, made) && |Unread(queue)| < |old(Unread(queue))|
      ensures Goal(id) == old(Goal(id))
    {
      hide Unread, ByteStream.Shape, Collected, Rest, Advance;
      ghost var had, unread, before := Partial(readRequests), Unread(queue), settled;
      ViewWaits();
      var used := DrainOne();
      ViewWaits();
      if |readRequests| == |old(readRequests)| {
        AllOfEntry(old(queue), used);
      }
      if Orderly() {
        assert unread == unread[..used] + unread[used..];
        if readRequests == [] {
          CollectedSettle(before, id, Value(had + unread[..used], false));
        } else {
          assert out + (had + unread) == out + (had + unread[..used] + unread[used..]);
        }
      }
    }

    /** `drainByteQueueInto`: moves queued bytes into the new view while it is at the head. */
    method Drain(id: nat)
      requires readRequests != [] && Shape() && state.Readable? && byobUsed
      requires readRequests[0].id == id ==> readRequests[0].Byob?
      requires Orderly() ==>
        && readRequests[0].Byob? && readRequests[0].filled == [] && readRequests[0].id == id
        && Draining(id, readRequests[0], delivered, |settled|)
      modifies this`readRequests, this`settled, this`delivered, this`queue, this`queueTotalSize
      ensures Shape() && |settled| == |old(settled)| && queue == old(Goal(id))
      ensures readRequests != [] && readRequests[0].id == id ==> readRequests[0].Byob?
      ensures Orderly() ==> Conserved()
      ensures Orderly() ==> Drained(old(readRequests)[0], old(Unread(queue)), readRequests, settled, Unread(queue))
    {
      hide Unread, ByteStream.Shape, Tracks;
      ghost var view := if readRequests[0].Byob? then readRequests[0] else Byob(id, 0, 0, []);
      ghost var all, out, made := Unread(queue), delivered, |settled|;
      UnreadEmpty();
      assert Orderly() ==> supplied == out + all by {
        assert [] + all == all;
      }
      while queue != [] && readRequests != [] && readRequests[0].id == id
        invariant Draining(id, view, out, made) && Goal(id) == old(Goal(id))
        decreases |Unread(queue)|
      {
        hide ByteStream.Draining, ByteStream.Goal;
        DrainRound(id, view, out, made);
      }
      DroppedNothing();
      if Orderly() {
        ViewWaits();
        assert [] + Unread(queue) == Unread(queue);
        AfterDraining(view, all, readRequests, settled, out, Unread(queue));
      }
    }

    /** `closeReadable`: every waiting read is settled, a partly filled view with what it holds. */
    method CloseReadable()
      requires state.Readable? && RequestShape(readRequests, settled, byobUsed, defaultUsed)
      modifies this`state, this`settled, this`readRequests, this`delivered
      ensures state.Closed? && readRequests == [] && settled == EndAll(old(settled), old(readRequests), false)
      ensures old(Tracks(delivered, settled, readRequests)) && (byobUsed ==> |old(readRequests)| <= 1) ==>
        Tracks(delivered, settled, []) && delivered == old(delivered) + old(Partial(readRequests))
    {
      hide Tracks, RequestShape;
      state := Closed;
      ghost var tidy := Tracks(delivered, settled, readRequests) && (byobUsed ==> |readRequests| <= 1);
      ghost var target := delivered + Partial(readRequests);
      while readRequests != []
        invariant state.Closed? && RequestShape(readRequests, settled, byobUsed, defaultUsed)
        invariant EndAll(settled, readRequests, false) == EndAll(old(settled), old(readRequests), false)
        invariant tidy ==> Tracks(delivered, settled, readRequests) && (byobUsed ==> |readRequests| <= 1)
        invariant tidy ==> delivered + Partial(readRequests) == target
        decreases |readRequests|
      {
        var request := readRequests[0];
        HeadSettled(delivered, settled, readRequests, byobUsed, defaultUsed, ClosedOutcome(request));
        PartialNext(readRequests, settled, byobUsed, defaultUsed);
        readRequests := readRequests[1..];
        settled := settled[request.id := ClosedOutcome(request)];
        delivered := delivered + ClosedOutcome(request).bytes;
      }
    }

    method ErrorReadable()
      requires Settled()
      modifies this`state, this`settled, this`readRequests, this`queue, this`queueTotalSize, this`dropped
      ensures Settled() && state == (if old(state).Readable? then Errored else old(state))
      ensures settled == EndAll(old(settled), old(readRequests), true)
    {
      hide Collected, Unread, RequestShape, QueueShape, EndAll, Honest;
      if !state.Readable? {
        EndHead(settled, [], true);
        return;
      }
      UnreadEmpty();
      NothingQueued(byobUsed);
      if !byobUsed {
        AllAreDefault(readRequests, settled, byobUsed, defaultUsed);
        HonestEnd(settled, readRequests, true);
      }
      assert delivered + dropped == delivered;
      state := Errored;
      dropped := Held();
      queue, queueTotalSize := [], 0;
      while readRequests != []
        invariant |settled| == |old(settled)| && RequestShape(readRequests, settled, byobUsed, defaultUsed)
        invariant Collected(settled) == Collected(old(settled))
        invariant EndAll(settled, readRequests, true) == EndAll(old(settled), old(readRequests), true)
        invariant state.Errored? && queue == [] && queueTotalSize == 0 && dropped == old(Held())
        decreases |readRequests|
      {
        var request := readRequests[0];
        HeadSettled(delivered, settled, readRequests, byobUsed, defaultUsed, Rejected);
        HeadPending(settled, readRequests, byobUsed, defaultUsed);
        CollectedSilent(settled, request.id, Rejected);
        EndHead(settled, readRequests, true);
        readRequests := readRequests[1..];
        settled := settled[request.id := Rejected];
      }
      EndHead(settled, [], true);
    }

    /** The controller's `enqueue`; it refuses empty chunks. */
    method Enqueue(bytes: seq<Byte>) returns (thrown: bool)
      requires Valid()
      modifies this
      ensures Valid()
      ensures defaultUsed == old(defaultUsed) && byobUsed == old(byobUsed) && crowded == old(crowded)
      ensures thrown <==> old(closeRequested) || !old(state).Readable? || bytes == []
      ensures supplied == if thrown then old(supplied) else old(supplied) + bytes
      ensures state == old(state) && pulling == (old(pulling) || Demand())
      ensures closeRequested == old(closeRequested) && started == old(started) && |settled| == |old(settled)|
      ensures thrown ==> Now() == old(Now())
    {
      hide ByteStream.Flow, ByteStream.Held, ByteStream.Demand, ByteStream.Shape;
      if closeRequested || !state.Readable? || bytes == [] {
        return true;
      }
      DroppedNothing();
      Accept(bytes);
      DroppedNothing();
      supplied := supplied + bytes;
      RequestPull();
      return false;
    }

    /** The body of `enqueue`: a view, a default read and the queue take the bytes in that order. */
    method Accept(bytes: seq<Byte>)
      requires Shape() && state.Readable? && bytes != [] && (Orderly() ==> Flow())
      modifies this`readRequests, this`settled, this`delivered, this`queue, this`queueTotalSize
      ensures Shape() && |settled| == |old(settled)| && (!byobUsed && old(Honest(settled)) ==> Honest(settled))
      ensures Orderly() ==> Flow() && delivered + Held() == old(delivered + Held()) + bytes
    {
      hide ByteStream.Flow, ByteStream.Held, ByteStream.Shape, Honest;
      HeadKind();
      var offset := 0;
      if readRequests != [] && readRequests[0].Byob? {
        offset := FeedView(bytes);
      }
      assert bytes[..offset] + bytes[offset..] == bytes;
      ghost var fed := delivered + Held();
      if offset < |bytes| && readRequests != [] && readRequests[0].Default? {
        HeadKind();
        GiveDefault(bytes[offset..]);
        offset := |bytes|;
      }
      if offset < |bytes| {
        Push(bytes, offset);
      }
    }

    lemma DroppedNothing()
      requires Shape() && state.Readable?
      ensures dropped == [] && delivered + dropped == delivered
    {
    }

    lemma ViewWaits()
      requires Shape()
      ensures readRequests != [] && readRequests[0].Byob? ==>
        |readRequests[0].filled| < readRequests[0].minimum <= readRequests[0].capacity
    {
    }

    /** Which reads have been made is known from those waiting. */
    lemma HeadKind()
      requires Shape()
      ensures readRequests != [] && readRequests[0].Byob? ==> byobUsed
      ensures readRequests != [] && readRequests[0].Default? ==> defaultUsed
    {
    }

    /** The part of `enqueue` that feeds the view at the head. */
    method FeedView(bytes: seq<Byte>) returns (count: nat)
      requires Shape() && state.Readable? && readRequests != [] && readRequests[0].Byob? && bytes != []
      requires Orderly() ==> Flow()
      modifies this`readRequests, this`settled, this`delivered
      ensures Shape() && byobUsed && |settled| == |old(settled)|
      ensures count == Min(|bytes|, old(readRequests)[0].capacity - |old(readRequests)[0].filled|)
      ensures count < |bytes| ==> |readRequests| < |old(readRequests)|
      ensures Orderly() ==> Flow() && delivered + Held() == old(delivered + Held()) + bytes[..count]
      ensures Orderly() && count < |bytes| ==> readRequests == []
    {
      hide Unread, Collected;
      UnreadEmpty();
      ghost var id, had, reads0 := readRequests[0].id, Partial(readRequests), settled;
      HeadPending(settled, readRequests, byobUsed, defaultUsed);
      count := FillPullInto(bytes);
      if Orderly() && readRequests == [] {
        CollectedSettle(reads0, id, Value(had + bytes[..count], false));
      }
      if |readRequests| == |old(readRequests)| {
        assert bytes[..count] == bytes;
      }
    }

    /** The part of `enqueue` that resolves the default read at the head. */
    method GiveDefault(bytes: seq<Byte>)
      requires Shape() && state.Readable? && readRequests != [] && readRequests[0].Default? && bytes != []
      requires Orderly() ==> Flow()
      modifies this`readRequests, this`settled, this`delivered
      ensures Shape() && |settled| == |old(settled)| && (old(Honest(settled)) ==> Honest(settled))
      ensures Orderly() ==> Flow() && delivered + Held() == old(delivered + Held()) + bytes
    {
      hide Unread, Collected, Honest;
      UnreadEmpty();
      var id := readRequests[0].id;
      if Honest(settled) {
        HonestUpdate(settled, id, Value(bytes, false));
      }
      HeadSettled(delivered, settled, readRequests, byobUsed, defaultUsed, Value(bytes, false));
      readRequests := readRequests[1..];
      settled := settled[id := Value(bytes, false)];
      delivered := delivered + bytes;
    }

    /** The part of `enqueue` that queues what is left. */
    method Push(bytes: seq<Byte>, offset: nat)
      requires Shape() && state.Readable? && offset < |bytes| && (!byobUsed ==> offset == 0)
      requires Orderly() ==> Flow() && readRequests == []
      modifies this`queue, this`queueTotalSize
      ensures Shape()
      ensures Orderly() ==> Flow() && delivered + Held() == old(delivered + Held()) + bytes[offset..]
    {
      hide Unread, Tracks, RequestShape;
      UnreadAppend(queue, Entry(bytes, offset, |bytes| - offset));
      queue := queue + [Entry(bytes, offset, |bytes| - offset)];
      queueTotalSize := queueTotalSize + |bytes| - offset;
    }

    /** A promise that is settled when it is returned, without bytes. */
    method Answer(outcome: Outcome)
      requires Valid() && (outcome == Rejected || outcome == Value([], true))
      modifies this`settled
      ensures Valid() && settled == old(settled) + [outcome]
    {
      hide Unread, Honest, RequestShape, QueueShape, Tracks;
      SilentAppend(delivered, settled, readRequests, byobUsed, defaultUsed, outcome);
      if !byobUsed {
        HonestUpdate(settled, 0, outcome);
      }
      settled := settled + [outcome];
    }

    /** A new view goes to the end of the waiting reads. */
    method PushView(capacity: nat, minimum: nat)
      requires Settled() && state.Readable? && 0 < minimum <= capacity
      modifies this`settled, this`readRequests, this`byobUsed, this`crowded
      ensures Shape() && byobUsed && crowded == (old(crowded) || old(readRequests) != [])
      ensures settled == old(settled) + [Pending]
      ensures readRequests == old(readRequests) + [Byob(|old(settled)|, capacity, minimum, [])]
      ensures Orderly() ==>
        && supplied == delivered + (Partial(readRequests) + Unread(queue))
        && queueTotalSize == |Unread(queue)| && |readRequests| == 1 && old(readRequests) == []
        && Tracks(delivered, settled, readRequests)
    {
      hide Collected, Unread;
      CollectedAppend(settled, Pending);
      crowded := crowded || readRequests != [];
      byobUsed := true;
      readRequests := readRequests + [Byob(|settled|, capacity, minimum, [])];
      settled := settled + [Pending];
      assert delivered + dropped == delivered;
    }

    /** `readInto` with a view of `capacity` bytes: its promise is number `|old(settled)|`. It never
        ends the stream, not even when the view takes the last bytes of a closing one. */
    method ReadInto(capacity: nat, minimum: int)
      requires Valid()
      modifies this
      ensures Valid() && supplied == old(supplied) && |settled| == |old(settled)| + 1
      ensures pulling == (old(pulling) || Demand())
      ensures defaultUsed == old(defaultUsed) && (crowded ==> old(crowded) || old(readRequests) != [])
      ensures !old(state).Readable? || !(0 < minimum <= capacity) ==>
        settled == old(settled)
          + [if !(0 < minimum <= capacity) || old(state).Errored? then Rejected else Value([], true)]
      ensures state == old(state) && closeRequested == old(closeRequested) && started == old(started)
      ensures queue == if old(state).Readable? && 0 < minimum <= capacity && old(readRequests) == []
        then Leftover(old(queue), capacity, minimum) else old(queue)
      ensures old(state).Readable? && 0 < minimum <= capacity && Orderly() ==>
        Served(capacity, minimum, old(queue), old(closeRequested), settled[|old(settled)|], queue)
    {
      hide Unread, Collected, RequestShape, QueueShape, ServedWithin, ByteStream.Conserved;
      if capacity == 0 || minimum <= 0 || minimum > capacity || state.Errored? {
        Answer(Rejected);
      } else if state.Closed? {
        Answer(Value([], true));
      } else {
        Serve(capacity, minimum);
      }
    }

    /** A new view is queued and takes what the queue has for it. */
    method Attach(capacity: nat, minimum: nat)
      requires Valid() && state.Readable? && 0 < minimum <= capacity
      modifies this`settled, this`readRequests, this`byobUsed, this`crowded, this`delivered
      modifies this`queue, this`queueTotalSize
      ensures Settled() && |settled| == |old(settled)| + 1
      ensures queue == if old(readRequests) == [] then Leftover(old(queue), capacity, minimum) else old(queue)
      ensures defaultUsed == old(defaultUsed) && crowded == (old(crowded) || old(readRequests) != [])
      ensures readRequests != [] && readRequests[0].id == |old(settled)| ==> readRequests[0].Byob?
      ensures Orderly() && readRequests != [] ==> queue == []
      ensures Orderly() ==>
        Drained(Byob(|old(settled)|, capacity, minimum, []), old(Unread(queue)), readRequests, settled, Unread(queue))
    {
      hide Unread, Collected, RequestShape, QueueShape, Drained;
      var id := |settled|;
      RequestFacts(readRequests, settled, byobUsed, defaultUsed);
      PushView(capacity, minimum);
      Drain(id);
    }

    /** `readInto` once its arguments and the state have been found good. */
    method Serve(capacity: nat, minimum: nat)
      requires Valid() && state.Readable? && 0 < minimum <= capacity
      modifies this
      ensures Valid() && supplied == old(supplied) && |settled| == |old(settled)| + 1
      ensures pulling == (old(pulling) || Demand())
      ensures defaultUsed == old(defaultUsed) && (crowded ==> old(crowded) || old(readRequests) != [])
      ensures state == old(state) && closeRequested == old(closeRequested) && started == old(started)
      ensures queue == if old(readRequests) == [] then Leftover(old(queue), capacity, minimum) else old(queue)
      ensures Orderly() ==>
        Served(capacity, minimum, old(queue), old(closeRequested), settled[|old(settled)|], queue)
    {
      hide Unread, Collected, RequestShape, QueueShape, ServedWithin, Served, Drained, Leftover;
      hide ByteStream.Shape, ByteStream.Conserved;
      var id := |settled|;
      ghost var view, all := Byob(id, capacity, minimum, []), Unread(queue);
      Attach(capacity, minimum);
      UnreadEmpty();
      if Orderly() {
        DrainedServes(view, all, readRequests, settled, Unread(queue));
      }
      if closeRequested && queue == [] && readRequests != [] && readRequests[0].id == id {
        EndView();
      } else {
        RequestPull();
      }
      if Orderly() {
        ServedExactly(capacity, minimum, old(queue), old(closeRequested), settled[id], queue);
      }
    }

    /** The stream is closing and has no more bytes: the view ends with what it holds. */
    method EndView()
      requires Settled() && state.Readable? && closeRequested && readRequests != [] && readRequests[0].Byob?
      modifies this`readRequests, this`settled, this`delivered
      ensures Valid() && |settled| == |old(settled)|
      ensures settled[old(readRequests)[0].id] == Value(old(readRequests)[0].filled, true)
    {
      hide Unread, Collected;
      var request := readRequests[0];
      HeadSettled(delivered, settled, readRequests, byobUsed, defaultUsed, Value(request.filled, true));
      HeadPending(settled, readRequests, byobUsed, defaultUsed);
      DroppedNothing();
      FinishPullInto(true);
      assert delivered + dropped == delivered;
    }

    /** The controller's `respond`: the source wrote `bytes` into the rest of the view at the head. */
    method Respond(bytes: seq<Byte>) returns (thrown: bool)
      requires Valid()
      modifies this
      ensures Valid() && |settled| == |old(settled)|
      ensures defaultUsed == old(defaultUsed) && byobUsed == old(byobUsed) && crowded == old(crowded)
      ensures thrown <==>
        || old(readRequests) == [] || !old(readRequests)[0].Byob? || bytes == []
        || |bytes| > old(readRequests)[0].capacity - |old(readRequests)[0].filled|
      ensures supplied == if thrown then old(supplied) else old(supplied) + bytes
      ensures state == old(state) && queue == old(queue) && pulling == old(pulling)
      ensures closeRequested == old(closeRequested) && started == old(started)
      ensures thrown ==> Now() == old(Now())
    {
      hide Unread, Collected, RequestShape, QueueShape;
      if readRequests == [] || !readRequests[0].Byob? {
        return true;
      }
      if bytes == [] || |bytes| > readRequests[0].capacity - |readRequests[0].filled| {
        return true;
      }
      DroppedNothing();
      ghost var before := delivered + Held();
      var count := FeedView(bytes);
      assert count == |bytes| && bytes[..count] == bytes;
      DroppedNothing();
      supplied := supplied + bytes;
      return false;
    }

    /** `closeReadable` with nothing queued: a view's bytes are delivered, nothing is lost. */
    method Finish()
      requires Settled() && state.Readable? && queue == []
      modifies this`state, this`settled, this`readRequests, this`delivered
      ensures Valid() && state.Closed? && settled == EndAll(old(settled), old(readRequests), false)
    {
      hide Unread, Tracks, RequestShape, QueueShape, EndAll, Honest;
      UnreadEmpty();
      DroppedNothing();
      if !byobUsed {
        AllAreDefault(readRequests, settled, byobUsed, defaultUsed);
        HonestEnd(settled, readRequests, false);
      }
      CloseReadable();
      NothingWaits(settled, byobUsed, defaultUsed);
      assert delivered + dropped == delivered;
    }

    /** What a default read made now gets: a whole entry, if there is one. */
    ghost function NextOutcome(): Outcome
      requires Shape()
      reads this
    {
      if queue != [] then Value(queue[0].value[queue[0].offset..], false)
      else Unqueued(state)
    }

    /** A default read that finds bytes in the queue takes a whole entry. */
    method TakeEntry()
      requires Settled() && queue != []
      modifies this`queue, this`queueTotalSize, this`defaultUsed, this`settled, this`delivered
      ensures Settled() && defaultUsed && queue == old(queue)[1..]
      ensures settled == old(settled) + [old(NextOutcome())]
    {
      hide Collected, RequestShape, Unread;
      var entry := queue[0];
      var bytes := entry.value[entry.offset..];
      CollectedAppend(settled, Value(bytes, false));
      LongerIsFine(readRequests, settled, byobUsed, defaultUsed, Value(bytes, false));
      DroppedNothing();
      UnreadHead(queue);
      queue := queue[1..];
      queueTotalSize := queueTotalSize - entry.size;
      defaultUsed := true;
      settled := settled + [Value(bytes, false)];
      delivered := delivered + bytes;
      assert delivered + dropped == delivered;
    }

    method ReadQueued()
      requires Valid() && queue != []
      modifies this
      ensures Valid() && supplied == old(supplied) && |settled| == |old(settled)| + 1
      ensures defaultUsed && byobUsed == old(byobUsed) && crowded == old(crowded)
      ensures pulling == (old(pulling) || Demand()) && queue == old(queue)[1..]
      ensures old(readRequests) == [] ==> settled == old(settled) + [old(NextOutcome())]
      ensures state == (if old(closeRequested) && |old(queue)| == 1 then Closed else Readable)
      ensures closeRequested == old(closeRequested) && started == old(started)
    {
      hide Unread, Tracks, RequestShape, QueueShape, ByteStream.Demand;
      TakeEntry();
      if closeRequested && queue == [] {
        Finish();
      } else {
        RequestPull();
      }
    }

    /** `readFrom` by a default reader: its promise is number `|old(settled)|`. */
    method Read()
      requires Valid()
      modifies this
      ensures Valid() && supplied == old(supplied) && |settled| == |old(settled)| + 1
      ensures byobUsed == old(byobUsed) && crowded == old(crowded)
      ensures pulling == (old(pulling) || Demand())
      ensures queue == if old(queue) == [] then [] else old(queue)[1..]
      ensures old(queue) == [] || old(readRequests) == [] ==> settled == old(settled) + [old(NextOutcome())]
      ensures old(queue) == [] && old(state).Readable? ==> settled == old(settled) + [Pending]
      ensures old(queue) == [] && old(state).Closed? ==> settled == old(settled) + [Value([], true)]
      ensures old(queue) == [] && old(state).Errored? ==> settled == old(settled) + [Rejected]
      ensures old(queue) != [] && old(readRequests) == [] ==>
        settled == old(settled) + [Value(old(queue)[0].value[old(queue)[0].offset..], false)]
      ensures state == if old(closeRequested) && |old(queue)| == 1 then Closed else old(state)
      ensures closeRequested == old(closeRequested) && started == old(started)
      ensures old(queue) == [] ==>
        readRequests == old(readRequests) + if old(state).Readable? then [Default(|old(settled)|)] else []
    {
      hide Collected, Unread, RequestShape, QueueShape, ByteStream.Demand;
      if queue != [] {
        ReadQueued();
      } else if state.Closed? {
        Answer(Value([], true));
      } else if state.Errored? {
        Answer(Rejected);
      } else {
        PushDefault();
        RequestPull();
      }
    }

    method PushDefault()
      requires Settled() && state.Readable? && queue == []
      modifies this`settled, this`readRequests, this`defaultUsed
      ensures Settled() && defaultUsed && settled == old(settled) + [Pending]
      ensures readRequests == old(readRequests) + [Default(|old(settled)|)]
    {
      hide Collected, Unread;
      CollectedAppend(settled, Pending);
      defaultUsed := true;
      readRequests := readRequests + [Default(|settled|)];
      settled := settled + [Pending];
    }

    /** The controller's `close`. */
    method Close() returns (thrown: bool)
      requires Valid()
      modifies this
      ensures Valid() && supplied == old(supplied)
      ensures defaultUsed == old(defaultUsed) && byobUsed == old(byobUsed) && crowded == old(crowded)
      ensures thrown <==> old(closeRequested) || !old(state).Readable?
      ensures thrown ==> Now() == old(Now())
      ensures pulling == old(pulling) && started == old(started) && queue == old(queue)
      ensures !thrown ==> closeRequested && state == (if old(queue) == [] then Closed else Readable)
      ensures old(queue) != [] ==> readRequests == old(readRequests)
      ensures !thrown ==>
        settled == if old(queue) == [] then EndAll(old(settled), old(readRequests), false) else old(settled)
      ensures !thrown && old(queue) == [] ==> forall i :: 0 <= i < |old(readRequests)| ==>
        && old(readRequests)[i].id < |settled|
        && settled[old(readRequests)[i].id] ==
             if old(readRequests)[i].Default? then Value([], true)
             else Value(old(readRequests)[i].filled, old(readRequests)[i].filled == [])
    {
      hide Unread, Collected, RequestShape, QueueShape, EndAll;
      EndAllMeans(settled, readRequests, byobUsed, defaultUsed);
      if closeRequested || !state.Readable? {
        return true;
      }
      closeRequested := true;
      if queue == [] {
        Finish();
      }
      return false;
    }

    method Error()
      requires Valid()
      modifies this
      ensures Valid() && supplied == old(supplied)
      ensures defaultUsed == old(defaultUsed) && byobUsed == old(byobUsed) && crowded == old(crowded)
      ensures state == (if old(state).Readable? then Errored else old(state))
      ensures settled == EndAll(old(settled), old(readRequests), true)
      ensures closeRequested == old(closeRequested) && started == old(started) && pulling == old(pulling) && queue == []
      ensures forall i :: 0 <= i < |old(readRequests)| ==>
        old(readRequests)[i].id < |settled| && settled[old(readRequests)[i].id] == Rejected
    {
      hide EndAll, Unread, Collected, RequestShape, QueueShape;
      EndAllMeans(settled, readRequests, byobUsed, defaultUsed);
      ErrorReadable();
    }

    /** `cancelReadable`: the queue is dropped, a waiting view keeps what it holds. */
    method Cancel()
      requires Valid()
      modifies this
      ensures Valid() && supplied == old(supplied)
      ensures defaultUsed == old(defaultUsed) && byobUsed == old(byobUsed) && crowded == old(crowded)
      ensures state == (if old(state).Readable? then Closed else old(state))
      ensures settled == EndAll(old(settled), old(readRequests), false)
      ensures closeRequested == old(closeRequested) && started == old(started) && pulling == old(pulling) && queue == []
      ensures forall i :: 0 <= i < |old(readRequests)| ==>
        && old(readRequests)[i].id < |settled|
        && settled[old(readRequests)[i].id] ==
             if old(readRequests)[i].Default? then Value([], true)
             else Value(old(readRequests)[i].filled, old(readRequests)[i].filled == [])
    {
      hide EndAll, Unread, Collected, RequestShape, QueueShape;
      EndAllMeans(settled, readRequests, byobUsed, defaultUsed);
      if state.Readable? {
        Discard();
      } else {
        EndHead(settled, [], false);
        queue, queueTotalSize := [], 0;
        UnreadEmpty();
      }
    }

    /** `cancelReadable` of a readable stream. */
    method Discard()
      requires Valid() && state.Readable?
      modifies this`state, this`settled, this`readRequests, this`delivered, this`dropped
      modifies this`queue, this`queueTotalSize
      ensures Valid() && state.Closed? && queue == [] && settled == EndAll(old(settled), old(readRequests), false)
    {
      hide Unread, Tracks, RequestShape, QueueShape, EndAll, Honest;
      UnreadEmpty();
      DroppedNothing();
      if !byobUsed {
        AllAreDefault(readRequests, settled, byobUsed, defaultUsed);
        HonestEnd(settled, readRequests, false);
      }
      ghost var kept := Unread(queue);
      queue, queueTotalSize := [], 0;
      CloseReadable();
      NothingWaits(settled, byobUsed, defaultUsed);
      NothingQueued(byobUsed);
      dropped := kept;
    }

    method Started()
      requires Valid()
      modifies this
      ensures Valid() && supplied == old(supplied) && started
      ensures defaultUsed == old(defaultUsed) && byobUsed == old(byobUsed) && crowded == old(crowded)
      ensures state == old(state) && pulling == (old(pulling) || Demand())
      ensures closeRequested == old(closeRequested) && queue == old(queue)
      ensures settled == old(settled) && readRequests == old(readRequests)
    {
      hide Unread, Collected, RequestShape, QueueShape;
      started := true;
      RequestPull();
    }

    /** The pending pull's promise is fulfilled; the next pull starts exactly when wanted. */
    method PullDone()
      requires Valid() && pullsInFlight > 0
      modifies this
      ensures Valid() && supplied == old(supplied) && pulling == Demand()
      ensures defaultUsed == old(defaultUsed) && byobUsed == old(byobUsed) && crowded == old(crowded)
      ensures state == old(state) && closeRequested == old(closeRequested) && started == old(started)
      ensures queue == old(queue) && settled == old(settled) && readRequests == old(readRequests)
    {
      hide Unread, Collected, RequestShape, QueueShape;
      pulling := false;
      pullsInFlight := pullsInFlight - 1;
      if pullAgain {
        pullAgain := false;
        CallPull();
      } else if readRequests != [] || WantsMore() {
        CallPull();
      }
    }

    /** The pending pull failed; a failed start is `Error`. */
    method PullFailed()
      requires Valid() && pullsInFlight > 0
      modifies this
      ensures Valid() && supplied == old(supplied) && !pulling
      ensures defaultUsed == old(defaultUsed) && byobUsed == old(byobUsed) && crowded == old(crowded)
      ensures state == (if old(state).Readable? then Errored else old(state))
      ensures settled == EndAll(old(settled), old(readRequests), true)
      ensures closeRequested == old(closeRequested) && started == old(started) && queue == []
      ensures forall i :: 0 <= i < |old(readRequests)| ==>
        old(readRequests)[i].id < |settled| && settled[old(readRequests)[i].id] == Rejected
    {
      hide Unread, Collected, RequestShape, QueueShape, EndAll;
      EndAllMeans(settled, readRequests, byobUsed, defaultUsed);
      pulling := false;
      pullsInFlight := pullsInFlight - 1;
      ErrorReadable();
    }
  }

  datatype Step =
    | EnqueueStep(bytes: seq<Byte>)
    | RespondStep(bytes: seq<Byte>)
    | ReadStep
    | ReadIntoStep(capacity: nat, minimum: int)
    | CloseStep | ErrorStep | CancelStep | StartStep | PullStep(ok: bool)

  /** The steps that do nothing: what the controller refuses, a view while a read waits, and the
      completion of a pull that is not in flight. */
  predicate Refused(f: Frame, step: Step) {
    match step
    case EnqueueStep(bytes) => f.closing || !f.state.Readable? || bytes == []
    case RespondStep(bytes) =>
      || f.requests == [] || !f.requests[0].Byob? || bytes == []
      || |bytes| > f.requests[0].capacity - |f.requests[0].filled|
    case ReadIntoStep(_, _) => f.requests != []
    case CloseStep => f.closing || !f.state.Readable?
    case PullStep(_) => !f.pulling
    case _ => false
  }

  /** No mixing of default reads and views. */
  predicate OneKind(steps: seq<Step>) {
    || (forall i :: 0 <= i < |steps| ==> !steps[i].ReadStep?)
    || (forall i :: 0 <= i < |steps| ==> !steps[i].ReadIntoStep?)
  }

  /** The bytes that a step brings into the stream. */
  function Given(f: Frame, step: Step): seq<Byte> {
    if (step.EnqueueStep? || step.RespondStep?) && !Refused(f, step) then step.bytes else []
  }

  /** The state after a step that is not refused: a closing stream is closed by the default read that
      takes its last entry and never by a view. */
  function StateAfter(f: Frame, step: Step): State {
    match step
    case ReadStep => if f.closing && |f.queue| == 1 then Closed else f.state
    case CloseStep => if f.queue == [] then Closed else f.state
    case CancelStep => if f.state.Readable? then Closed else f.state
    case ErrorStep => if f.state.Readable? then Errored else f.state
    case PullStep(ok) => if !ok && f.state.Readable? then Errored else f.state
    case _ => f.state
  }

  /** The fate of a default read that finds nothing queued. */
  function Unqueued(state: State): Outcome {
    match state case Readable => Pending case Closed => Value([], true) case Errored => Rejected
  }

  /** What becomes of queued bytes, waiting reads and settled reads. */
  ghost predicate Moves(f: Frame, step: Step, g: Frame) {
    match step
    case EnqueueStep(_) => |g.settled| == |f.settled|
    case RespondStep(_) => |g.settled| == |f.settled| && g.queue == f.queue
    case ReadStep =>
      && |g.settled| == |f.settled| + 1 && g.queue == (if f.queue == [] then [] else f.queue[1..])
      && (f.queue == [] ==>
           && g.requests == f.requests + (if f.state.Readable? then [Default(|f.settled|)] else [])
           && g.settled == f.settled + [Unqueued(f.state)])
    case ReadIntoStep(capacity, minimum) =>
      && |g.settled| == |f.settled| + 1
      && g.queue ==
           if f.state.Readable? && 0 < minimum <= capacity then Leftover(f.queue, capacity, minimum) else f.queue
    case CloseStep =>
      g.queue == f.queue && g.settled == if f.queue == [] then EndAll(f.settled, f.requests, false) else f.settled
    case CancelStep => g.queue == [] && g.settled == EndAll(f.settled, f.requests, false)
    case ErrorStep => g.queue == [] && g.settled == EndAll(f.settled, f.requests, true)
    case StartStep => g.queue == f.queue && g.requests == f.requests && g.settled == f.settled
    case PullStep(ok) =>
      if ok then g.queue == f.queue && g.requests == f.requests && g.settled == f.settled
      else g.queue == [] && g.settled == EndAll(f.settled, f.requests, true)
  }

  ghost predicate Follows(f: Frame, step: Step, g: Frame) {
    && g.supplied == f.supplied + Given(f, step)
    && if Refused(f, step) then g == f
       else
         && g.state == StateAfter(f, step) && g.closing == (f.closing || step.CloseStep?)
         && g.started == (f.started || step.StartStep?)
         && (g.pulling <==> g.demand || (f.pulling && !step.PullStep?))
         && Moves(f, step, g)
  }

  ghost predicate IsTrace(trace: seq<Frame>, steps: seq<Step>) {
    |trace| == |steps| + 1 && forall i :: 0 <= i < |steps| ==> Follows(trace[i], steps[i], trace[i + 1])
  }

  /** The bytes of all steps that were not refused, in order. */
  function Supplies(trace: seq<Frame>, steps: seq<Step>): seq<Byte>
    requires |trace| == |steps| + 1
  {
    if steps == [] then []
    else
      var n := |steps| - 1;
      Supplies(trace[..n + 1], steps[..n]) + Given(trace[n], steps[n])
  }

  lemma StepSupplies(f: Frame, step: Step, g: Frame)
    requires Follows(f, step, g)
    ensures g.supplied == f.supplied + Given(f, step)
  {
  }

  lemma Associates(a: seq<Byte>, b: seq<Byte>, c: seq<Byte>)
    ensures (a + b) + c == a + (b + c)
  {
  }

  lemma {:induction false} TraceSupplies(trace: seq<Frame>, steps: seq<Step>)
    requires IsTrace(trace, steps)
    ensures trace[|steps|].supplied == trace[0].supplied + Supplies(trace, steps)
    decreases |steps|
  {
    if steps != [] {
      var n := |steps| - 1;
      hide Follows, Given;
      TraceSupplies(trace[..n + 1], steps[..n]);
      assert Follows(trace[n], steps[n], trace[n + 1]);
      StepSupplies(trace[n], steps[n], trace[n + 1]);
      Associates(trace[0].supplied, Supplies(trace[..n + 1], steps[..n]), Given(trace[n], steps[n]));
    }
  }

  // ------------------------------------------------------------------ closing streams that never close

  /** Asked to close, with nothing left to read, and still readable. */
  predicate Stranded(f: Frame) { f.state.Readable? && f.closing && f.queue == [] }

  /** The only steps that end a stranded stream. */
  predicate Ends(f: Frame, step: Step) {
    step.CancelStep? || step.ErrorStep? || (step.PullStep? && !step.ok && f.pulling)
  }

  /** Exactly a view that takes the last bytes of a closing stream strands it, and exactly cancel, error
      and a failing pull end that; no further read and no close does. */
  lemma StrandedIff(f: Frame, step: Step, g: Frame)
    requires Follows(f, step, g)
    ensures Stranded(f) ==> (Stranded(g) <==> !Ends(f, step))
    ensures !Stranded(f) ==>
      (Stranded(g) <==>
        && step.ReadIntoStep? && f.requests == [] && f.state.Readable? && f.closing
        && 0 < step.minimum <= step.capacity && Empties(f.queue, step.capacity, step.minimum))
  {
    hide Leftover, Unread;
    if step.ReadIntoStep? && 0 < step.minimum <= step.capacity {
      NothingLeftIff(f.queue, step.capacity, step.minimum);
    }
  }

  /** Over every run a stranded stream stays so until it is ended, and the default reads made on it
      wait for good. */
  lemma {:induction false} StrandedForGood(trace: seq<Frame>, steps: seq<Step>)
    requires IsTrace(trace, steps) && Stranded(trace[0])
    requires forall i :: 0 <= i < |steps| ==> !Ends(trace[i], steps[i])
    ensures Stranded(trace[|steps|])
    ensures trace[0].requests != [] && AllDefault(trace[0].requests) ==>
      && AllDefault(trace[|steps|].requests)
      && trace[0].requests <= trace[|steps|].requests && trace[0].settled <= trace[|steps|].settled
    decreases |steps|
  {
    if steps != [] {
      hide Follows;
      var n := |steps| - 1;
      StrandedForGood(trace[..n + 1], steps[..n]);
      assert Follows(trace[n], steps[n], trace[n + 1]);
      StrandedIff(trace[n], steps[n], trace[n + 1]);
      DefaultReadsWait(trace[n], steps[n], trace[n + 1]);
    }
  }

  predicate AllDefault(requests: seq<Request>) { forall i :: 0 <= i < |requests| ==> requests[i].Default? }

  lemma DefaultReadsWait(f: Frame, step: Step, g: Frame)
    requires Follows(f, step, g) && Stranded(f) && !Ends(f, step)
    ensures f.requests != [] && AllDefault(f.requests) ==>
      AllDefault(g.requests) && f.requests <= g.requests && f.settled <= g.settled
  {
  }

  /** The shortest way there: one byte, close, one view. */
  method LastByteByView(b: Byte) returns (s: ByteStream)
    ensures fresh(s) && s.Valid() && Stranded(s.Now()) && s.settled == [Value([b], false)]
  {
    hide Served, Leftover, Unread, EndAll, ByteStream.Demand, ByteStream.Valid;
    s := new ByteStream(ReadableStreams.Finite(0.0), false);
    var refused := s.Enqueue([b]);
    OneByteQueued(s, b);
    var late := s.Close();
    ghost var queue := s.queue;
    s.ReadInto(1, 1);
    ServedOne(b, queue, s.settled[0], s.queue);
    assert s.settled == [s.settled[0]];
    NothingUnread(s);
  }

  // ------------------------------------------------------------------ whole runs

  /** Take any steps, in any order; those are refused that find a view while a read waits or complete
      a pull that is not in flight. What was supplied is then the bytes of all steps that were not
      refused, and if all reads are of one kind it is conserved: delivered, dropped or held. */
  method Drive(s: ByteStream, steps: seq<Step>) returns (ghost trace: seq<Frame>)
    requires s.Valid() && !s.byobUsed && !s.defaultUsed && !s.crowded
    modifies s
    ensures s.Valid() && !s.crowded
    ensures IsTrace(trace, steps) && trace[0] == old(s.Now()) && trace[|steps|] == s.Now()
    ensures s.supplied == old(s.supplied) + Supplies(trace, steps)
    ensures (forall i :: 0 <= i < |steps| ==> !steps[i].ReadIntoStep?) ==>
      forall k :: 0 <= k < |s.settled| && s.settled[k].Value? ==> (s.settled[k].done <==> s.settled[k].bytes == [])
    ensures OneKind(steps) ==>
      && s.supplied == s.delivered + s.dropped + (Partial(s.readRequests) + Unread(s.queue))
      && s.delivered == Collected(s.settled) && s.queueTotalSize == |Unread(s.queue)|
  {
    hide ByteStream.Valid, ByteStream.Flow, ByteStream.Held, ByteStream.Now, Follows;
    trace := [s.Now()];
    SuppliedNow(s);
    for i := 0 to |steps|
      invariant s.Valid() && !s.crowded && |trace| == i + 1 && trace[0] == old(s.Now()) && trace[i] == s.Now()
      invariant forall k :: 0 <= k < i ==> Follows(trace[k], steps[k], trace[k + 1])
      invariant s.defaultUsed ==> exists k :: 0 <= k < i && steps[k].ReadStep?
      invariant s.byobUsed ==> exists k :: 0 <= k < i && steps[k].ReadIntoStep?
    {
      Take(s, steps[i]);
      trace := trace + [s.Now()];
    }
    TraceSupplies(trace, steps);
    SuppliedNow(s);
    if s.Orderly() {
      ConservedIfOrderly(s);
    }
    if !s.byobUsed {
      HonestIfDefault(s);
    }
  }

  lemma HonestIfDefault(s: ByteStream)
    requires s.Valid() && !s.byobUsed
    ensures Honest(s.settled)
  {
  }

  /** Demand is never lost and pulls never overlap, as for default streams. */
  lemma ExactlyOnePull(s: ByteStream)
    requires s.Valid()
    ensures s.pullsInFlight <= 1
    ensures && s.state.Readable? && s.started && !s.closeRequested && s.hasPull
            && (s.readRequests != [] || s.highWaterMark.Unbounded? || s.highWaterMark.n > s.queueTotalSize as real) ==>
      s.pullsInFlight == 1
  {
    hide Unread, Collected, RequestShape, QueueShape, Tracks, Honest;
  }

  method Take(s: ByteStream, step: Step)
    requires s.Valid() && !s.crowded
    modifies s
    ensures s.Valid() && !s.crowded && Follows(old(s.Now()), step, s.Now())
    ensures s.defaultUsed ==> old(s.defaultUsed) || step.ReadStep?
    ensures s.byobUsed ==> old(s.byobUsed) || step.ReadIntoStep?
  {
    hide Follows, ByteStream.Valid, ByteStream.Now;
    if step.ReadStep? || step.ReadIntoStep? {
      TakeRead(s, step);
    } else if step.EnqueueStep? || step.RespondStep? || step.StartStep? {
      TakeSupply(s, step);
    } else {
      TakeEnd(s, step);
    }
  }

  method TakeRead(s: ByteStream, step: Step)
    requires s.Valid() && !s.crowded && (step.ReadStep? || step.ReadIntoStep?)
    modifies s
    ensures s.Valid() && !s.crowded && Follows(old(s.Now()), step, s.Now())
    ensures s.defaultUsed ==> old(s.defaultUsed) || step.ReadStep?
    ensures s.byobUsed ==> old(s.byobUsed) || step.ReadIntoStep?
  {
    hide Served, Leftover, Unread, ByteStream.Valid, ByteStream.Shape, ByteStream.Demand;
    PullsCounted(s);
    if step.ReadStep? {
      s.Read();
    } else if s.readRequests == [] {
      s.ReadInto(step.capacity, step.minimum);
    }
    PullsCounted(s);
  }

  method TakeSupply(s: ByteStream, step: Step)
    requires s.Valid() && !s.crowded && (step.EnqueueStep? || step.RespondStep? || step.StartStep?)
    modifies s
    ensures s.Valid() && !s.crowded && Follows(old(s.Now()), step, s.Now())
    ensures s.defaultUsed == old(s.defaultUsed) && s.byobUsed == old(s.byobUsed)
  {
    hide ByteStream.Valid, ByteStream.Demand;
    PullsCounted(s);
    if step.EnqueueStep? {
      var _ := s.Enqueue(step.bytes);
    } else if step.RespondStep? {
      var _ := s.Respond(step.bytes);
    } else {
      s.Started();
    }
    PullsCounted(s);
  }

  method TakeEnd(s: ByteStream, step: Step)
    requires s.Valid() && !s.crowded
    requires step.CloseStep? || step.ErrorStep? || step.CancelStep? || step.PullStep?
    modifies s
    ensures s.Valid() && !s.crowded && Follows(old(s.Now()), step, s.Now())
    ensures s.defaultUsed == old(s.defaultUsed) && s.byobUsed == old(s.byobUsed)
  {
    hide EndAll, ByteStream.Valid, ByteStream.Demand;
    PullsCounted(s);
    match step {
      case CloseStep => var _ := s.Close();
      case ErrorStep => s.Error();
      case CancelStep => s.Cancel();
      case PullStep(ok) => if s.pulling && ok { s.PullDone(); } else if s.pulling { s.PullFailed(); }
    }
    PullsCounted(s);
  }

  lemma PullsCounted(s: ByteStream)
    requires s.Valid()
    ensures s.pullsInFlight == (if s.pulling then 1 else 0) && (s.Demand() ==> s.pulling)
  {
  }

  lemma SuppliedNow(s: ByteStream)
    ensures s.Now().supplied == s.supplied
  {
  }

  lemma OneByteQueued(s: ByteStream, b: Byte)
    requires s.Valid() && s.Orderly() && s.state.Readable? && s.supplied == [b] && s.settled == []
    ensures Unread(s.queue) == [b] && s.queue != [] && s.readRequests == []
  {
    assert s.delivered == [] && s.dropped == [] && s.Held() == [b];
  }

  lemma ServedOne(b: Byte, queue: seq<Entry>, outcome: Outcome, left: seq<Entry>)
    requires Unread(queue) == [b] && Served(1, 1, queue, true, outcome, left)
    ensures outcome == Value([b], false) && Unread(left) == []
  {
    hide Unread, Leftover;
    AmountIsTaken(queue, 1, 1);
  }

  lemma NothingUnread(s: ByteStream)
    requires s.Valid() && Unread(s.queue) == []
    ensures s.queue == []
  {
    EmptyQueue(s.queue, s.byobUsed);
  }

  lemma EmptyQueue(queue: seq<Entry>, byobUsed: bool)
    requires QueueShape(queue, byobUsed) && Unread(queue) == []
    ensures queue == []
  {
    if queue != [] {
      UnreadHead(queue);
    }
  }

  lemma ConservedIfOrderly(s: ByteStream)
    requires s.Valid() && s.Orderly()
    ensures s.supplied == s.delivered + s.dropped + (Partial(s.readRequests) + Unread(s.queue))
    ensures s.delivered == Collected(s.settled) && s.queueTotalSize == |Unread(s.queue)|
  {
  }

  lemma AllOfEntry(queue: seq<Entry>, used: nat)
    requires queue != [] && used == Rest(queue[0]) > 0
    ensures Advance(queue, used) == queue[1..]
  {
  }

  lemma UnreadHead(queue: seq<Entry>)
    requires queue != [] && queue[0].offset <= |queue[0].value|
    ensures Unread(queue) == queue[0].value[queue[0].offset..] + Unread(queue[1..])
  {
  }

  lemma NothingWaits(settled: seq<Outcome>, byobUsed: bool, defaultUsed: bool)
    ensures RequestShape([], settled, byobUsed, defaultUsed)
  {
  }

  /** A read that is settled without bytes when it is made disturbs nothing. */
  lemma SilentAppend(delivered: seq<Byte>, settled: seq<Outcome>, requests: seq<Request>, byobUsed: bool,
                     defaultUsed: bool, outcome: Outcome)
    requires RequestShape(requests, settled, byobUsed, defaultUsed) && (outcome.Value? ==> outcome.bytes == [])
    ensures RequestShape(requests, settled + [outcome], byobUsed, defaultUsed)
    ensures Tracks(delivered, settled, requests) ==> Tracks(delivered, settled + [outcome], requests)
  {
    hide Collected;
    CollectedAppend(settled, outcome);
  }

  lemma LongerIsFine(requests: seq<Request>, settled: seq<Outcome>, byobUsed: bool, defaultUsed: bool, outcome: Outcome)
    requires RequestShape(requests, settled, byobUsed, defaultUsed)
    ensures RequestShape(requests, settled + [outcome], byobUsed, true)
  {
  }

  lemma RequestFacts(requests: seq<Request>, settled: seq<Outcome>, byobUsed: bool, defaultUsed: bool)
    requires RequestShape(requests, settled, byobUsed, defaultUsed)
    ensures forall i :: 0 <= i < |requests| ==> requests[i].id < |settled|
    ensures forall i, j :: 0 <= i < j < |requests| ==> requests[i].id < requests[j].id
    ensures !byobUsed ==> forall i :: 0 <= i < |requests| ==> requests[i].Default?
  {
  }

  lemma AllAreDefault(requests: seq<Request>, settled: seq<Outcome>, byobUsed: bool, defaultUsed: bool)
    requires RequestShape(requests, settled, byobUsed, defaultUsed) && !byobUsed
    ensures AllDefault(requests)
  {
  }

  lemma NothingQueued(byobUsed: bool)
    ensures QueueShape([], byobUsed)
  {
  }

  lemma HeadPending(settled: seq<Outcome>, requests: seq<Request>, byobUsed: bool, defaultUsed: bool)
    requires requests != [] && RequestShape(requests, settled, byobUsed, defaultUsed)
    ensures requests[0].id < |settled| && settled[requests[0].id].Pending?
    ensures requests[0].Byob? ==> byobUsed
    ensures requests[0].Default? ==> defaultUsed
  {
  }

  lemma NothingHappened()
    ensures QueueShape([], false) && RequestShape([], [], false, false) && Tracks([], [], [])
  {
  }

  lemma UnreadEmpty()
    ensures Unread([]) == []
  {
  }

  lemma TakeAndDrop(a: seq<Byte>, b: seq<Byte>, n: nat)
    requires n <= |a|
    ensures (a + b)[..n] == a[..n] && (a + b)[n..] == a[n..] + b
  {
  }

  lemma DropTwice(s: seq<Byte>, m: nat, n: nat)
    requires m + n <= |s|
    ensures s[m..][n..] == s[m + n..]
  {
  }

  /** The entry at the head, advanced by `used` bytes, holds what is left of it. */
  lemma AdvancedHead(queue: seq<Entry>, used: nat)
    requires queue != [] && queue[0].offset + used <= |queue[0].value|
    ensures Unread([queue[0].(offset := queue[0].offset + used)] + queue[1..])
         == queue[0].value[queue[0].offset + used..] + Unread(queue[1..])
  {
    hide Unread;
    var later := [queue[0].(offset := queue[0].offset + used)] + queue[1..];
    assert later[1..] == queue[1..];
    UnreadHead(later);
  }

  /** Advancing the head entry, or removing it when it is used up, consumes its bytes. */
  lemma ConsumeHead(queue: seq<Entry>, used: nat)
    requires queue != [] && queue[0].offset + used <= |queue[0].value|
    ensures |Unread(queue)| >= used && Unread(queue)[..used] == queue[0].value[queue[0].offset..][..used]
    ensures queue[0].offset + used == |queue[0].value| ==> Unread(queue[1..]) == Unread(queue)[used..]
    ensures Unread([queue[0].(offset := queue[0].offset + used)] + queue[1..]) == Unread(queue)[used..]
  {
    hide Unread;
    var e := queue[0];
    UnreadHead(queue);
    AdvancedHead(queue, used);
    TakeAndDrop(e.value[e.offset..], Unread(queue[1..]), used);
    DropTwice(e.value, e.offset, used);
    if e.offset + used == |e.value| {
      assert e.value[e.offset + used..] == [];
    }
  }
}
