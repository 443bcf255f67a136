/** The undo log of limine.c: every write first saves what it overwrites, a failed install is
    rolled back and an uninstall replays the saved bytes with one retry per record. */
module UndoLog {
  import opened Bytes
  import opened BlockCache

  datatype Record = Record(loc: nat, data: seq<Byte>)

  /** UNINSTALL_DATA_MAX. */
  const MAX_RECORDS: nat := 256

  /** The device together with the records counted by `uninstall_data_i`. */
  datatype Session = Session(dev: Dev, log: seq<Record>)

  /** `done` is the progress of the copying loop when a write fails in it, and 0 otherwise. */
  datatype Stepped = Stepped(s: Session, ok: bool, done: nat)

  function Reverse(log: seq<Record>): (r: seq<Record>)
    ensures |r| == |log|
  {
    if log == [] then [] else Reverse(log[1..]) + [log[0]]
  }

  /** The disk after writing back the records in order. */
  function Replay(log: seq<Record>, disk: seq<Byte>): (r: seq<Byte>)
    ensures |r| == |disk|
  {
    if log == [] then disk else Replay(log[1..], Patch(disk, log[0].loc, log[0].data))
  }

  /** A reversed log has its records in the opposite order. */
  lemma {:induction false} ReverseAt(log: seq<Record>, i: nat)
    requires i < |log|
    ensures Reverse(log)[i] == log[|log| - 1 - i]
  {
    if i < |log| - 1 {
      ReverseAt(log[1..], i);
    }
  }

  /** Later records win: a replay leaves at each byte what the last record covering it holds. */
  lemma {:induction false} ReplayAt(log: seq<Record>, disk: seq<Byte>, p: nat)
    requires p < |disk|
    ensures (forall i :: 0 <= i < |log| ==> !Covers(log[i], p)) ==> Replay(log, disk)[p] == disk[p]
    ensures forall i :: 0 <= i < |log| && Covers(log[i], p) && (forall j :: i < j < |log| ==> !Covers(log[j], p)) ==>
      Replay(log, disk)[p] == log[i].data[p - log[i].loc]
    decreases |log|
  {
    if log != [] {
      var n := |log| - 1;
      assert log == log[..n] + [log[n]];
      ReplayAppend(log[..n], log[n], disk);
      if !Covers(log[n], p) {
        ReplayAt(log[..n], disk, p);
        assert forall i :: 0 <= i < n ==> log[..n][i] == log[i];
      }
    }
  }

  ghost predicate Addressable(log: seq<Record>) {
    forall i :: 0 <= i < |log| ==> log[i].loc < TWO64
  }

  // ------------------------------------------------------------------ installing

  /** `_device_write` while installing. */
  function LoggedWrite(hw: Hardware, s: Session, loc: nat, buf: seq<Byte>): (r: Stepped)
    requires hw.bs > 0 && |s.dev.cache| == hw.bs
    ensures |r.s.dev.cache| == hw.bs
  {
    if |s.log| >= MAX_RECORDS then Stepped(s, false, 0)
    else
      var saved := ReadAt(hw, s.dev, loc, |buf|);
      if !saved.ok then Stepped(s.(dev := saved.dev), false, 0)
      else
        var w := WriteAt(hw, saved.dev, loc, buf);
        if !w.ok then Stepped(s.(dev := w.dev), false, w.done)
        else Stepped(Session(w.dev, s.log + [Record(loc, saved.data)]), true, 0)
  }

  /** One device operation of an install; which one comes next may depend on anything. */
  datatype Op = ReadOp(loc: nat, count: nat) | WriteOp(loc: nat, buf: seq<Byte>) | FlushOp {
    predicate Valid() { !FlushOp? ==> loc < TWO64 }
  }

  function Perform(hw: Hardware, s: Session, op: Op): (r: Stepped)
    requires hw.bs > 0 && |s.dev.cache| == hw.bs
    ensures |r.s.dev.cache| == hw.bs
  {
    match op
    case ReadOp(loc, count) => var r := ReadAt(hw, s.dev, loc, count); Stepped(s.(dev := r.dev), r.ok, 0)
    case WriteOp(loc, buf) => LoggedWrite(hw, s, loc, buf)
    case FlushOp => var f := FlushCache(hw, s.dev); Stepped(s.(dev := f.dev), f.ok, 0)
  }

  /** An install performs operations until one fails. */
  function Run(hw: Hardware, s: Session, ops: seq<Op>): (r: Stepped)
    requires hw.bs > 0 && |s.dev.cache| == hw.bs
    ensures |r.s.dev.cache| == hw.bs
    decreases |ops|
  {
    if ops == [] then Stepped(s, true, 0)
    else
      var r := Perform(hw, s, ops[0]);
      if !r.ok then r else Run(hw, r.s, ops[1..])
  }

  // ------------------------------------------------------------------ uninstalling

  datatype Restored = Restored(dev: Dev, flushFailed: bool, writeFailed: bool)

  /** Throws away whatever is cached, dirty or not. */
  function Reset(d: Dev): Dev { d.(dirty := false, cached := NO_BLOCK) }

  /** Writes one record back, with one retry after flushing and forgetting the cache. */
  function RestoreRecord(hw: Hardware, d: Dev, rec: Record): (r: Restored)
    requires hw.bs > 0 && |d.cache| == hw.bs
    ensures |r.dev.cache| == hw.bs
  {
    var first := WriteAt(hw, d, rec.loc, rec.data);
    if first.ok then Restored(first.dev, false, false)
    else
      var f := FlushCache(hw, first.dev);
      var second := WriteAt(hw, Reset(f.dev), rec.loc, rec.data);
      Restored(second.dev, !f.ok, !second.ok)
  }

  function RestoreAll(hw: Hardware, d: Dev, log: seq<Record>): (r: Restored)
    requires hw.bs > 0 && |d.cache| == hw.bs
    ensures |r.dev.cache| == hw.bs
    decreases |log|
  {
    if log == [] then Restored(d, false, false)
    else
      var r := RestoreRecord(hw, d, log[0]);
      var rest := RestoreAll(hw, r.dev, log[1..]);
      Restored(rest.dev, r.flushFailed || rest.flushFailed, r.writeFailed || rest.writeFailed)
  }

  /** `uninstall`: true only if no flush failed and no record failed twice. */
  function Uninstall(hw: Hardware, d: Dev, log: seq<Record>): (r: Outcome)
    requires hw.bs > 0 && |d.cache| == hw.bs
    ensures |r.dev.cache| == hw.bs
  {
    var all := RestoreAll(hw, Reset(d), log);
    var f := FlushCache(hw, all.dev);
    Outcome(f.dev, f.ok && !all.flushFailed && !all.writeFailed, 0)
  }

  // ------------------------------------------------------------------ retry soundness

  lemma ResetIsCoherent(hw: Hardware, d: Dev)
    requires Sane(hw, d)
    ensures Coherent(hw, Reset(d)) && View(hw, Reset(d)) == d.disk
  {
  }

  /** A record restored without a final failure is on the flat disk, whatever the first try left. */
  lemma RestoreRecordPatches(hw: Hardware, d: Dev, rec: Record)
    requires Coherent(hw, d) && rec.loc < TWO64
    ensures var r := RestoreRecord(hw, d, rec);
      !r.flushFailed && !r.writeFailed ==>
        Coherent(hw, r.dev) && View(hw, r.dev) == Patch(View(hw, d), rec.loc, rec.data)
  {
    hide WriteAt, FlushCache, View;
    WriteRefinesFlatDisk(hw, d, rec.loc, rec.data);
    var first := WriteAt(hw, d, rec.loc, rec.data);
    assert rec.data[..|rec.data|] == rec.data;
    if !first.ok {
      FlushKeepsView(hw, first.dev);
      var f := FlushCache(hw, first.dev);
      ResetIsCoherent(hw, f.dev);
      WriteRefinesFlatDisk(hw, Reset(f.dev), rec.loc, rec.data);
      PatchAbsorbs(View(hw, d), rec.loc, rec.data, first.done);
    }
  }

  lemma {:induction false} RestoreAllReplays(hw: Hardware, d: Dev, log: seq<Record>)
    requires Coherent(hw, d) && Addressable(log)
    ensures var r := RestoreAll(hw, d, log);
      !r.flushFailed && !r.writeFailed ==> Coherent(hw, r.dev) && View(hw, r.dev) == Replay(log, View(hw, d))
    decreases log
  {
    hide RestoreRecord, View;
    if log != [] {
      RestoreRecordPatches(hw, d, log[0]);
      var r := RestoreRecord(hw, d, log[0]);
      if !r.flushFailed && !r.writeFailed {
        RestoreAllReplays(hw, r.dev, log[1..]);
      }
    }
  }

  /** Retry soundness: a reported success means that the disk is the in-order replay of the
      records over the disk it started from, whatever failed and was retried on the way. */
  lemma UninstallReplays(hw: Hardware, d: Dev, log: seq<Record>)
    requires Sane(hw, d) && Addressable(log) && Uninstall(hw, d, log).ok
    ensures Uninstall(hw, d, log).dev.disk == Replay(log, d.disk)
    ensures !Uninstall(hw, d, log).dev.dirty
  {
    hide RestoreAll, View, FlushCache;
    ResetIsCoherent(hw, d);
    RestoreAllReplays(hw, Reset(d), log);
    FlushKeepsView(hw, RestoreAll(hw, Reset(d), log).dev);
  }

  // ------------------------------------------------------------------ rollback

  predicate Covers(rec: Record, p: nat) { rec.loc <= p < rec.loc + |rec.data| }

  predicate Covered(log: seq<Record>, p: nat) { exists i :: 0 <= i < |log| && Covers(log[i], p) }

  lemma CoveredByTail(log: seq<Record>, p: nat)
    requires log != [] && !Covers(log[0], p)
    ensures Covered(log[1..], p) <==> Covered(log, p)
  {
  }

  /** The byte that the earliest record covering `p` saved. */
  function FirstSaved(log: seq<Record>, p: nat): Byte
    requires Covered(log, p)
  {
    if Covers(log[0], p) then log[0].data[p - log[0].loc]
    else (
      CoveredByTail(log, p);
      FirstSaved(log[1..], p)
    )
  }

  lemma {:induction false} ReplayAppend(log: seq<Record>, rec: Record, disk: seq<Byte>)
    ensures Replay(log + [rec], disk) == Patch(Replay(log, disk), rec.loc, rec.data)
  {
    if log == [] {
      assert log + [rec] == [rec] && [rec][1..] == [];
    } else {
      assert (log + [rec])[1..] == log[1..] + [rec];
      ReplayAppend(log[1..], rec, Patch(disk, log[0].loc, log[0].data));
    }
  }

  /** Replaying the reversed log leaves, at every covered byte, what was saved there first. */
  lemma {:induction false} ReplayReversed(log: seq<Record>, disk: seq<Byte>, p: nat)
    requires p < |disk|
    ensures Replay(Reverse(log), disk)[p] == if Covered(log, p) then FirstSaved(log, p) else disk[p]
  {
    if log != [] {
      ReplayAppend(Reverse(log[1..]), log[0], disk);
      ReplayReversed(log[1..], disk, p);
      if !Covers(log[0], p) {
        CoveredByTail(log, p);
      }
    }
  }

  /** What makes a rollback to `origin` possible: first-saved bytes are original ones and
      nothing else has changed on `disk`. */
  ghost predicate Undoable(origin: seq<Byte>, disk: seq<Byte>, log: seq<Record>) {
    && |disk| == |origin|
    && forall p {:trigger disk[p]} {:trigger Covered(log, p)} :: 0 <= p < |disk| ==>
         origin[p] == if Covered(log, p) then FirstSaved(log, p) else disk[p]
  }

  lemma UndoableIffRestored(origin: seq<Byte>, disk: seq<Byte>, log: seq<Record>)
    ensures Undoable(origin, disk, log) <==> Replay(Reverse(log), disk) == origin
  {
    forall p: nat | p < |disk|
      ensures Replay(Reverse(log), disk)[p] == if Covered(log, p) then FirstSaved(log, p) else disk[p]
    {
      ReplayReversed(log, disk, p);
    }
  }

  /** The invariant of an install that has not failed yet. */
  ghost predicate Recoverable(hw: Hardware, origin: seq<Byte>, s: Session) {
    && Coherent(hw, s.dev)
    && Addressable(s.log)
    && Undoable(origin, s.dev.disk, s.log)
    && Undoable(origin, View(hw, s.dev), s.log)
  }

  lemma CoveredAppend(log: seq<Record>, rec: Record, p: nat)
    ensures Covered(log + [rec], p) <==> Covered(log, p) || Covers(rec, p)
    ensures Covered(log, p) ==> FirstSaved(log + [rec], p) == FirstSaved(log, p)
    ensures !Covered(log, p) && Covers(rec, p) ==> FirstSaved(log + [rec], p) == rec.data[p - rec.loc]
  {
    var longer := log + [rec];
    assert longer[|log|] == rec && forall i :: 0 <= i < |log| ==> longer[i] == log[i];
    if log != [] {
      assert longer[1..] == log[1..] + [rec];
      CoveredAppend(log[1..], rec, p);
      if !Covers(log[0], p) {
        CoveredByTail(log, p);
        CoveredByTail(longer, p);
      }
    } else {
      assert longer == [rec];
      assert Covers(rec, p) ==> Covered(longer, p);
    }
  }

  lemma MixtureStaysUndoable(origin: seq<Byte>, disk: seq<Byte>, view: seq<Byte>, log: seq<Record>, after: seq<Byte>)
    requires Undoable(origin, disk, log) && Undoable(origin, view, log) && Mixture(after, disk, view)
    ensures Undoable(origin, after, log)
  {
  }

  /** Saving the overwritten bytes first is what keeps the log able to undo the write. */
  lemma SavingKeepsUndoable(origin: seq<Byte>, disk: seq<Byte>, view: seq<Byte>, log: seq<Record>,
                            loc: nat, buf: seq<Byte>, after: seq<Byte>)
    requires Undoable(origin, disk, log) && Undoable(origin, view, log)
    requires buf != [] ==> loc + |buf| <= |view|
    requires Landed(disk, view, loc, buf, after)
    ensures Undoable(origin, after, log + [Record(loc, if buf == [] then [] else view[loc..loc + |buf|])])
  {
    var rec := Record(loc, if buf == [] then [] else view[loc..loc + |buf|]);
    forall p: nat | p < |after|
      ensures origin[p] == if Covered(log + [rec], p) then FirstSaved(log + [rec], p) else after[p]
    {
      CoveredAppend(log, rec, p);
    }
  }

  lemma LoggedWriteStaysRecoverable(hw: Hardware, origin: seq<Byte>, s: Session, loc: nat, buf: seq<Byte>)
    requires Recoverable(hw, origin, s) && loc < TWO64
    ensures var r := LoggedWrite(hw, s, loc, buf);
      && Sane(hw, r.s.dev) && Addressable(r.s.log)
      && (r.ok ==> Recoverable(hw, origin, r.s) && View(hw, r.s.dev) == Patch(View(hw, s.dev), loc, buf))
      && (!r.ok ==> r.s.log == s.log && r.done <= |buf|
                    && Landed(s.dev.disk, View(hw, s.dev), loc, buf[..r.done], r.s.dev.disk))
  {
    hide ReadAt, WriteAt, View, Undoable;
    if |s.log| < MAX_RECORDS {
      var saved, view := ReadAt(hw, s.dev, loc, |buf|), View(hw, s.dev);
      ReadRefinesFlatDisk(hw, s.dev, loc, |buf|);
      MixtureStaysUndoable(origin, s.dev.disk, view, s.log, saved.dev.disk);
      if saved.ok {
        var w := WriteAt(hw, saved.dev, loc, buf);
        WriteRefinesFlatDisk(hw, saved.dev, loc, buf);
        assert buf[..|buf|] == buf;
        if w.ok {
          SavingKeepsUndoable(origin, saved.dev.disk, view, s.log, loc, buf, w.dev.disk);
          SavingKeepsUndoable(origin, saved.dev.disk, view, s.log, loc, buf, Patch(view, loc, buf));
          assert saved.data == if buf == [] then [] else view[loc..loc + |buf|];
        }
      }
    }
  }

  lemma PerformStaysRecoverable(hw: Hardware, origin: seq<Byte>, s: Session, op: Op)
    requires Recoverable(hw, origin, s) && op.Valid()
    ensures var r := Perform(hw, s, op);
      && Sane(hw, r.s.dev) && Addressable(r.s.log)
      && (r.ok ==> Recoverable(hw, origin, r.s))
      && (!r.ok && r.done == 0 ==> Undoable(origin, r.s.dev.disk, r.s.log))
  {
    hide ReadAt, WriteAt, FlushCache, LoggedWrite, View, Undoable;
    var view := View(hw, s.dev);
    match op
    case ReadOp(loc, count) =>
      ReadRefinesFlatDisk(hw, s.dev, loc, count);
      MixtureStaysUndoable(origin, s.dev.disk, view, s.log, ReadAt(hw, s.dev, loc, count).dev.disk);
    case FlushOp =>
      FlushKeepsView(hw, s.dev);
      MixtureStaysUndoable(origin, s.dev.disk, view, s.log, FlushCache(hw, s.dev).dev.disk);
    case WriteOp(loc, buf) =>
      LoggedWriteStaysRecoverable(hw, origin, s, loc, buf);
      var r := LoggedWrite(hw, s, loc, buf);
      if !r.ok && r.done == 0 {
        assert Mixture(r.s.dev.disk, s.dev.disk, view);
        MixtureStaysUndoable(origin, s.dev.disk, view, s.log, r.s.dev.disk);
      }
  }

  lemma {:induction false} RunStaysRecoverable(hw: Hardware, origin: seq<Byte>, s: Session, ops: seq<Op>)
    requires Recoverable(hw, origin, s) && forall i :: 0 <= i < |ops| ==> ops[i].Valid()
    ensures var r := Run(hw, s, ops);
      && Sane(hw, r.s.dev) && Addressable(r.s.log)
      && (r.ok ==> Recoverable(hw, origin, r.s))
      && (!r.ok && r.done == 0 ==> Undoable(origin, r.s.dev.disk, r.s.log))
    decreases |ops|
  {
    hide Perform, View, Undoable;
    if ops != [] {
      PerformStaysRecoverable(hw, origin, s, ops[0]);
      var r := Perform(hw, s, ops[0]);
      if r.ok {
        RunStaysRecoverable(hw, origin, r.s, ops[1..]);
      }
    }
  }

  /** An install starts with nothing dirty and nothing logged. */
  ghost predicate Fresh(hw: Hardware, s: Session) {
    Coherent(hw, s.dev) && !s.dev.dirty && s.log == []
  }

  lemma FreshIsRecoverable(hw: Hardware, s: Session)
    requires Fresh(hw, s)
    ensures Recoverable(hw, s.dev.disk, s)
  {
  }

  lemma {:induction false} ReverseKeepsAddressable(log: seq<Record>)
    requires Addressable(log)
    ensures Addressable(Reverse(log))
  {
    if log != [] {
      ReverseKeepsAddressable(log[1..]);
    }
  }

  /** Rollback: whatever operations an install performed before one failed, reversing the log,
      dropping the cache and replaying gives back the original disk. The one excluded failure
      is a write that had already changed its first block. */
  lemma RollbackRestores(hw: Hardware, s: Session, ops: seq<Op>)
    requires Fresh(hw, s) && forall i :: 0 <= i < |ops| ==> ops[i].Valid()
    requires var r := Run(hw, s, ops);
      && !r.ok && r.done == 0
      && Uninstall(hw, r.s.dev, Reverse(r.s.log)).ok
    ensures var r := Run(hw, s, ops);
      Uninstall(hw, r.s.dev, Reverse(r.s.log)).dev.disk == s.dev.disk
  {
    hide Run, Uninstall, View, Undoable;
    FreshIsRecoverable(hw, s);
    RunStaysRecoverable(hw, s.dev.disk, s, ops);
    var r := Run(hw, s, ops);
    ReverseKeepsAddressable(r.s.log);
    UninstallReplays(hw, r.s.dev, Reverse(r.s.log));
    UndoableIffRestored(s.dev.disk, r.s.dev.disk, r.s.log);
  }

  /** A later uninstall with the reversed log undoes a completed install, even on another
      machine state, as long as the disk is the one the install left behind. */
  lemma InstallThenUninstall(hw: Hardware, s: Session, ops: seq<Op>, later: Hardware, d: Dev)
    requires Fresh(hw, s) && forall i :: 0 <= i < |ops| ==> ops[i].Valid()
    requires Sane(later, d)
    requires var r := Run(hw, s, ops);
      && r.ok && d.disk == r.s.dev.disk
      && Uninstall(later, d, Reverse(r.s.log)).ok
    ensures Uninstall(later, d, Reverse(Run(hw, s, ops).s.log)).dev.disk == s.dev.disk
  {
    hide Run, Uninstall, View, Undoable;
    FreshIsRecoverable(hw, s);
    RunStaysRecoverable(hw, s.dev.disk, s, ops);
    var r := Run(hw, s, ops);
    ReverseKeepsAddressable(r.s.log);
    UninstallReplays(later, d, Reverse(r.s.log));
    UndoableIffRestored(s.dev.disk, d.disk, r.s.log);
  }

  // ------------------------------------------------------------------ whole runs on a flat disk

  /** What a run does to a flat byte array. */
  function FlatRun(flat: seq<Byte>, ops: seq<Op>): (r: seq<Byte>)
    ensures |r| == |flat|
    decreases |ops|
  {
    if ops == [] then flat
    else FlatRun(if ops[0].WriteOp? then Patch(flat, ops[0].loc, ops[0].buf) else flat, ops[1..])
  }

  /** The results of the reads of a run on the cached device, in order. */
  function Observed(hw: Hardware, s: Session, ops: seq<Op>): seq<seq<Byte>>
    requires hw.bs > 0 && |s.dev.cache| == hw.bs
    decreases |ops|
  {
    if ops == [] then []
    else
      var rest := Observed(hw, Perform(hw, s, ops[0]).s, ops[1..]);
      if ops[0].ReadOp? then [ReadAt(hw, s.dev, ops[0].loc, ops[0].count).data] + rest else rest
  }

  /** The results of the reads of a run on a flat byte array, which they must not overrun. */
  ghost predicate FlatObserves(flat: seq<Byte>, ops: seq<Op>, seen: seq<seq<Byte>>)
    decreases |ops|
  {
    if ops == [] then seen == []
    else if ops[0].ReadOp? then
      && seen != []
      && (ops[0].count == 0 ==> seen[0] == [])
      && (ops[0].count > 0 ==> ops[0].loc + ops[0].count <= |flat|
                               && seen[0] == flat[ops[0].loc..ops[0].loc + ops[0].count])
      && FlatObserves(flat, ops[1..], seen[1..])
    else
      FlatObserves(if ops[0].WriteOp? then Patch(flat, ops[0].loc, ops[0].buf) else flat, ops[1..], seen)
  }

  lemma PerformRefinesFlatDisk(hw: Hardware, s: Session, op: Op)
    requires Coherent(hw, s.dev) && op.Valid() && Perform(hw, s, op).ok
    ensures var t := Perform(hw, s, op).s;
      && Coherent(hw, t.dev)
      && View(hw, t.dev) == (if op.WriteOp? then Patch(View(hw, s.dev), op.loc, op.buf) else View(hw, s.dev))
      && (op.FlushOp? ==> t.dev.disk == View(hw, s.dev) && !t.dev.dirty)
  {
    hide ReadAt, WriteAt, FlushCache, View;
    match op
    case ReadOp(loc, count) => ReadRefinesFlatDisk(hw, s.dev, loc, count);
    case FlushOp => FlushKeepsView(hw, s.dev);
    case WriteOp(loc, buf) =>
      ReadRefinesFlatDisk(hw, s.dev, loc, |buf|);
      WriteRefinesFlatDisk(hw, ReadAt(hw, s.dev, loc, |buf|).dev, loc, buf);
      assert buf[..|buf|] == buf;
  }

  /** Cache refinement over any successful run: writes update exactly a flat byte array, and a
      final flush makes the disk equal to it. */
  lemma {:induction false} RunRefinesFlatDisk(hw: Hardware, s: Session, ops: seq<Op>)
    requires Coherent(hw, s.dev) && Run(hw, s, ops).ok && forall i :: 0 <= i < |ops| ==> ops[i].Valid()
    ensures var t := Run(hw, s, ops).s;
      && Coherent(hw, t.dev)
      && View(hw, t.dev) == FlatRun(View(hw, s.dev), ops)
      && (ops != [] && ops[|ops| - 1].FlushOp? ==> t.dev.disk == FlatRun(View(hw, s.dev), ops))
    decreases |ops|
  {
    hide Perform, View;
    if ops != [] {
      PerformRefinesFlatDisk(hw, s, ops[0]);
      RunRefinesFlatDisk(hw, Perform(hw, s, ops[0]).s, ops[1..]);
    }
  }

  /** Cache refinement over any successful run: reads return exactly that array's bytes. */
  lemma {:induction false} RunReadsFlatDisk(hw: Hardware, s: Session, ops: seq<Op>)
    requires Coherent(hw, s.dev) && Run(hw, s, ops).ok && forall i :: 0 <= i < |ops| ==> ops[i].Valid()
    ensures FlatObserves(View(hw, s.dev), ops, Observed(hw, s, ops))
    decreases |ops|
  {
    hide Perform, View;
    if ops != [] {
      PerformRefinesFlatDisk(hw, s, ops[0]);
      var t := Perform(hw, s, ops[0]).s;
      RunReadsFlatDisk(hw, t, ops[1..]);
      if ops[0].ReadOp? {
        ReadSucceeded(hw, s, ops[0]);
        ReadRefinesFlatDisk(hw, s.dev, ops[0].loc, ops[0].count);
        assert Observed(hw, s, ops)[1..] == Observed(hw, t, ops[1..]);
      }
    }
  }

  lemma ReadSucceeded(hw: Hardware, s: Session, op: Op)
    requires Coherent(hw, s.dev) && op.ReadOp? && Perform(hw, s, op).ok
    ensures ReadAt(hw, s.dev, op.loc, op.count).ok
  {
  }
}
