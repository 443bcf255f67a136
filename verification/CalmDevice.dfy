/** A device that has stopped failing.

    Once no block transfer fails any more, every transfer within the complete blocks of the disk
    succeeds, and so does every rollback. On a device that never fails an install can only be
    refused, and a refused install leaves no trace. */
module CalmDevice {
  import opened Bytes
  import opened BlockCache
  import opened UndoLog

  /** No block transfer fails from time `since` on. */
  ghost predicate Calm(hw: Hardware, since: nat) {
    forall t: nat :: since <= t ==> hw.faults(t) == Fine
  }

  /** How much of the disk consists of complete blocks, which is what can be transferred. */
  function Reach(bs: nat, disk: seq<Byte>): nat
    requires bs > 0
  {
    |disk| / bs * bs
  }

  lemma BlockInReach(bs: nat, disk: seq<Byte>, pos: nat)
    requires bs > 0
    ensures pos < Reach(bs, disk) <==> Present(bs, disk, pos / bs)
    ensures Present(bs, disk, pos / bs) ==> pos + (bs - pos % bs) <= Reach(bs, disk)
  {
    var n, b := |disk| / bs, pos / bs;
    assert pos == b * bs + pos % bs;
    Distributes(n, b, bs);
    SmallMultiple(n - b, bs);
    MulNonNegative(if n <= b then b - n else n - b - 1, bs);
    Distributes(b, n, bs);
    Distributes(n - b, 1, bs);
  }

  // ------------------------------------------------------------------ transfers

  lemma CalmCacheBlock(hw: Hardware, d: Dev, pos: nat)
    requires Coherent(hw, d) && Calm(hw, d.clock) && pos < Reach(hw.bs, d.disk)
    ensures var r := CacheBlock(hw, d, pos / hw.bs);
      r.ok && r.dev.cached == pos / hw.bs && d.clock <= r.dev.clock
  {
  }

  lemma {:induction false} CalmRead(hw: Hardware, d: Dev, pos: nat, n: nat)
    requires Coherent(hw, d) && Calm(hw, d.clock) && pos + n <= Reach(hw.bs, d.disk)
    ensures ReadAt(hw, d, pos, n).ok && d.clock <= ReadAt(hw, d, pos, n).dev.clock
    decreases n
  {
    hide FlushCache, LoadBlock, CacheBlock, ReadAt, Keeps, View;
    if n > 0 {
      CalmCacheBlock(hw, d, pos);
      SentinelIsNoBlock(hw, pos);
      CacheBlockKeepsView(hw, d, pos / hw.bs);
      var c, k := CacheBlock(hw, d, pos / hw.bs).dev, Chunk(hw.bs, pos, n);
      CalmRead(hw, c, pos + k, n - k);
      ReadAtUnfolds(hw, d, pos, n);
    } else {
      EmptyTransfers(hw, d, pos);
    }
  }

  lemma {:induction false} CalmWrite(hw: Hardware, d: Dev, pos: nat, buf: seq<Byte>)
    requires Coherent(hw, d) && Calm(hw, d.clock) && (buf != [] ==> pos + |buf| <= Reach(hw.bs, d.disk))
    ensures var r := WriteAt(hw, d, pos, buf);
      r.ok && d.clock <= r.dev.clock && (buf != [] ==> r.dev.dirty && r.dev.cached == (pos + |buf| - 1) / hw.bs)
    decreases |buf|
  {
    hide FlushCache, LoadBlock, CacheBlock, WriteAt, Keeps, Patches, View;
    if buf != [] {
      CalmCacheBlock(hw, d, pos);
      SentinelIsNoBlock(hw, pos);
      CacheBlockKeepsView(hw, d, pos / hw.bs);
      var c, k := CacheBlock(hw, d, pos / hw.bs).dev, Chunk(hw.bs, pos, |buf|);
      var e := Dirtied(hw, c, pos, buf[..k]);
      WriteStep(hw, d, c, e, pos, buf[..k]);
      CalmWrite(hw, e, pos + k, buf[k..]);
      WriteAtUnfolds(hw, d, pos, buf);
      SameBlock(hw.bs, pos, k - 1);
      if k == |buf| {
        EmptyTransfers(hw, e, pos + k);
      }
    } else {
      EmptyTransfers(hw, d, pos);
    }
  }

  /** Whatever fails, a read that succeeds lies in complete blocks. */
  lemma {:induction false} ReadInReach(hw: Hardware, d: Dev, pos: nat, n: nat)
    requires Coherent(hw, d) && pos < TWO64 && n > 0 && ReadAt(hw, d, pos, n).ok
    ensures pos + n <= Reach(hw.bs, d.disk)
    decreases n
  {
    hide FlushCache, LoadBlock, CacheBlock, ReadAt, Keeps, View, Reach;
    if !CacheBlock(hw, d, pos / hw.bs).ok {
      ReadStoppedAtCache(hw, d, pos, n);
    } else {
      SentinelIsNoBlock(hw, pos);
      CacheBlockKeepsView(hw, d, pos / hw.bs);
      var c, k := CacheBlock(hw, d, pos / hw.bs).dev, Chunk(hw.bs, pos, n);
      BlockInReach(hw.bs, c.disk, pos);
      BufferShowsChunk(hw, c, pos, k);
      ReachDependsOnLength(hw.bs, d.disk, c.disk);
      if k < n {
        ReadAtUnfolds(hw, d, pos, n);
        ReadInReach(hw, c, pos + k, n - k);
      }
    }
  }

  lemma ReachDependsOnLength(bs: nat, a: seq<Byte>, b: seq<Byte>)
    requires bs > 0 && |a| == |b|
    ensures Reach(bs, a) == Reach(bs, b)
  {
  }

  /** On a device that never fails, a logged write succeeds exactly when the log has room and the
      range is in reach, and a refused one has changed nothing. */
  lemma CalmLoggedWrite(hw: Hardware, s: Session, loc: nat, buf: seq<Byte>)
    requires Coherent(hw, s.dev) && Calm(hw, 0) && loc < TWO64
    ensures var r := LoggedWrite(hw, s, loc, buf);
      && (r.ok <==> |s.log| < 256 && (buf != [] ==> loc + |buf| <= Reach(hw.bs, s.dev.disk)))
      && r.done == 0
  {
    hide ReadAt, WriteAt, View, Reach, Keeps;
    EmptyTransfers(hw, s.dev, loc);
    if buf != [] && loc + |buf| <= Reach(hw.bs, s.dev.disk) {
      CalmRead(hw, s.dev, loc, |buf|);
    }
    var saved := ReadAt(hw, s.dev, loc, |buf|);
    if saved.ok {
      ReadRefinesFlatDisk(hw, s.dev, loc, |buf|);
      ReachDependsOnLength(hw.bs, s.dev.disk, saved.dev.disk);
      if buf != [] {
        ReadInReach(hw, s.dev, loc, |buf|);
      }
      CalmWrite(hw, saved.dev, loc, buf);
    }
  }

  // ------------------------------------------------------------------ rollback

  ghost predicate InReach(log: seq<Record>, limit: nat) {
    forall i :: 0 <= i < |log| ==> log[i].loc < TWO64 && (log[i].data != [] ==> log[i].loc + |log[i].data| <= limit)
  }

  lemma {:induction false} CalmRestoreAll(hw: Hardware, d: Dev, log: seq<Record>)
    requires Coherent(hw, d) && Calm(hw, d.clock) && InReach(log, Reach(hw.bs, d.disk))
    ensures var r := RestoreAll(hw, d, log); !r.flushFailed && !r.writeFailed && d.clock <= r.dev.clock
    decreases log
  {
    hide WriteAt, Patches, View, Reach;
    if log != [] {
      CalmWrite(hw, d, log[0].loc, log[0].data);
      WriteRefinesFlatDisk(hw, d, log[0].loc, log[0].data);
      var w := WriteAt(hw, d, log[0].loc, log[0].data);
      ReachDependsOnLength(hw.bs, d.disk, w.dev.disk);
      CalmRestoreAll(hw, w.dev, log[1..]);
    }
  }

  lemma CalmUninstall(hw: Hardware, d: Dev, log: seq<Record>)
    requires Sane(hw, d) && Calm(hw, d.clock) && InReach(log, Reach(hw.bs, d.disk))
    ensures Uninstall(hw, d, log).ok
  {
    hide RestoreAll, View, Reach;
    ResetIsCoherent(hw, d);
    CalmRestoreAll(hw, Reset(d), log);
  }

  lemma {:induction false} ReverseKeepsInReach(log: seq<Record>, limit: nat)
    requires InReach(log, limit)
    ensures InReach(Reverse(log), limit)
  {
    if log != [] {
      ReverseKeepsInReach(log[1..], limit);
    }
  }

  lemma PerformKeepsInReach(hw: Hardware, s: Session, op: Op)
    requires Coherent(hw, s.dev) && op.Valid() && InReach(s.log, Reach(hw.bs, s.dev.disk))
    ensures var r := Perform(hw, s, op); InReach(r.s.log, Reach(hw.bs, r.s.dev.disk))
  {
    hide ReadAt, WriteAt, FlushCache, View, Reach;
    var r := Perform(hw, s, op);
    ReachDependsOnLength(hw.bs, s.dev.disk, r.s.dev.disk);
    if op.WriteOp? && r.ok && op.buf != [] {
      ReadInReach(hw, s.dev, op.loc, |op.buf|);
    }
  }

  lemma {:induction false} RunKeepsInReach(hw: Hardware, s: Session, ops: seq<Op>)
    requires Coherent(hw, s.dev) && InReach(s.log, Reach(hw.bs, s.dev.disk))
    requires forall i :: 0 <= i < |ops| ==> ops[i].Valid()
    ensures var r := Run(hw, s, ops); InReach(r.s.log, Reach(hw.bs, r.s.dev.disk))
    decreases |ops|
  {
    hide Perform, View, Reach, InReach;
    if ops != [] {
      PerformKeepsInReach(hw, s, ops[0]);
      var r := Perform(hw, s, ops[0]);
      if r.ok {
        PerformRefinesFlatDisk(hw, s, ops[0]);
        RunKeepsInReach(hw, r.s, ops[1..]);
      }
    }
  }

  /** Rollback succeeds: whatever failed during an install, if nothing fails from then on the
      rollback reports success, and unless a write was torn the original disk is back. */
  lemma RollbackSucceeds(hw: Hardware, s: Session, ops: seq<Op>)
    requires Fresh(hw, s) && forall i :: 0 <= i < |ops| ==> ops[i].Valid()
    requires Calm(hw, Run(hw, s, ops).s.dev.clock)
    ensures var r := Run(hw, s, ops);
      var u := Uninstall(hw, r.s.dev, Reverse(r.s.log));
      u.ok && (r.done == 0 ==> u.dev.disk == s.dev.disk)
  {
    hide Run, Uninstall, View, Undoable, Reach;
    var r := Run(hw, s, ops);
    FreshIsRecoverable(hw, s);
    RunStaysRecoverable(hw, s.dev.disk, s, ops);
    RunKeepsInReach(hw, s, ops);
    ReverseKeepsInReach(r.s.log, Reach(hw.bs, r.s.dev.disk));
    CalmUninstall(hw, r.s.dev, Reverse(r.s.log));
    ReverseKeepsAddressable(r.s.log);
    UninstallReplays(hw, r.s.dev, Reverse(r.s.log));
    UndoableIffRestored(s.dev.disk, r.s.dev.disk, r.s.log);
  }

  lemma {:induction false} CalmRunNeverTears(hw: Hardware, s: Session, ops: seq<Op>)
    requires Coherent(hw, s.dev) && Calm(hw, 0) && forall i :: 0 <= i < |ops| ==> ops[i].Valid()
    ensures Run(hw, s, ops).done == 0
    decreases |ops|
  {
    hide LoggedWrite, ReadAt, FlushCache, View, Reach;
    if ops != [] {
      if ops[0].WriteOp? {
        CalmLoggedWrite(hw, s, ops[0].loc, ops[0].buf);
      }
      var r := Perform(hw, s, ops[0]);
      if r.ok {
        PerformRefinesFlatDisk(hw, s, ops[0]);
        CalmRunNeverTears(hw, r.s, ops[1..]);
      }
    }
  }

  /** On a device that never fails, whatever operations were performed before an install gave up,
      also when the last one overran the disk or the log, its rollback leaves no trace. */
  lemma RefusalLeavesNoTrace(hw: Hardware, s: Session, ops: seq<Op>)
    requires Fresh(hw, s) && Calm(hw, 0) && forall i :: 0 <= i < |ops| ==> ops[i].Valid()
    ensures var r := Run(hw, s, ops);
      var u := Uninstall(hw, r.s.dev, Reverse(r.s.log));
      u.ok && u.dev.disk == s.dev.disk
  {
    hide Run, Uninstall;
    CalmRunNeverTears(hw, s, ops);
    RollbackSucceeds(hw, s, ops);
  }
}
