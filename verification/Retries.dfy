/** What an uninstall survives: the one retry of each record, and the records after one that could
    not be written back. */
module Retries {
  import opened Bytes
  import opened BlockCache
  import opened UndoLog
  import opened CalmDevice

  /** A tag, if there is one, is that of a complete block. Unlike coherence this survives a read that
      fails after overwriting the buffer. */
  ghost predicate Tagged(hw: Hardware, d: Dev) {
    Sane(hw, d) && (d.cached != NO_BLOCK ==> Present(hw.bs, d.disk, d.cached))
  }

  /** No block transfer failed from `since` up to `until`. */
  ghost predicate Quiet(hw: Hardware, since: nat, until: nat) {
    forall t: nat :: since <= t < until ==> hw.faults(t) == Fine
  }

  lemma CacheBlockStaysTagged(hw: Hardware, d: Dev, block: nat)
    requires Tagged(hw, d) && block != NO_BLOCK
    ensures var r := CacheBlock(hw, d, block);
      && Tagged(hw, r.dev) && d.clock <= r.dev.clock && View(hw, r.dev) == View(hw, d)
      && (r.ok ==> r.dev.cached == block)
  {
    hide View;
    FlushKeepsView(hw, d);
    ViewOfClean(hw, FlushCache(hw, d).dev);
    ViewOfClean(hw, CacheBlock(hw, d, block).dev);
  }

  lemma ViewOfClean(hw: Hardware, d: Dev)
    requires Sane(hw, d)
    ensures !d.dirty ==> View(hw, d) == d.disk
  {
  }

  lemma {:induction false} WriteStaysTagged(hw: Hardware, d: Dev, pos: nat, buf: seq<Byte>)
    requires Tagged(hw, d) && pos < TWO64
    ensures var r := WriteAt(hw, d, pos, buf); Tagged(hw, r.dev) && d.clock <= r.dev.clock
    decreases |buf|
  {
    hide CacheBlock, WriteAt, Chunk, View, Patch;
    if buf == [] {
      EmptyTransfers(hw, d, pos);
    } else {
      var c := CacheBlock(hw, d, pos / hw.bs);
      SentinelIsNoBlock(hw, pos);
      CacheBlockStaysTagged(hw, d, pos / hw.bs);
      if c.ok {
        var k := Chunk(hw.bs, pos, |buf|);
        var e := Dirtied(hw, c.dev, pos, buf[..k]);
        WriteStaysTagged(hw, e, (pos + k) % TWO64, buf[k..]);
        WriteAtStep(hw, d, pos, buf, c, k, (pos + k) % TWO64, WriteAt(hw, e, (pos + k) % TWO64, buf[k..]));
      } else {
        StoppedAtCache(hw, d, pos, buf);
      }
    }
  }

  lemma QuietCacheBlock(hw: Hardware, d: Dev, pos: nat)
    requires Tagged(hw, d) && pos < Reach(hw.bs, d.disk)
    requires Quiet(hw, d.clock, CacheBlock(hw, d, pos / hw.bs).dev.clock)
    ensures CacheBlock(hw, d, pos / hw.bs).ok
  {
    hide Reach;
    BlockInReach(hw.bs, d.disk, pos);
    ReachDependsOnLength(hw.bs, d.disk, FlushCache(hw, d).dev.disk);
  }

  /** A write in reach fails only because a transfer failed during it. */
  lemma {:induction false} QuietWrite(hw: Hardware, d: Dev, pos: nat, buf: seq<Byte>)
    requires Tagged(hw, d) && (buf != [] ==> pos + |buf| <= Reach(hw.bs, d.disk))
    requires pos < TWO64 && Quiet(hw, d.clock, WriteAt(hw, d, pos, buf).dev.clock)
    ensures WriteAt(hw, d, pos, buf).ok
    decreases |buf|
  {
    hide CacheBlock, WriteAt, View, Patch, Reach;
    if buf == [] {
      EmptyTransfers(hw, d, pos);
    } else {
      var c := CacheBlock(hw, d, pos / hw.bs);
      SentinelIsNoBlock(hw, pos);
      CacheBlockStaysTagged(hw, d, pos / hw.bs);
      if c.ok {
        var k := Chunk(hw.bs, pos, |buf|);
        var e := Dirtied(hw, c.dev, pos, buf[..k]);
        ReachIsSmall(hw, d);
        WriteAtUnfolds(hw, d, pos, buf);
        WriteStaysTagged(hw, e, pos + k, buf[k..]);
        ReachDependsOnLength(hw.bs, d.disk, e.disk);
        QuietWrite(hw, e, pos + k, buf[k..]);
      } else {
        StoppedAtCache(hw, d, pos, buf);
        QuietCacheBlock(hw, d, pos);
      }
    }
  }

  lemma ReachIsSmall(hw: Hardware, d: Dev)
    requires Sane(hw, d)
    ensures Reach(hw.bs, d.disk) <= |d.disk| <= MAX_DISK
  {
    assert |d.disk| == |d.disk| / hw.bs * hw.bs + |d.disk| % hw.bs;
  }

  // ------------------------------------------------------------------ the retry

  /** The retry works: if the first try fails and nothing fails afterwards, the record is on the flat
      disk and no failure is reported. */
  lemma RetryRestores(hw: Hardware, d: Dev, rec: Record)
    requires Coherent(hw, d) && InReach([rec], Reach(hw.bs, d.disk))
    requires !WriteAt(hw, d, rec.loc, rec.data).ok
    requires Calm(hw, WriteAt(hw, d, rec.loc, rec.data).dev.clock)
    ensures var r := RestoreRecord(hw, d, rec);
      && !r.flushFailed && !r.writeFailed && Coherent(hw, r.dev)
      && View(hw, r.dev) == Patch(View(hw, d), rec.loc, rec.data)
      && WriteAt(hw, d, rec.loc, rec.data).dev.clock <= r.dev.clock
  {
    hide WriteAt, View, Reach, Patches;
    assert [rec][0] == rec;
    var first := WriteAt(hw, d, rec.loc, rec.data);
    WriteStaysTagged(hw, d, rec.loc, rec.data);
    FlushKeepsView(hw, first.dev);
    CalmFlush(hw, first.dev);
    var f := FlushCache(hw, first.dev);
    ResetIsCoherent(hw, f.dev);
    ReachDependsOnLength(hw.bs, d.disk, f.dev.disk);
    CalmWrite(hw, Reset(f.dev), rec.loc, rec.data);
    RestoreRecordPatches(hw, d, rec);
  }

  lemma CalmFlush(hw: Hardware, d: Dev)
    requires Sane(hw, d) && Calm(hw, d.clock)
    ensures FlushCache(hw, d).ok && d.clock <= FlushCache(hw, d).dev.clock
  {
  }

  /** From `since` on only the transfer at time `t` fails. */
  ghost predicate OneFault(hw: Hardware, since: nat, t: nat) {
    forall u: nat :: since <= u && u != t ==> hw.faults(u) == Fine
  }

  lemma {:induction false} OneFaultIsRetried(hw: Hardware, d: Dev, log: seq<Record>, t: nat)
    requires Coherent(hw, d) && OneFault(hw, d.clock, t) && InReach(log, Reach(hw.bs, d.disk))
    ensures var r := RestoreAll(hw, d, log); !r.flushFailed && !r.writeFailed && d.clock <= r.dev.clock
    decreases |log|
  {
    hide WriteAt, View, Reach, FlushCache, Patches;
    if t < d.clock {
      CalmRestoreAll(hw, d, log);
    } else if log != [] {
      var rec := log[0];
      var first := WriteAt(hw, d, rec.loc, rec.data);
      WriteStaysTagged(hw, d, rec.loc, rec.data);
      WriteRefinesFlatDisk(hw, d, rec.loc, rec.data);
      ReachDependsOnLength(hw.bs, d.disk, first.dev.disk);
      if first.ok {
        OneFaultIsRetried(hw, first.dev, log[1..], t);
      } else {
        if first.dev.clock <= t {
          QuietWrite(hw, d, rec.loc, rec.data);
        }
        RetryRestores(hw, d, rec);
        var r := RestoreRecord(hw, d, rec);
        ReachDependsOnLength(hw.bs, d.disk, r.dev.disk);
        CalmRestoreAll(hw, r.dev, log[1..]);
      }
    }
  }

  /** An uninstall survives any single failing transfer but its final flush: it reports success and
      the disk is the in-order replay of the records. */
  lemma UninstallSurvivesOneFault(hw: Hardware, d: Dev, log: seq<Record>, t: nat)
    requires Sane(hw, d) && OneFault(hw, d.clock, t) && InReach(log, Reach(hw.bs, d.disk))
    requires t != RestoreAll(hw, Reset(d), log).dev.clock
    ensures Uninstall(hw, d, log).ok && Uninstall(hw, d, log).dev.disk == Replay(log, d.disk)
  {
    hide RestoreAll, View, Reach, Replay;
    ResetIsCoherent(hw, d);
    OneFaultIsRetried(hw, Reset(d), log, t);
    assert Uninstall(hw, d, log).ok;
    UninstallReplays(hw, d, log);
  }

  // ------------------------------------------------------------------ after a record that failed twice

  /** On a device that has stopped failing a write lands, whatever the buffer held. */
  lemma WriteLands(hw: Hardware, d: Dev, pos: nat, buf: seq<Byte>)
    requires Tagged(hw, d) && Calm(hw, d.clock) && buf != [] && pos + |buf| <= Reach(hw.bs, d.disk)
    ensures var r := WriteAt(hw, d, pos, buf);
      && r.ok && Coherent(hw, r.dev) && d.clock <= r.dev.clock && pos + |buf| <= |r.dev.disk|
      && forall i {:trigger buf[i]} :: 0 <= i < |buf| ==> View(hw, r.dev)[pos + i] == buf[i]
  {
    hide CacheBlock, WriteAt, Reach, View, Patches;
    ReachIsSmall(hw, d);
    var c, k := CacheBlock(hw, d, pos / hw.bs), Chunk(hw.bs, pos, |buf|);
    SentinelIsNoBlock(hw, pos);
    CacheBlockStaysTagged(hw, d, pos / hw.bs);
    QuietCacheBlock(hw, d, pos);
    var e := Dirtied(hw, c.dev, pos, buf[..k]);
    WriteAtUnfolds(hw, d, pos, buf);
    PieceLands(hw, c.dev, pos, buf[..k]);
    ReachDependsOnLength(hw.bs, d.disk, e.disk);
    CalmWrite(hw, e, pos + k, buf[k..]);
    WriteRefinesFlatDisk(hw, e, pos + k, buf[k..]);
    BothParts(hw, e, WriteAt(hw, e, pos + k, buf[k..]), pos, buf, k);
  }

  lemma PieceLands(hw: Hardware, c: Dev, pos: nat, piece: seq<Byte>)
    requires Tagged(hw, c) && c.cached == pos / hw.bs != NO_BLOCK && pos % hw.bs + |piece| <= hw.bs
    ensures var e := Dirtied(hw, c, pos, piece);
      && Coherent(hw, e) && pos + |piece| <= |e.disk|
      && forall i {:trigger piece[i]} :: 0 <= i < |piece| ==> View(hw, e)[pos + i] == piece[i]
  {
    PresentBound(hw.bs, c.disk, c.cached);
    assert pos == pos / hw.bs * hw.bs + pos % hw.bs;
    var e := Dirtied(hw, c, pos, piece);
    forall i | 0 <= i < |piece| ensures View(hw, e)[pos + i] == piece[i] {
      SameBlock(hw.bs, pos, i);
    }
  }

  lemma BothParts(hw: Hardware, e: Dev, r: Outcome, pos: nat, buf: seq<Byte>, k: nat)
    requires k <= |buf| && r.ok && r.done == |buf[k..]| && Patches(hw, e, r.dev, pos + k, buf[k..][..r.done])
    requires pos + |buf| <= |e.disk|
    requires forall i {:trigger buf[..k][i]} :: 0 <= i < k ==> View(hw, e)[pos + i] == buf[..k][i]
    ensures forall i {:trigger buf[i]} :: 0 <= i < |buf| ==> View(hw, r.dev)[pos + i] == buf[i]
  {
    assert buf[k..][..r.done] == buf[k..];
    forall i | 0 <= i < |buf| ensures View(hw, r.dev)[pos + i] == buf[i] {
      if i < k {
        assert buf[..k][i] == buf[i];
      } else {
        assert buf[k..][i - k] == buf[i];
      }
    }
  }

  /** What a replay leaves at a covered byte does not depend on the disk, and it leaves the others. */
  lemma {:induction false} ReplayDepends(log: seq<Record>, a: seq<Byte>, b: seq<Byte>, p: nat)
    requires |a| == |b| && p < |a|
    ensures Covered(log, p) ==> Replay(log, a)[p] == Replay(log, b)[p]
    ensures !Covered(log, p) ==> Replay(log, a)[p] == a[p]
    decreases |log|
  {
    if log != [] {
      var c, d := Patch(a, log[0].loc, log[0].data), Patch(b, log[0].loc, log[0].data);
      ReplayDepends(log[1..], c, d, p);
      ReplayDepends(log[1..], d, c, p);
      assert Covers(log[0], p) ==> Covered(log, p);
      if !Covers(log[0], p) {
        CoveredByTail(log, p);
      }
    }
  }

  lemma {:induction false} AllLand(hw: Hardware, d: Dev, log: seq<Record>)
    requires Tagged(hw, d) && Calm(hw, d.clock) && InReach(log, Reach(hw.bs, d.disk))
    ensures var r := RestoreAll(hw, d, log);
      && !r.flushFailed && !r.writeFailed && Sane(hw, r.dev) && d.clock <= r.dev.clock
      && |r.dev.disk| == |d.disk|
      && forall p: nat {:trigger Covered(log, p)} :: p < |d.disk| && Covered(log, p) ==>
           View(hw, r.dev)[p] == Replay(log, d.disk)[p]
    decreases |log|
  {
    hide WriteAt, View, Reach, Replay, FlushCache, Patches;
    if log != [] {
      var rec := log[0];
      if rec.data == [] {
        EmptyTransfers(hw, d, rec.loc);
        AllLand(hw, d, log[1..]);
        forall p: nat | p < |d.disk| && Covered(log, p)
          ensures Covered(log[1..], p) && Replay(log, d.disk)[p] == Replay(log[1..], d.disk)[p]
        {
          SkipEmpty(log, d.disk, p);
        }
      } else {
        WriteLands(hw, d, rec.loc, rec.data);
        var w := WriteAt(hw, d, rec.loc, rec.data).dev;
        ReachDependsOnLength(hw.bs, d.disk, w.disk);
        CalmRestoreAll(hw, w, log[1..]);
        AddressableTail(log, Reach(hw.bs, d.disk));
        RestoreAllReplays(hw, w, log[1..]);
        forall p: nat | p < |d.disk| && Covered(log, p)
          ensures Replay(log[1..], View(hw, w))[p] == Replay(log, d.disk)[p]
        {
          LandedByte(log, View(hw, w), d.disk, p);
        }
      }
    }
  }

  lemma AddressableTail(log: seq<Record>, limit: nat)
    requires log != [] && InReach(log, limit)
    ensures Addressable(log[1..]) && InReach(log[1..], limit)
  {
  }

  lemma SkipEmpty(log: seq<Record>, disk: seq<Byte>, p: nat)
    requires log != [] && log[0].data == [] && p < |disk| && Covered(log, p)
    ensures Covered(log[1..], p) && Replay(log, disk)[p] == Replay(log[1..], disk)[p]
  {
    CoveredByTail(log, p);
    assert Patch(disk, log[0].loc, []) == disk;
  }

  lemma LandedByte(log: seq<Record>, view: seq<Byte>, disk: seq<Byte>, p: nat)
    requires log != [] && |view| == |disk| && p < |disk| && Covered(log, p)
    requires log[0].loc + |log[0].data| <= |view|
    requires forall i {:trigger log[0].data[i]} :: 0 <= i < |log[0].data| ==> view[log[0].loc + i] == log[0].data[i]
    ensures Replay(log[1..], view)[p] == Replay(log, disk)[p]
  {
    hide Replay;
    var c := Patch(disk, log[0].loc, log[0].data);
    ReplayUnfolds(log, disk);
    ReplayDepends(log[1..], view, c, p);
    ReplayDepends(log[1..], c, view, p);
    if !Covered(log[1..], p) {
      if !Covers(log[0], p) {
        CoveredByTail(log, p);
      }
      assert view[log[0].loc + (p - log[0].loc)] == log[0].data[p - log[0].loc];
    }
  }

  lemma ReplayUnfolds(log: seq<Record>, disk: seq<Byte>)
    requires log != []
    ensures Replay(log, disk) == Replay(log[1..], Patch(disk, log[0].loc, log[0].data))
  {
  }

  lemma RestoreStaysTagged(hw: Hardware, d: Dev, rec: Record)
    requires Tagged(hw, d) && rec.loc < TWO64
    ensures Tagged(hw, RestoreRecord(hw, d, rec).dev) && |RestoreRecord(hw, d, rec).dev.disk| == |d.disk|
  {
    hide WriteAt, View;
    var first := WriteAt(hw, d, rec.loc, rec.data);
    WriteStaysTagged(hw, d, rec.loc, rec.data);
    if !first.ok {
      FlushKeepsView(hw, first.dev);
      WriteStaysTagged(hw, Reset(FlushCache(hw, first.dev).dev), rec.loc, rec.data);
    }
  }

  /** The records are restored one after the other, also after one that failed twice. */
  lemma {:induction false} RestoreAllSplits(hw: Hardware, d: Dev, before: seq<Record>, after: seq<Record>)
    requires Tagged(hw, d) && Addressable(before)
    ensures var mid, all := RestoreAll(hw, d, before), RestoreAll(hw, d, before + after);
      && Tagged(hw, mid.dev) && |mid.dev.disk| == |d.disk|
      && var last := RestoreAll(hw, mid.dev, after);
         && all.dev == last.dev && all.flushFailed == (mid.flushFailed || last.flushFailed)
         && all.writeFailed == (mid.writeFailed || last.writeFailed)
    decreases |before|
  {
    hide RestoreRecord, View;
    if before == [] {
      assert before + after == after;
    } else {
      assert (before + after)[1..] == before[1..] + after && (before + after)[0] == before[0];
      RestoreStaysTagged(hw, d, before[0]);
      RestoreAllSplits(hw, RestoreRecord(hw, d, before[0]).dev, before[1..], after);
    }
  }

  /** Whatever failed while the records in `before` were restored, also for good: if nothing fails
      afterwards, every byte that the later records cover is written back, and success is reported
      if and only if none of the earlier ones failed for good. */
  lemma LaterRecordsAreRestored(hw: Hardware, d: Dev, before: seq<Record>, after: seq<Record>)
    requires Sane(hw, d) && Addressable(before) && InReach(after, Reach(hw.bs, d.disk))
    requires Calm(hw, RestoreAll(hw, Reset(d), before).dev.clock)
    ensures var u, mid := Uninstall(hw, d, before + after), RestoreAll(hw, Reset(d), before);
      && |u.dev.disk| == |d.disk| && (u.ok <==> !mid.flushFailed && !mid.writeFailed)
      && forall p: nat {:trigger Covered(after, p)} :: p < |d.disk| && Covered(after, p) ==>
           u.dev.disk[p] == Replay(after, d.disk)[p]
  {
    hide RestoreAll, View, Reach, Replay, InReach;
    ResetIsCoherent(hw, d);
    RestoreAllSplits(hw, Reset(d), before, after);
    var mid := RestoreAll(hw, Reset(d), before);
    ReachDependsOnLength(hw.bs, d.disk, mid.dev.disk);
    AllLand(hw, mid.dev, after);
    var last := RestoreAll(hw, mid.dev, after);
    FlushKeepsView(hw, last.dev);
    CalmFlush(hw, last.dev);
    forall p: nat | p < |d.disk| && Covered(after, p)
      ensures Replay(after, mid.dev.disk)[p] == Replay(after, d.disk)[p]
    {
      ReplayDepends(after, mid.dev.disk, d.disk, p);
    }
  }
}
