/** Exactly which failed writes limine.c can roll back.

    `_device_write` counts its undo record only after the whole write went through. A write
    that spans several blocks can fail after its first blocks reached the disk, and then
    nothing remembers their old content. */
module RollbackLimits {
  import opened Bytes
  import opened BlockCache
  import opened UndoLog
  import opened CalmDevice

  /** Where the last block touched by `n` bytes at `loc` begins. */
  function LastBlock(bs: nat, loc: nat, n: nat): (r: nat)
    requires bs > 0 && n > 0
    ensures r < loc + n && loc + n - r <= bs
  {
    var last := loc + n - 1;
    last - last % bs
  }

  /** What a caller can check beforehand: the part of `buf` before the last block it touches
      agrees with the flat disk wherever no record covers the disk yet. */
  ghost predicate Harmless(hw: Hardware, s: Session, loc: nat, buf: seq<Byte>)
    requires Sane(hw, s.dev) && buf != [] && loc + |buf| <= |s.dev.disk|
  {
    forall p :: loc <= p < LastBlock(hw.bs, loc, |buf|) && !Covered(s.log, p) ==>
      buf[p - loc] == View(hw, s.dev)[p]
  }

  /** Whatever block transfers fail, if the write fails a rollback gives `origin` back. */
  ghost predicate AlwaysUndone(bs: nat, origin: seq<Byte>, s: Session, loc: nat, buf: seq<Byte>)
    requires bs > 0 && |s.dev.cache| == bs
  {
    forall faults: nat -> Fault ::
      var r := LoggedWrite(Hardware(bs, faults), s, loc, buf);
      !r.ok ==> Replay(Reverse(r.s.log), r.s.dev.disk) == origin
  }

  // ------------------------------------------------------------------ a failing write stops at a block edge

  lemma AlignedBelow(bs: nat, x: nat, y: nat)
    requires bs > 0 && x % bs == 0 && x <= y
    ensures x <= y - y % bs
  {
    var q, r := x / bs, y / bs;
    assert x == q * bs && y == r * bs + y % bs;
    SmallMultiple(q - r, bs);
    assert (q - r) * bs == q * bs - r * bs;
  }

  lemma BlockEdge(bs: nat, pos: nat)
    requires bs > 0
    ensures (pos + (bs - pos % bs)) % bs == 0
  {
    var q := pos / bs + 1;
    assert pos + (bs - pos % bs) == q * bs + 0;
    InBlock(bs, q, 0);
  }

  lemma {:induction false} FailureAtBlockEdge(hw: Hardware, d: Dev, pos: nat, buf: seq<Byte>)
    requires Coherent(hw, d) && pos < TWO64
    ensures var r := WriteAt(hw, d, pos, buf); !r.ok && r.done > 0 ==> (pos + r.done) % hw.bs == 0
    decreases |buf|
  {
    hide FlushCache, LoadBlock, CacheBlock, WriteAt, Keeps, Patches, View;
    if buf != [] && CacheBlock(hw, d, pos / hw.bs).ok {
      SentinelIsNoBlock(hw, pos);
      CacheBlockKeepsView(hw, d, pos / hw.bs);
      var c, k := CacheBlock(hw, d, pos / hw.bs).dev, Chunk(hw.bs, pos, |buf|);
      var e := Dirtied(hw, c, pos, buf[..k]);
      WriteStep(hw, d, c, e, pos, buf[..k]);
      FailureAtBlockEdge(hw, e, pos + k, buf[k..]);
      WriteAtUnfolds(hw, d, pos, buf);
      BlockEdge(hw.bs, pos);
    } else {
      WriteAtStops(hw, d, pos, buf);
    }
  }

  lemma FailureBeforeLastBlock(hw: Hardware, d: Dev, pos: nat, buf: seq<Byte>)
    requires Coherent(hw, d) && pos < TWO64 && !WriteAt(hw, d, pos, buf).ok
    ensures var r := WriteAt(hw, d, pos, buf);
      buf != [] && (r.done > 0 ==> pos + r.done <= LastBlock(hw.bs, pos, |buf|))
  {
    FailureAtBlockEdge(hw, d, pos, buf);
    var r := WriteAt(hw, d, pos, buf);
    if r.done > 0 {
      AlignedBelow(hw.bs, pos + r.done, pos + |buf| - 1);
    }
  }

  lemma HarmlessIsUndone(hw: Hardware, origin: seq<Byte>, s: Session, loc: nat, buf: seq<Byte>)
    requires Recoverable(hw, origin, s) && loc < TWO64
    requires buf != [] && loc + |buf| <= |s.dev.disk| && Harmless(hw, s, loc, buf)
    requires !LoggedWrite(hw, s, loc, buf).ok
    ensures var r := LoggedWrite(hw, s, loc, buf); Replay(Reverse(r.s.log), r.s.dev.disk) == origin
  {
    hide ReadAt, WriteAt, View, Replay, Reverse, LastBlock;
    LoggedWriteStaysRecoverable(hw, origin, s, loc, buf);
    var r, saved := LoggedWrite(hw, s, loc, buf), ReadAt(hw, s.dev, loc, |buf|);
    if r.done > 0 {
      ReadRefinesFlatDisk(hw, s.dev, loc, |buf|);
      FailureBeforeLastBlock(hw, saved.dev, loc, buf);
    }
    forall p: nat | p < |r.s.dev.disk| && !Covered(s.log, p)
      ensures r.s.dev.disk[p] == origin[p]
    {
      assert View(hw, s.dev)[p] == origin[p] == s.dev.disk[p];
    }
    UndoableIffRestored(origin, r.s.dev.disk, s.log);
  }

  // ------------------------------------------------------------------ transfers depend on past faults only

  ghost predicate Agree(a: Hardware, b: Hardware, until: nat) {
    a.bs == b.bs && forall t: nat :: t < until ==> a.faults(t) == b.faults(t)
  }

  lemma CacheBlockIsLocal(a: Hardware, b: Hardware, d: Dev, block: nat)
    requires a.bs > 0 && |d.cache| == a.bs && Agree(a, b, CacheBlock(a, d, block).dev.clock)
    ensures CacheBlock(b, d, block) == CacheBlock(a, d, block)
    ensures d.clock <= CacheBlock(a, d, block).dev.clock
  {
  }

  lemma {:induction false} ReadIsLocal(a: Hardware, b: Hardware, d: Dev, pos: nat, n: nat)
    requires a.bs > 0 && |d.cache| == a.bs && Agree(a, b, ReadAt(a, d, pos, n).dev.clock)
    ensures ReadAt(b, d, pos, n) == ReadAt(a, d, pos, n)
    ensures d.clock <= ReadAt(a, d, pos, n).dev.clock
    decreases n
  {
    hide CacheBlock, ReadAt;
    if n > 0 {
      var c, k := CacheBlock(a, d, pos / a.bs), Chunk(a.bs, pos, n);
      if c.ok {
        var next := (pos + k) % TWO64;
        ReadAtStep(a, d, pos, n, c, k, next, ReadAt(a, c.dev, next, n - k));
        ReadIsLocal(a, b, c.dev, next, n - k);
        CacheBlockIsLocal(a, b, d, pos / a.bs);
        ReadAtStep(b, d, pos, n, c, k, next, ReadAt(b, c.dev, next, n - k));
      } else {
        ReadStoppedAtCache(a, d, pos, n);
        CacheBlockIsLocal(a, b, d, pos / a.bs);
        ReadStoppedAtCache(b, d, pos, n);
      }
    } else {
      EmptyTransfers(a, d, pos);
      EmptyTransfers(b, d, pos);
    }
  }

  lemma {:induction false} WriteIsLocal(a: Hardware, b: Hardware, d: Dev, pos: nat, buf: seq<Byte>)
    requires a.bs > 0 && |d.cache| == a.bs && Agree(a, b, WriteAt(a, d, pos, buf).dev.clock)
    ensures WriteAt(b, d, pos, buf) == WriteAt(a, d, pos, buf)
    ensures d.clock <= WriteAt(a, d, pos, buf).dev.clock
    decreases |buf|
  {
    hide CacheBlock;
    if buf != [] {
      var c := CacheBlock(a, d, pos / a.bs);
      if c.ok {
        var k := Chunk(a.bs, pos, |buf|);
        var e := Dirtied(a, c.dev, pos, buf[..k]);
        WriteIsLocal(a, b, e, (pos + k) % TWO64, buf[k..]);
      }
      CacheBlockIsLocal(a, b, d, pos / a.bs);
    }
  }

  const FAULTLESS: nat -> Fault := (t: nat) => Fine

  // ------------------------------------------------------------------ the converse

  lemma ReachesEdge(bs: nat, pos: nat, n: nat)
    requires bs > 0 && n > 0 && (pos + n) % bs == 0
    ensures bs - pos % bs <= n
  {
    if n < bs - pos % bs {
      SameBlock(bs, pos, n);
    }
  }

  /** A write that reaches a block edge can be cut in two there. */
  lemma {:induction false} WriteSplit(hw: Hardware, d: Dev, pos: nat, a: seq<Byte>, b: seq<Byte>)
    requires Coherent(hw, d) && pos < TWO64
    requires a == [] || (pos + |a|) % hw.bs == 0
    requires WriteAt(hw, d, pos, a).ok
    ensures var first := WriteAt(hw, d, pos, a);
      var second := WriteAt(hw, first.dev, pos + |a|, b);
      WriteAt(hw, d, pos, a + b) == second.(done := |a| + second.done)
    decreases |a|
  {
    hide FlushCache, LoadBlock, CacheBlock, WriteAt, Keeps, Patches, View;
    if a == [] {
      assert a + b == b;
      EmptyTransfers(hw, d, pos);
    } else {
      var ab, block := a + b, pos / hw.bs;
      if !CacheBlock(hw, d, block).ok {
        WriteAtStops(hw, d, pos, a);
      } else {
        SentinelIsNoBlock(hw, pos);
        CacheBlockKeepsView(hw, d, block);
        ReachesEdge(hw.bs, pos, |a|);
        var c, k := CacheBlock(hw, d, block).dev, Chunk(hw.bs, pos, |a|);
        assert Chunk(hw.bs, pos, |ab|) == k && ab[..k] == a[..k] && ab[k..] == a[k..] + b;
        var e := Dirtied(hw, c, pos, a[..k]);
        WriteStep(hw, d, c, e, pos, a[..k]);
        WriteAtUnfolds(hw, d, pos, a);
        WriteAtUnfolds(hw, d, pos, ab);
        WriteSplit(hw, e, pos + k, a[k..], b);
      }
    }
  }

  /** The fault that defeats a rollback: the load of the last block fails after the blocks
      before it were written. */
  ghost function LateFault(bs: nat, s: Session, loc: nat, buf: seq<Byte>): nat -> Fault
    requires bs > 0 && |s.dev.cache| == bs && buf != [] && loc <= LastBlock(bs, loc, |buf|)
  {
    var hw := Hardware(bs, FAULTLESS);
    var saved := ReadAt(hw, s.dev, loc, |buf|);
    var first := WriteAt(hw, saved.dev, loc, buf[..LastBlock(bs, loc, |buf|) - loc]);
    (t: nat) => if t == first.dev.clock + 1 then Fails({}, []) else Fine
  }

  /** The last load fails: what is dirty has been flushed and nothing more is written. */
  lemma LoadFails(hw: Hardware, d: Dev, block: nat)
    requires Sane(hw, d) && d.dirty && d.cached != block
    requires hw.faults(d.clock) == Fine && hw.faults(d.clock + 1) == Fails({}, [])
    ensures var r := CacheBlock(hw, d, block); !r.ok && r.dev.disk == View(hw, d)
  {
  }

  lemma LateFaultLandsPrefix(bs: nat, s: Session, loc: nat, buf: seq<Byte>)
    requires Coherent(Hardware(bs, FAULTLESS), s.dev) && |s.log| < MAX_RECORDS
    requires buf != [] && loc + |buf| <= |s.dev.disk| / bs * bs && loc < LastBlock(bs, loc, |buf|)
    ensures
      var r := LoggedWrite(Hardware(bs, LateFault(bs, s, loc, buf)), s, loc, buf);
      && !r.ok && r.s.log == s.log
      && r.s.dev.disk == Patch(View(Hardware(bs, FAULTLESS), s.dev), loc, buf[..LastBlock(bs, loc, |buf|) - loc])
  {
    hide FlushCache, LoadBlock, CacheBlock, ReadAt, WriteAt, View;
    var good, bad := Hardware(bs, FAULTLESS), Hardware(bs, LateFault(bs, s, loc, buf));
    var edge := LastBlock(bs, loc, |buf|);
    var a, b := buf[..edge - loc], buf[edge - loc..];
    assert a + b == buf;
    CalmRead(good, s.dev, loc, |buf|);
    ReadRefinesFlatDisk(good, s.dev, loc, |buf|);
    var saved := ReadAt(good, s.dev, loc, |buf|);
    CalmWrite(good, saved.dev, loc, a);
    WriteRefinesFlatDisk(good, saved.dev, loc, a);
    assert a[..|a|] == a;
    var first := WriteAt(good, saved.dev, loc, a);
    WriteIsLocal(good, bad, saved.dev, loc, a);
    ReadIsLocal(good, bad, s.dev, loc, |buf|);
    EdgeFacts(bs, loc, |buf|);
    SameCoherence(good, bad, saved.dev);
    SameCoherence(good, bad, first.dev);
    WriteSplit(bad, saved.dev, loc, a, b);
    LoadFails(bad, first.dev, edge / bs);
    WriteAtStops(bad, first.dev, edge, b);
    StoppedAtCache(bad, first.dev, edge, b);
  }

  lemma SameCoherence(a: Hardware, b: Hardware, d: Dev)
    requires a.bs == b.bs && Coherent(a, d)
    ensures Coherent(b, d) && View(b, d) == View(a, d)
  {
  }

  lemma EdgeFacts(bs: nat, loc: nat, n: nat)
    requires bs > 0 && n > 0 && loc < LastBlock(bs, loc, n)
    ensures var e := LastBlock(bs, loc, n); e % bs == 0 && (e - 1) / bs != e / bs
  {
    var last := loc + n - 1;
    assert last == last / bs * bs + last % bs;
    InBlock(bs, last / bs, 0);
  }

  /** Exactly the harmless writes are always undone. */
  lemma UndoneIffHarmless(hw: Hardware, origin: seq<Byte>, s: Session, loc: nat, buf: seq<Byte>)
    requires Recoverable(hw, origin, s) && |s.log| < MAX_RECORDS
    requires buf != [] && loc + |buf| <= |s.dev.disk| / hw.bs * hw.bs
    ensures loc + |buf| <= |s.dev.disk|
    ensures AlwaysUndone(hw.bs, origin, s, loc, buf) <==> Harmless(hw, s, loc, buf)
  {
    hide ReadAt, WriteAt, View, Replay, Reverse, LastBlock, LoggedWrite;
    assert |s.dev.disk| == |s.dev.disk| / hw.bs * hw.bs + |s.dev.disk| % hw.bs;
    var bs := hw.bs;
    if Harmless(hw, s, loc, buf) {
      forall faults: nat -> Fault | !LoggedWrite(Hardware(bs, faults), s, loc, buf).ok
        ensures var r := LoggedWrite(Hardware(bs, faults), s, loc, buf);
          Replay(Reverse(r.s.log), r.s.dev.disk) == origin
      {
        SameCoherence(hw, Hardware(bs, faults), s.dev);
        HarmlessIsUndone(Hardware(bs, faults), origin, s, loc, buf);
      }
    } else {
      var edge := LastBlock(bs, loc, |buf|);
      var p :| loc <= p < edge && !Covered(s.log, p) && buf[p - loc] != View(hw, s.dev)[p];
      SameCoherence(hw, Hardware(bs, FAULTLESS), s.dev);
      LateFaultLandsPrefix(bs, s, loc, buf);
      var r := LoggedWrite(Hardware(bs, LateFault(bs, s, loc, buf)), s, loc, buf);
      UndoableIffRestored(origin, r.s.dev.disk, s.log);
      assert r.s.dev.disk[p] == buf[p - loc];
      assert View(hw, s.dev)[p] == origin[p];
    }
  }

  /** A write of 513 bytes over a two-block disk of zeros can be lost for good. */
  lemma SpanningWriteCanBeLost()
    ensures
      var disk: seq<Byte> := seq(1024, i => 0);
      var s := Session(Dev(disk, disk[..512], 0, false, 0), []);
      !AlwaysUndone(512, disk, s, 0, seq(513, i => 1))
  {
    var disk: seq<Byte> := seq(1024, i => 0);
    var s := Session(Dev(disk, disk[..512], 0, false, 0), []);
    var hw := Hardware(512, FAULTLESS);
    FreshIsRecoverable(hw, s);
    var buf: seq<Byte> := seq(513, i => 1);
    UndoneIffHarmless(hw, disk, s, 0, buf);
    assert LastBlock(512, 0, 513) == 512 && !Covered(s.log, 0) && buf[0 - 0] != View(hw, s.dev)[0];
  }
}
