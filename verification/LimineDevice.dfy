/** The globals of limine.c and the operations that update them in place, proved to compute
    the functions of `BlockCache`, `UndoLog` and `UndoFile`. */
module LimineDevice {
  import opened Bytes
  import opened BlockCache
  import opened UndoLog
  import opened UndoFile
  import opened CalmDevice

  /** Positions are computed in 64 bits. */
  function Wrapped(loc: nat, progress: nat): (r: nat)
    ensures r < TWO64
  {
    (loc + progress) % TWO64
  }

  lemma WrapAdds(loc: nat, progress: nat, k: nat)
    ensures (Wrapped(loc, progress) + k) % TWO64 == Wrapped(loc, progress + k)
  {
  }

  lemma AppendsRead(a: seq<Byte>, b: seq<Byte>, c: seq<Byte>)
    ensures a + (b + c) == a + b + c
  {
  }

  class Device {
    const hw: Hardware
    /** The disk before the first write, and the flat disk that the install works on. */
    ghost const origin: seq<Byte>
    ghost var flat: seq<Byte>
    /** Whether a write failed after it had changed its first block. */
    ghost var torn: bool
    /** Whether a device operation of the install failed. */
    ghost var failed: bool
    var disk: seq<Byte>
    const cache: array<Byte>
    var cachedBlock: nat
    var dirty: bool
    var clock: nat
    const uninstallData: array<Record>
    const uninstallDataRev: array<Record>
    var uninstallCount: nat
    var uninstalling: bool

    ghost predicate Valid()
      reads this
    {
      && hw.Valid() && cache.Length == hw.bs
      && uninstallData.Length == uninstallDataRev.Length == MAX_RECORDS
      && uninstallData != uninstallDataRev
      && uninstallCount <= MAX_RECORDS
    }

    ghost function State(): (d: Dev)
      reads this, cache
      ensures |d.cache| == cache.Length
    {
      Dev(disk, cache[..], cachedBlock, dirty, clock)
    }

    ghost function Log(): seq<Record>
      requires Valid()
      reads this, uninstallData
    {
      uninstallData[..uninstallCount]
    }

    /** How far transfers can reach; the disk never changes its length. */
    ghost function Limit(): nat { if hw.bs == 0 then 0 else Reach(hw.bs, origin) }

    /** No device operation has failed yet, and no write was empty. */
    ghost predicate Installing()
      reads this, cache, uninstallData
    {
      Logging() && Storable(Log())
    }

    /** No device operation has failed yet. */
    ghost predicate Logging()
      reads this, cache, uninstallData
    {
      && Valid() && !uninstalling && !torn && !failed && 512 <= |origin|
      && Recoverable(hw, origin, Session(State(), Log())) && InReach(Log(), Reach(hw.bs, disk))
      && flat == View(hw, State())
    }

    /** Some device operation failed and nothing has been undone yet. */
    ghost predicate Stopped()
      reads this, cache, uninstallData
    {
      && Valid() && !uninstalling
      && Sane(hw, State()) && Addressable(Log()) && InReach(Log(), Reach(hw.bs, disk))
      && (Calm(hw, 0) ==> !torn)
      && (!torn ==> Undoable(origin, disk, Log()))
    }

    /** The end of `device_init`: block 0 has just been read with the block size that worked. */
    constructor (hw: Hardware, disk: seq<Byte>)
      requires hw.Valid() && hw.bs <= |disk| <= MAX_DISK
      ensures Valid() && !uninstalling && this.hw == hw && this.disk == disk
      ensures Fresh(hw, Session(State(), Log()))
      ensures Installing() && flat == origin == disk
      ensures fresh(cache) && fresh(uninstallData) && fresh(uninstallDataRev)
    {
      this.hw := hw;
      this.disk := disk;
      cache := new Byte[hw.bs](i requires 0 <= i < hw.bs <= |disk| => disk[i]);
      cachedBlock, dirty, clock := 0, false, 0;
      uninstallData := new Record[MAX_RECORDS](_ => Record(0, []));
      uninstallDataRev := new Record[MAX_RECORDS](_ => Record(0, []));
      uninstallCount, uninstalling := 0, false;
      origin, flat, torn, failed := disk, disk, false, false;
      new;
      PresentBound(hw.bs, disk, 0);
      assert cache[..] == BlockOf(hw.bs, disk, 0);
      FreshIsRecoverable(hw, Session(State(), Log()));
      assert Log() == [];
    }

    method Flush() returns (ok: bool)
      requires Valid()
      modifies this`disk, this`dirty, this`clock
      ensures ok == FlushCache(hw, old(State())).ok && State() == FlushCache(hw, old(State())).dev
    {
      if !dirty {
        return true;
      }
      var fault := hw.faults(clock);
      clock := clock + 1;
      if fault.Fails? {
        disk := TearBlock(hw.bs, disk, cachedBlock, cache[..], fault.landed);
        return false;
      }
      disk := StoreBlock(hw.bs, disk, cachedBlock, cache[..]);
      dirty := false;
      return true;
    }

    /** A block transfer into the buffer; a failing one may have overwritten part of it. */
    method LoadInto(block: nat) returns (ok: bool)
      requires Valid()
      modifies this`clock, this`cachedBlock, cache
      ensures ok == LoadBlock(hw, old(State()), block).ok && State() == LoadBlock(hw, old(State()), block).dev
    {
      var fault := hw.faults(clock);
      clock := clock + 1;
      PresentBound(hw.bs, disk, block);
      var got := if fault.Fails? then fault.junk
                 else if Present(hw.bs, disk, block) then BlockOf(hw.bs, disk, block)
                 else if block * hw.bs <= |disk| then disk[block * hw.bs..] else [];
      if |got| <= hw.bs {
        forall i | 0 <= i < |got| {
          cache[i] := got[i];
        }
        assert cache[..] == got + old(cache[..])[|got|..];
      }
      ok := fault.Fine? && Present(hw.bs, disk, block);
      if ok {
        cachedBlock := block;
      }
    }

    method CacheBlock(block: nat) returns (ok: bool)
      requires Valid()
      modifies this`disk, this`dirty, this`clock, this`cachedBlock, cache
      ensures var r := BlockCache.CacheBlock(hw, old(State()), block); ok == r.ok && State() == r.dev
    {
      if cachedBlock == block {
        return true;
      }
      if dirty {
        var flushed := Flush();
        if !flushed {
          return false;
        }
      }
      ok := LoadInto(block);
    }

    /** One round of the reading loop: the part of the range that lies in the block of `pos`. */
    method ReadPiece(pos: nat, left: nat) returns (ok: bool, piece: seq<Byte>)
      requires Valid() && pos < TWO64 && left > 0
      modifies this`disk, this`dirty, this`clock, this`cachedBlock, cache
      ensures ok ==> 0 < |piece| <= left
      ensures !ok ==> ReadAt(hw, old(State()), pos, left) == ReadOutcome(State(), false, [])
      ensures ok ==>
        var rest := ReadAt(hw, State(), (pos + |piece|) % TWO64, left - |piece|);
        ReadAt(hw, old(State()), pos, left) == rest.(data := piece + rest.data)
    {
      hide BlockCache.CacheBlock, ReadAt;
      piece := [];
      ok := CacheBlock(pos / hw.bs);
      if !ok {
        ReadStoppedAtCache(hw, old(State()), pos, left);
        return;
      }
      var chunk := left;
      if chunk > hw.bs - pos % hw.bs {
        chunk := hw.bs - pos % hw.bs;
      }
      piece := cache[pos % hw.bs..pos % hw.bs + chunk];
      ghost var next := (pos + chunk) % TWO64;
      ReadAtStep(hw, old(State()), pos, left, BlockCache.CacheBlock(hw, old(State()), pos / hw.bs), chunk, next,
                 ReadAt(hw, State(), next, left - chunk));
    }

    method Read(loc: nat, count: nat) returns (ok: bool, buffer: seq<Byte>)
      requires Valid() && loc < TWO64
      modifies this`disk, this`dirty, this`clock, this`cachedBlock, cache
      ensures var r := ReadAt(hw, old(State()), loc, count);
        ok == r.ok && State() == r.dev && (ok ==> buffer == r.data)
    {
      hide ReadAt;
      ghost var whole, pos := ReadAt(hw, State(), loc, count), loc;
      buffer := [];
      var progress := 0;
      while progress < count
        invariant progress <= count && pos == Wrapped(loc, progress)
        invariant var rest := ReadAt(hw, State(), pos, count - progress);
          whole.ok == rest.ok && whole.dev == rest.dev && (whole.ok ==> whole.data == buffer + rest.data)
      {
        hide Wrapped;
        var piece;
        ok, piece := ReadPiece(Wrapped(loc, progress), count - progress);
        if !ok {
          return;
        }
        WrapAdds(loc, progress, |piece|);
        pos := (pos + |piece|) % TWO64;
        AppendsRead(buffer, piece, ReadAt(hw, State(), pos, count - progress - |piece|).data);
        buffer := buffer + piece;
        progress := progress + |piece|;
      }
      EmptyTransfers(hw, State(), pos);
      ok := true;
    }

    /** `memcpy` into the cached block. */
    method Fill(offset: nat, piece: seq<Byte>)
      requires offset + |piece| <= cache.Length
      modifies cache
      ensures cache[..] == Patch(old(cache[..]), offset, piece)
    {
      forall i | 0 <= i < |piece| {
        cache[offset + i] := piece[i];
      }
    }

    /** The copying loop that `_device_write` shares between installing and uninstalling. */
    method Copy(buf: seq<Byte>, loc: nat) returns (ok: bool, ghost done: nat)
      requires Valid() && loc < TWO64
      modifies this`disk, this`dirty, this`clock, this`cachedBlock, cache
      ensures var r := WriteAt(hw, old(State()), loc, buf); ok == r.ok && State() == r.dev && done == r.done
    {
      hide BlockCache.CacheBlock, WriteAt, Patch;
      ghost var whole := WriteAt(hw, State(), loc, buf);
      var progress := 0;
      assert buf[0..] == buf;
      while progress < |buf|
        invariant progress <= |buf|
        invariant var rest := WriteAt(hw, State(), Wrapped(loc, progress), buf[progress..]);
          whole.ok == rest.ok && whole.dev == rest.dev && whole.done == progress + rest.done
      {
        var pos := Wrapped(loc, progress);
        ghost var before := State();
        var hit := CacheBlock(pos / hw.bs);
        if !hit {
          StoppedAtCache(hw, before, pos, buf[progress..]);
          return false, progress;
        }
        var chunk := |buf| - progress;
        if chunk > hw.bs - pos % hw.bs {
          chunk := hw.bs - pos % hw.bs;
        }
        WrapAdds(loc, progress, chunk);
        Fill(pos % hw.bs, buf[progress..][..chunk]);
        dirty := true;
        assert buf[progress..][chunk..] == buf[progress + chunk..];
        ghost var next := Wrapped(loc, progress + chunk);
        WriteAtStep(hw, before, pos, buf[progress..], BlockCache.CacheBlock(hw, before, pos / hw.bs), chunk, next,
                    WriteAt(hw, State(), next, buf[progress + chunk..]));
        progress := progress + chunk;
      }
      EmptyTransfers(hw, State(), Wrapped(loc, progress));
      return true, progress;
    }

    /** `_device_write`: logs while installing, only writes while uninstalling. */
    method Write(buf: seq<Byte>, loc: nat) returns (ok: bool, ghost done: nat)
      requires Valid() && loc < TWO64
      modifies this`disk, this`dirty, this`clock, this`cachedBlock, this`uninstallCount, cache, uninstallData
      ensures Valid()
      ensures old(uninstalling) ==>
        var r := WriteAt(hw, old(State()), loc, buf);
        && ok == r.ok && State() == r.dev
        && uninstallCount == old(uninstallCount) && uninstallData[..] == old(uninstallData[..])
      ensures !old(uninstalling) ==>
        var r := LoggedWrite(hw, old(Session(State(), Log())), loc, buf);
        ok == r.ok && Session(State(), Log()) == r.s && (!ok ==> done == r.done)
    {
      hide ReadAt, WriteAt;
      var saved: seq<Byte> := [];
      if !uninstalling {
        if uninstallCount >= MAX_RECORDS {
          return false, 0;
        }
        var got, bytes := Read(loc, |buf|);
        if !got {
          return false, 0;
        }
        saved := bytes;
        uninstallData[uninstallCount] := Record(loc, saved);
      }
      ok, done := Copy(buf, loc);
      if ok && !uninstalling {
        uninstallCount := uninstallCount + 1;
        assert Log() == old(Log()) + [Record(loc, saved)];
      }
    }

    lemma SameLength()
      requires Logging()
      ensures |flat| == |disk| == |origin|
    {
    }

    /** `device_read` of an install, seen on the flat disk. */
    method TryRead(loc: nat, count: nat) returns (ok: bool, buffer: seq<Byte>)
      requires Installing() && loc < TWO64
      modifies this`disk, this`dirty, this`clock, this`cachedBlock, this`failed, cache
      ensures ok ==> Installing() && |buffer| == count
      ensures ok && count > 0 ==> loc + count <= Limit() <= |flat| && buffer == flat[loc..loc + count]
      ensures !ok ==> failed && Stopped()
      ensures !ok && Calm(hw, 0) ==> loc + count > Limit()
    {
      hide ReadAt, View, Undoable, Reach, Storable, InReach;
      ghost var before := State();
      SameLength();
      ok, buffer := Read(loc, count);
      failed := !ok;
      ReadRefinesFlatDisk(hw, before, loc, count);
      MixtureStaysUndoable(origin, before.disk, flat, Log(), disk);
      ReachDependsOnLength(hw.bs, before.disk, disk);
      ReachDependsOnLength(hw.bs, before.disk, origin);
      ReachIsInside(hw.bs, before.disk);
      if ok && count > 0 {
        ReadInReach(hw, before, loc, count);
      }
      if Calm(hw, 0) && loc + count <= Limit() {
        CalmRead(hw, before, loc, count);
      }
    }

    /** `device_write` of an install, seen on the flat disk. */
    method TryWrite(buf: seq<Byte>, loc: nat) returns (ok: bool)
      requires Installing() && loc < TWO64
      modifies this`disk, this`dirty, this`clock, this`cachedBlock, this`failed, this`flat, this`torn
      modifies this`uninstallCount
      modifies cache, uninstallData
      ensures ok ==> Logging() && flat == Patch(old(flat), loc, buf) && uninstallCount == old(uninstallCount) + 1
      ensures ok && buf != [] ==> Installing() && loc + |buf| <= Limit() <= |flat|
      ensures !ok ==> failed && Stopped() && uninstallCount == old(uninstallCount)
      ensures !ok && Calm(hw, 0) ==> old(uninstallCount) == MAX_RECORDS || loc + |buf| > Limit()
    {
      hide ReadAt, WriteAt, View, Undoable, Reach;
      ghost var before := Session(State(), Log());
      SameLength();
      ghost var done;
      ok, done := Write(buf, loc);
      failed := !ok;
      LoggedWriteStaysRecoverable(hw, origin, before, loc, buf);
      PerformKeepsInReach(hw, before, WriteOp(loc, buf));
      ReachDependsOnLength(hw.bs, before.dev.disk, origin);
      ReachIsInside(hw.bs, before.dev.disk);
      if Calm(hw, 0) {
        CalmLoggedWrite(hw, before, loc, buf);
      }
      if ok {
        if buf != [] {
          WriteInRange(hw, before, loc, buf);
          PerformKeepsStorable(hw, before, WriteOp(loc, buf));
        }
        flat := Patch(flat, loc, buf);
        assert |Log()| == |before.log| + 1;
      } else {
        torn := done > 0;
        if !torn {
          assert Mixture(disk, before.dev.disk, flat);
          MixtureStaysUndoable(origin, before.dev.disk, flat, before.log, disk);
        }
      }
    }

    /** `device_flush_cache` of an install. */
    method TryFlush() returns (ok: bool)
      requires Installing()
      modifies this`disk, this`dirty, this`clock, this`failed
      ensures ok ==> Installing() && disk == flat
      ensures !ok ==> failed && Stopped() && !Calm(hw, 0)
    {
      hide View, Undoable, Reach;
      ghost var before := State();
      ok := Flush();
      failed := !ok;
      FlushKeepsView(hw, before);
      ReachDependsOnLength(hw.bs, before.disk, disk);
      MixtureStaysUndoable(origin, before.disk, flat, Log(), disk);
    }

    /** The failure part of `cleanup`: unless a write was torn, a rollback that reports success
        gives back the original disk. */
    method Rollback() returns (ok: bool)
      requires Stopped()
      modifies this`disk, this`dirty, this`clock, this`cachedBlock, this`uninstallCount, this`uninstalling
      modifies cache, uninstallData, uninstallDataRev
      ensures Valid() && (ok && !torn ==> disk == origin)
      ensures uninstallCount == old(uninstallCount) && (Calm(hw, old(clock)) ==> ok)
    {
      hide FlushCache, RestoreAll, View, Undoable, UndoLog.Uninstall, Reach;
      ghost var before, log := State(), Log();
      ReverseKeepsInReach(log, Reach(hw.bs, disk));
      if Calm(hw, clock) {
        CalmUninstall(hw, before, Reverse(log));
      }
      ReverseUninstallData();
      ReverseKeepsAddressable(log);
      ok := Uninstall();
      if ok {
        UninstallReplays(hw, before, Reverse(log));
        UndoableIffRestored(origin, before.disk, log);
      }
    }

    /** `reverse_uninstall_data`: counts up in the log and down in the copy. */
    method ReverseUninstallData()
      requires Valid()
      modifies uninstallData, uninstallDataRev
      ensures Log() == Reverse(old(Log()))
    {
      ghost var log := Log();
      var i := 0;
      while i < uninstallCount
        invariant i <= uninstallCount
        invariant uninstallData[..] == old(uninstallData[..])
        invariant uninstallDataRev[uninstallCount - i..uninstallCount] == Reverse(log[..i])
      {
        uninstallDataRev[uninstallCount - 1 - i] := uninstallData[i];
        assert log[..i + 1] == log[..i] + [log[i]];
        ReverseAppend(log[..i], log[i]);
        i := i + 1;
      }
      assert log[..i] == log;
      forall k | 0 <= k < uninstallCount {
        uninstallData[k] := uninstallDataRev[k];
      }
    }

    method RestoreOne(rec: Record) returns (flushFailed: bool, writeFailed: bool)
      requires Valid() && uninstalling && rec.loc < TWO64
      modifies this`disk, this`dirty, this`clock, this`cachedBlock, this`uninstallCount, cache, uninstallData
      ensures Valid() && Log() == old(Log())
      ensures var r := RestoreRecord(hw, old(State()), rec);
        State() == r.dev && flushFailed == r.flushFailed && writeFailed == r.writeFailed
    {
      hide WriteAt, FlushCache;
      flushFailed, writeFailed := false, false;
      var retry := false;
      var first := WriteAt(hw, State(), rec.loc, rec.data);
      while true
        invariant Valid() && Log() == old(Log()) && !writeFailed
        invariant !retry ==> State() == old(State()) && !flushFailed
        invariant retry ==>
          && !first.ok
          && State() == Reset(FlushCache(hw, first.dev).dev)
          && flushFailed == !FlushCache(hw, first.dev).ok
        decreases !retry
      {
        var wrote, _ := Write(rec.data, rec.loc);
        if wrote {
          return;
        }
        if retry {
          writeFailed := true;
          return;
        }
        var flushed := Flush();
        flushFailed := !flushed;
        dirty, cachedBlock, retry := false, NO_BLOCK, true;
      }
    }

    /** `uninstall`: throws the cache away and writes every record back. */
    method Uninstall() returns (ok: bool)
      requires Valid() && Addressable(Log())
      modifies this`disk, this`dirty, this`clock, this`cachedBlock, this`uninstallCount, this`uninstalling
      modifies cache, uninstallData
      ensures Valid() && Log() == old(Log())
      ensures var r := UndoLog.Uninstall(hw, old(State()), old(Log())); ok == r.ok && State() == r.dev
    {
      hide RestoreRecord, FlushCache;
      var flushFail, writeFail := false, false;
      uninstalling, dirty, cachedBlock := true, false, NO_BLOCK;
      ghost var log, all := Log(), RestoreAll(hw, State(), Log());
      assert log[0..] == log;
      var i := 0;
      while i < uninstallCount
        invariant Valid() && uninstalling && Log() == log && i <= uninstallCount
        invariant var rest := RestoreAll(hw, State(), log[i..]);
          && all.dev == rest.dev
          && all.flushFailed == (flushFail || rest.flushFailed)
          && all.writeFailed == (writeFail || rest.writeFailed)
        decreases |log| - i
      {
        assert uninstallData[i] == log[i] && log[i..][0] == log[i] && log[i..][1..] == log[i + 1..];
        var f, w := RestoreOne(uninstallData[i]);
        flushFail, writeFail := flushFail || f, writeFail || w;
        i := i + 1;
      }
      var flushed := Flush();
      ok := flushed && !flushFail && !writeFail;
    }

    /** `store_uninstall_data`, the file as the sequence of bytes written to it. */
    method StoreUninstallData() returns (ok: bool, file: seq<Byte>)
      requires Valid()
      ensures Stored(file, ok) == Store(Log())
    {
      hide LittleEndian;
      ghost var log, all := Log(), StoreRecords(Log());
      file := LittleEndian(uninstallCount, 8);
      ghost var head := file;
      assert log[0..] == log;
      var i := 0;
      while i < uninstallCount
        invariant i <= uninstallCount
        invariant var rest := StoreRecords(log[i..]); head + all.file == file + rest.file && all.ok == rest.ok
      {
        var rec := uninstallData[i];
        assert log[i..][0] == rec && log[i..][1..] == log[i + 1..];
        ghost var rest := StoreRecords(log[i..]).file;
        ghost var file0 := file;
        file := file + LittleEndian(rec.loc, 8) + LittleEndian(|rec.data|, 8);
        if rec.data == [] {
          assert file == file0 + rest;
          return false, file;
        }
        file := file + rec.data;
        assert file + StoreRecords(log[i + 1..]).file == file0 + rest;
        i := i + 1;
      }
      ok := true;
    }

    /** `load_uninstall_data` on the bytes of the file. */
    method LoadUninstallData(file: seq<Byte>) returns (ok: bool)
      requires Valid()
      modifies this`uninstallCount, uninstallData
      ensures Valid()
      ensures ok == UndoFile.Load(file).Some? && (ok ==> Log() == UndoFile.Load(file).value)
    {
      hide FromLittleEndian, LoadRecords;
      if |file| < 8 {
        return false;
      }
      var n := FromLittleEndian(file[..8]);
      if n > MAX_RECORDS {
        return false;
      }
      uninstallCount := n;
      ghost var whole := LoadRecords(file[8..], n);
      var i, at := 0, 8;
      while i < n
        invariant Valid() && uninstallCount == n && i <= n && 8 <= at <= |file|
        invariant var rest := LoadRecords(file[at..], n - i);
          whole.Some? == rest.Some? && (whole.Some? ==> whole.value == uninstallData[..i] + rest.value)
      {
        ghost var tail, before := file[at..], uninstallData[..i];
        if |file| - at < 16 {
          LoadStops(tail, n - i);
          return false;
        }
        var loc, count := FromLittleEndian(file[at..at + 8]), FromLittleEndian(file[at + 8..at + 16]);
        FileSlice(file, at, 0, 8);
        FileSlice(file, at, 8, 16);
        if count == 0 || |file| - at - 16 < count {
          LoadStops(tail, n - i);
          return false;
        }
        var rec := Record(loc, file[at + 16..at + 16 + count]);
        FileSlice(file, at, 16, 16 + count);
        LoadStep(tail, n - i, rec, before);
        uninstallData[i] := rec;
        assert uninstallData[..i + 1] == before + [rec];
        i, at := i + 1, at + 16 + count;
      }
      LoadNone(file[at..]);
      assert uninstallData[..n] + [] == uninstallData[..n];
      ok := true;
    }
  }

  lemma FileSlice(file: seq<Byte>, at: nat, i: nat, j: nat)
    requires i <= j && at + j <= |file|
    ensures file[at..][i..j] == file[at + i..at + j] && file[at..][j..] == file[at + j..]
  {
    var tail := file[at..];
    assert forall k :: i <= k < j ==> tail[k] == file[at + k];
  }

  lemma LoadNone(file: seq<Byte>)
    ensures LoadRecords(file, 0) == Some([])
  {
  }

  lemma LoadStops(file: seq<Byte>, n: nat)
    requires n > 0
    requires |file| < 16 || FromLittleEndian(file[8..16]) == 0 || |file| - 16 < FromLittleEndian(file[8..16])
    ensures LoadRecords(file, n).None?
  {
  }

  /** One record more: what is loaded in all is what was loaded, the record and the rest. */
  lemma LoadStep(file: seq<Byte>, n: nat, rec: Record, before: seq<Record>)
    requires n > 0 && |file| >= 16 && rec.loc == FromLittleEndian(file[..8])
    requires 0 < |rec.data| == FromLittleEndian(file[8..16]) <= |file| - 16 && rec.data == file[16..16 + |rec.data|]
    ensures var all, rest := LoadRecords(file, n), LoadRecords(file[16 + |rec.data|..], n - 1);
      all.Some? == rest.Some? && (all.Some? ==> before + all.value == before + [rec] + rest.value)
  {
  }

  lemma WriteInRange(hw: Hardware, s: Session, loc: nat, buf: seq<Byte>)
    requires Coherent(hw, s.dev) && loc < TWO64 && LoggedWrite(hw, s, loc, buf).ok && buf != []
    ensures loc + |buf| <= Reach(hw.bs, s.dev.disk)
  {
    hide ReadAt, WriteAt, View;
    ReadInReach(hw, s.dev, loc, |buf|);
  }

  lemma ReachIsInside(bs: nat, disk: seq<Byte>)
    requires bs > 0
    ensures Reach(bs, disk) <= |disk|
  {
    assert |disk| == |disk| / bs * bs + |disk| % bs;
  }

  lemma {:induction false} ReverseAppend(log: seq<Record>, rec: Record)
    ensures Reverse(log + [rec]) == [rec] + Reverse(log)
  {
    if log == [] {
      assert log + [rec] == [rec];
    } else {
      assert (log + [rec])[1..] == log[1..] + [rec];
      ReverseAppend(log[1..], rec);
    }
  }
}
