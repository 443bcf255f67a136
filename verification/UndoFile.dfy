/** The undo file of limine.c: a 64-bit record count, then for each record its location, its
    byte count and its bytes. Integers are in the byte order of the host, here little-endian. */
module UndoFile {
  import opened Bytes
  import opened BlockCache
  import opened UndoLog

  datatype Option<+T> = None | Some(value: T)

  /** What a run of `store_uninstall_data` leaves in the file, and whether it reports success. */
  datatype Stored = Stored(file: seq<Byte>, ok: bool)

  /** `fwrite` of zero bytes reports zero items, so an empty record stops the store. */
  function StoreRecords(log: seq<Record>): (r: Stored)
  {
    if log == [] then Stored([], true)
    else
      var head := LittleEndian(log[0].loc, 8) + LittleEndian(|log[0].data|, 8);
      if log[0].data == [] then Stored(head, false)
      else
        var rest := StoreRecords(log[1..]);
        Stored(head + log[0].data + rest.file, rest.ok)
  }

  function Store(log: seq<Record>): (r: Stored)
  {
    var rest := StoreRecords(log);
    Stored(LittleEndian(|log|, 8) + rest.file, rest.ok)
  }

  /** `fread` of zero bytes reports zero items, so an empty record is refused here as well. */
  function LoadRecords(file: seq<Byte>, n: nat): (r: Option<seq<Record>>)
    ensures r.Some? ==> |r.value| == n
  {
    if n == 0 then Some([])
    else if |file| < 16 then None
    else
      var loc, count := FromLittleEndian(file[..8]), FromLittleEndian(file[8..16]);
      if count == 0 || |file| < 16 + count then None
      else match LoadRecords(file[16 + count..], n - 1)
        case None => None
        case Some(rest) => Some([Record(loc, file[16..16 + count])] + rest)
  }

  function Load(file: seq<Byte>): (r: Option<seq<Record>>)
  {
    if |file| < 8 || FromLittleEndian(file[..8]) > MAX_RECORDS then None
    else LoadRecords(file[8..], FromLittleEndian(file[..8]))
  }

  /** The file: the number of records, then for each its location, its length and its bytes; all
      numbers take eight bytes. */
  lemma {:induction false} StoredLayout(log: seq<Record>, rec: Record)
    requires StoreRecords(log).ok
    ensures Store(log).file == LittleEndian(|log|, 8) + StoreRecords(log).file && StoreRecords([]).file == []
    ensures rec.data != [] ==>
      StoreRecords(log + [rec]).file
      == StoreRecords(log).file + LittleEndian(rec.loc, 8) + LittleEndian(|rec.data|, 8) + rec.data
    decreases |log|
  {
    hide LittleEndian;
    if log == [] {
      assert log + [rec] == [rec] && [rec][1..] == [];
      var head := LittleEndian(rec.loc, 8) + LittleEndian(|rec.data|, 8);
      assert rec.data == [] || StoreRecords([rec]).file == head + rec.data + [];
    } else {
      assert (log + [rec])[1..] == log[1..] + [rec] && (log + [rec])[0] == log[0];
      StoredLayout(log[1..], rec);
    }
  }

  /** The records that fit the file format. */
  predicate Storable(log: seq<Record>) {
    forall i :: 0 <= i < |log| ==> log[i].loc < TWO64 && 0 < |log[i].data| < TWO64
  }

  lemma {:induction false} StoreSucceedsIff(log: seq<Record>)
    ensures StoreRecords(log).ok <==> forall i :: 0 <= i < |log| ==> log[i].data != []
  {
    if log != [] {
      StoreSucceedsIff(log[1..]);
      assert forall i :: 0 < i < |log| ==> log[i] == log[1..][i - 1];
    }
  }

  lemma HeadDecodes(x: nat, rest: seq<Byte>)
    requires x < TWO64
    ensures FromLittleEndian((LittleEndian(x, 8) + rest)[..8]) == x
  {
    WidthLimits();
    DecodeEncodeInt(x, 8);
    assert (LittleEndian(x, 8) + rest)[..8] == LittleEndian(x, 8);
  }

  lemma {:induction false} LoadsWhatWasStored(log: seq<Record>, junk: seq<Byte>)
    requires Storable(log)
    ensures LoadRecords(StoreRecords(log).file + junk, |log|) == Some(log)
  {
    if log != [] {
      hide LoadRecords, StoreRecords;
      assert log == [log[0]] + log[1..];
      LoadsWhatWasStored(log[1..], junk);
      LoadsNext(log[0], log[1..], junk);
    }
  }

  lemma LoadsNext(rec: Record, rest: seq<Record>, junk: seq<Byte>)
    requires Storable([rec]) && LoadRecords(StoreRecords(rest).file + junk, |rest|) == Some(rest)
    ensures LoadRecords(StoreRecords([rec] + rest).file + junk, |rest| + 1) == Some([rec] + rest)
  {
    hide LittleEndian, FromLittleEndian, LoadRecords, StoreRecords, Pow256;
    assert [rec][0] == rec;
    var file := StoreRecords([rec] + rest).file + junk;
    StoreHead(rec, rest);
    Pieces(LittleEndian(rec.loc, 8), LittleEndian(|rec.data|, 8), rec.data, StoreRecords(rest).file, junk, file);
    WidthLimits();
    DecodeEncodeInt(rec.loc, 8);
    DecodeEncodeInt(|rec.data|, 8);
    LoadsOne(file, |rest| + 1, rec, rest);
  }

  lemma Pieces(a: seq<Byte>, b: seq<Byte>, data: seq<Byte>, rest: seq<Byte>, junk: seq<Byte>, file: seq<Byte>)
    requires |a| == |b| == 8 && file == a + b + data + rest + junk
    ensures file[..8] == a && file[8..16] == b && file[16..16 + |data|] == data && file[16 + |data|..] == rest + junk
  {
  }

  lemma LoadsOne(file: seq<Byte>, n: nat, rec: Record, rest: seq<Record>)
    requires n > 0 && |file| >= 16 + |rec.data| && rec.data != []
    requires FromLittleEndian(file[..8]) == rec.loc && FromLittleEndian(file[8..16]) == |rec.data|
    requires file[16..16 + |rec.data|] == rec.data && LoadRecords(file[16 + |rec.data|..], n - 1) == Some(rest)
    ensures LoadRecords(file, n) == Some([rec] + rest)
  {
  }

  /** Only a stored log, possibly followed by other bytes, loads as that log. */
  lemma {:induction false} LoadedWasStored(file: seq<Byte>, n: nat)
    requires LoadRecords(file, n).Some?
    ensures var log := LoadRecords(file, n).value;
      Storable(log) && StoreRecords(log).ok && StoreRecords(log).file <= file
  {
    hide LittleEndian, FromLittleEndian, Pow256;
    if n > 0 {
      var loc, count := FromLittleEndian(file[..8]), FromLittleEndian(file[8..16]);
      LoadedWasStored(file[16 + count..], n - 1);
      WidthLimits();
      EncodeDecodeInt(file[..8]);
      EncodeDecodeInt(file[8..16]);
      var rec := Record(loc, file[16..16 + count]);
      var rest := LoadRecords(file[16 + count..], n - 1).value;
      assert LoadRecords(file, n) == Some([rec] + rest);
      StoreHead(rec, rest);
      FourPieces(file, 16 + count, StoreRecords(rest).file);
    }
  }

  lemma StoreHead(rec: Record, rest: seq<Record>)
    requires rec.data != []
    ensures StoreRecords([rec] + rest).ok == StoreRecords(rest).ok
    ensures StoreRecords([rec] + rest).file ==
      LittleEndian(rec.loc, 8) + LittleEndian(|rec.data|, 8) + rec.data + StoreRecords(rest).file
  {
  }

  lemma FourPieces(file: seq<Byte>, n: nat, rest: seq<Byte>)
    requires 16 <= n <= |file| && rest <= file[n..]
    ensures file[..8] + file[8..16] + file[16..n] + rest <= file
  {
  }

  lemma LoadedFileWasStored(file: seq<Byte>, log: seq<Record>)
    requires Load(file) == Some(log)
    ensures |log| <= MAX_RECORDS && Storable(log) && Store(log).file <= file
  {
    hide LittleEndian, FromLittleEndian, Pow256, LoadRecords, StoreRecords;
    LoadedWasStored(file[8..], FromLittleEndian(file[..8]));
    EncodeDecodeInt(file[..8]);
    assert file == file[..8] + file[8..];
  }

  lemma StoredFileLoads(file: seq<Byte>, log: seq<Record>)
    requires |log| <= MAX_RECORDS && Storable(log) && Store(log).file <= file
    ensures Load(file) == Some(log)
  {
    hide LittleEndian, FromLittleEndian, Pow256, LoadRecords, StoreRecords;
    var body := StoreRecords(log).file;
    var junk := file[8 + |body|..];
    assert file == LittleEndian(|log|, 8) + (body + junk);
    HeadDecodes(|log|, body + junk);
    LoadsWhatWasStored(log, junk);
    assert file[8..] == body + junk;
  }

  /** Loading is the exact inverse of storing: a file loads as `log` if and only if `log` has at
      most 256 storable records and the file begins with what storing it writes. */
  lemma LoadInvertsStore(file: seq<Byte>, log: seq<Record>)
    ensures Load(file) == Some(log) <==> |log| <= 256 && Storable(log) && Store(log).file <= file
    ensures Storable(log) ==> Store(log).ok
  {
    hide Load, StoreRecords;
    StoreSucceedsIff(log);
    if Load(file) == Some(log) {
      LoadedFileWasStored(file, log);
    } else if |log| <= MAX_RECORDS && Storable(log) && Store(log).file <= file {
      StoredFileLoads(file, log);
    }
  }

  lemma {:induction false} ReverseKeepsStorable(log: seq<Record>)
    requires Storable(log)
    ensures Storable(Reverse(log))
  {
    if log != [] {
      assert forall i :: 0 < i < |log| ==> log[i] == log[1..][i - 1];
      ReverseKeepsStorable(log[1..]);
    }
  }

  lemma PerformKeepsStorable(hw: Hardware, s: Session, op: Op)
    requires Coherent(hw, s.dev) && op.Valid() && (op.WriteOp? ==> op.buf != [])
    requires Storable(s.log) && |s.log| <= MAX_RECORDS && Perform(hw, s, op).ok
    ensures var t := Perform(hw, s, op).s; Storable(t.log) && |t.log| <= MAX_RECORDS
  {
    hide ReadAt, WriteAt, FlushCache, View;
    if op.WriteOp? {
      ReadRefinesFlatDisk(hw, s.dev, op.loc, |op.buf|);
    }
  }

  lemma {:induction false} RunKeepsStorable(hw: Hardware, s: Session, ops: seq<Op>)
    requires Coherent(hw, s.dev) && Storable(s.log) && |s.log| <= MAX_RECORDS && Run(hw, s, ops).ok
    requires forall i :: 0 <= i < |ops| ==> ops[i].Valid() && (ops[i].WriteOp? ==> ops[i].buf != [])
    ensures var t := Run(hw, s, ops).s; Storable(t.log) && |t.log| <= MAX_RECORDS
    decreases |ops|
  {
    hide Perform, View;
    if ops != [] {
      PerformRefinesFlatDisk(hw, s, ops[0]);
      PerformKeepsStorable(hw, s, ops[0]);
      RunKeepsStorable(hw, Perform(hw, s, ops[0]).s, ops[1..]);
    }
  }

  /** Install, reverse, store, and in a later run load and uninstall: the disk is as it was. */
  lemma StoredUninstallIsIdentity(hw: Hardware, s: Session, ops: seq<Op>, later: Hardware, d: Dev)
    requires Fresh(hw, s) && Sane(later, d)
    requires forall i :: 0 <= i < |ops| ==> ops[i].Valid() && (ops[i].WriteOp? ==> ops[i].buf != [])
    requires Run(hw, s, ops).ok && d.disk == Run(hw, s, ops).s.dev.disk
    ensures var stored := Store(Reverse(Run(hw, s, ops).s.log));
      && stored.ok && Load(stored.file).Some?
      && (Uninstall(later, d, Load(stored.file).value).ok ==>
            Uninstall(later, d, Load(stored.file).value).dev.disk == s.dev.disk)
  {
    hide Run, Uninstall, View, Undoable, Store, Load;
    var log := Run(hw, s, ops).s.log;
    RunKeepsStorable(hw, s, ops);
    ReverseKeepsStorable(log);
    LoadInvertsStore(Store(Reverse(log)).file, Reverse(log));
    if Uninstall(later, d, Reverse(log)).ok {
      InstallThenUninstall(hw, s, ops, later, d);
    }
  }
}
