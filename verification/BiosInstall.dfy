/** The install procedure of limine.c, from the first probe to the rollback of a failure. */
module BiosInstall {
  import opened Bytes
  import opened LimineDevice
  import opened BlockCache
  import UndoLog
  import UndoFile
  import opened CalmDevice
  import opened PartitionTables

  const EFI_PART: seq<Byte> := [0x45, 0x46, 0x49, 0x20, 0x50, 0x41, 0x52, 0x54]
  const CD001: seq<Byte> := [0x43, 0x44, 0x30, 0x30, 0x31]
  const NTFS: seq<Byte> := [0x4e, 0x54, 0x46, 0x53]
  const FAT: seq<Byte> := [0x46, 0x41, 0x54]
  const FAT32: seq<Byte> := [0x46, 0x41, 0x54, 0x33, 0x32]
  const EXT: seq<Byte> := [0x53, 0xef]
  const BIOS_BOOT: seq<Byte> :=
    [0x48, 0x61, 0x68, 0x21, 0x49, 0x64, 0x6f, 0x6e, 0x74, 0x4e, 0x65, 0x65, 0x64, 0x45, 0x46, 0x49]

  /** Where the MBR disk identifier and, after two more bytes, the partition table are. */
  const DISK_ID: nat := 0x1b8
  const PARTITION_TABLE: nat := 0x1be

  function Zeros(n: nat): (r: seq<Byte>)
    ensures |r| == n
  {
    seq(n, i => 0)
  }

  datatype Gpt = Gpt(lbSize: nat, alternate: nat, entryLba: nat, entryCount: nat, entrySize: nat) {
    predicate Valid() {
      && (lbSize == 512 || lbSize == 4096) && alternate < TWO64 && entryLba < TWO64
      && entryCount < TWO32 && entrySize < TWO32
    }
  }

  // ------------------------------------------------------------------ GPT to MBR conversion

  /** Where logical block `first + i` is; locations wrap at 64 bits. */
  function BlockAt(lbSize: nat, first: nat, i: nat): (r: nat)
    ensures r < TWO64
  {
    (first + i) * lbSize % TWO64
  }

  /** `flat` with `count` logical blocks from `first` on cleared; locations wrap at 64 bits. */
  function Cleared(flat: seq<Byte>, lbSize: nat, first: nat, count: nat): (r: seq<Byte>)
    ensures |r| == |flat|
  {
    if count == 0 then flat
    else Patch(Cleared(flat, lbSize, first, count - 1), BlockAt(lbSize, first, count - 1), Zeros(lbSize))
  }

  lemma {:induction false} ClearedStaysZero(flat: seq<Byte>, lbSize: nat, first: nat, count: nat, p: nat)
    requires p < |flat| && (flat[p] == 0 || (first == 0 && count > 0 && p < lbSize))
    ensures Cleared(flat, lbSize, first, count)[p] == 0
  {
    if count > 1 || (count == 1 && flat[p] == 0) {
      ClearedStaysZero(flat, lbSize, first, count - 1, p);
    }
  }

  /** Both GPTs cleared, the secondary one only when it can start 32 blocks before its header. */
  function WithoutGpt(flat: seq<Byte>, g: Gpt): (r: seq<Byte>)
    ensures |r| == |flat|
  {
    var primary := Cleared(flat, g.lbSize, 0, 34);
    if g.alternate >= 32 then Cleared(primary, g.lbSize, g.alternate - 32, 33) else primary
  }

  /** The disk after a conversion: no GPTs, a new disk identifier and the partitions in the MBR. */
  function Converted(flat: seq<Byte>, g: Gpt, id: seq<Byte>, parts: seq<Part>): (r: seq<Byte>)
    requires |id| == 4 && ValidParts(parts)
    ensures |r| == |flat|
  {
    Patch(WithoutGpt(flat, g), DISK_ID, id + [0, 0] + Table(parts))
  }

  lemma WithoutGptZeroesSector(flat: seq<Byte>, g: Gpt, p: nat)
    requires g.Valid() && p < 512 <= |flat|
    ensures WithoutGpt(flat, g)[p] == 0
  {
    hide Cleared;
    ClearedStaysZero(flat, g.lbSize, 0, 34, p);
    if g.alternate >= 32 {
      ClearedStaysZero(Cleared(flat, g.lbSize, 0, 34), g.lbSize, g.alternate - 32, 33, p);
    }
  }

  /** A GPT header is recognised at `at`. */
  predicate Signed(flat: seq<Byte>, at: nat) { at + 96 <= |flat| && flat[at..at + 8] == EFI_PART }

  predicate HasGpt(flat: seq<Byte>) { Signed(flat, 512) || Signed(flat, 4096) }

  function HeaderAt(flat: seq<Byte>, at: nat, lbSize: nat): Gpt
    requires at + 96 <= |flat|
  {
    Gpt(lbSize, U64At(flat, at + 32), U64At(flat, at + 72), U32At(flat, at + 80), U32At(flat, at + 84))
  }

  /** The GPT of the disk: blocks of 512 bytes are tried before blocks of 4096. */
  function Header(flat: seq<Byte>): (g: Gpt)
    requires HasGpt(flat)
    ensures g.Valid()
  {
    if Signed(flat, 512) then HeaderAt(flat, 512, 512) else HeaderAt(flat, 4096, 4096)
  }

  function BackupAt(g: Gpt): nat { g.lbSize * g.alternate % TWO64 }

  predicate BackupOf(flat: seq<Byte>, g: Gpt) { Signed(flat, BackupAt(g)) }

  /** The device never fails, and yet an operation did: it ran off the end of the disk. */
  ghost predicate RanOff(dev: Device)
    reads dev
  {
    Calm(dev.hw, 0) && dev.failed && dev.uninstallCount < UndoLog.MAX_RECORDS
  }

  /** Transfers below `limit` suffice for probing. */
  predicate AmpleProbe(limit: nat, flat: seq<Byte>) {
    && 608 <= limit && (!Signed(flat, 512) ==> 4192 <= limit)
    && (HasGpt(flat) ==> BackupAt(Header(flat)) + 96 <= limit)
  }

  lemma SliceOfSlice(s: seq<Byte>, at: nat, n: nat, i: nat, j: nat)
    requires i <= j <= n && at + n <= |s|
    ensures s[at..at + n][i..j] == s[at + i..at + j]
  {
    var part := s[at..at + n];
    assert forall k :: i <= k < j ==> part[k] == s[at + k];
  }

  lemma HeaderFields(flat: seq<Byte>, at: nat, header: seq<Byte>)
    requires at + 96 <= |flat| && header == flat[at..at + 96]
    ensures U64At(header, 32) == U64At(flat, at + 32) && U64At(header, 72) == U64At(flat, at + 72)
    ensures U32At(header, 80) == U32At(flat, at + 80) && U32At(header, 84) == U32At(flat, at + 84)
    ensures header[..8] == flat[at..at + 8]
  {
    hide FromLittleEndian;
    SliceOfSlice(flat, at, 96, 32, 40);
    SliceOfSlice(flat, at, 96, 72, 80);
    SliceOfSlice(flat, at, 96, 80, 84);
    SliceOfSlice(flat, at, 96, 84, 88);
  }

  /** Reads a GPT header and takes the fields that matter for blocks of `lbSize` bytes. */
  method ReadHeader(dev: Device, at: nat, lbSize: nat) returns (ok: bool, signed: bool, g: Gpt)
    requires dev.Installing() && at < TWO64
    modifies dev`disk, dev`dirty, dev`clock, dev`cachedBlock, dev`failed, dev.cache
    ensures ok ==> dev.Installing() && (signed <==> Signed(dev.flat, at))
    ensures ok && signed ==> g == HeaderAt(dev.flat, at, lbSize)
    ensures !ok ==> dev.failed && dev.Stopped()
    ensures (ok ==> at + 96 <= dev.Limit()) && (!ok && RanOff(dev) ==> dev.Limit() < at + 96)
  {
    hide Device.Installing, Device.Stopped, U64At, U32At, Calm;
    signed, g := false, Gpt(lbSize, 0, 0, 0, 0);
    var header;
    ok, header := dev.TryRead(at, 96);
    if ok {
      HeaderFields(dev.flat, at, header);
      signed := header[..8] == EFI_PART;
      g := Gpt(lbSize, U64At(header, 32), U64At(header, 72), U32At(header, 80), U32At(header, 84));
    }
  }

  /** Looks for a GPT header with either logical block size and checks its backup; refuses exactly
      a GPT without one. */
  method Probe(dev: Device) returns (ok: bool, found: bool, g: Gpt)
    requires dev.Installing()
    modifies dev`disk, dev`dirty, dev`clock, dev`cachedBlock, dev`failed, dev.cache
    ensures ok ==> dev.Installing() && (found <==> HasGpt(dev.flat))
    ensures ok && found ==> g == Header(dev.flat) && BackupOf(dev.flat, g)
    ensures !ok ==> dev.Stopped() && (!dev.failed ==> HasGpt(dev.flat) && !BackupOf(dev.flat, Header(dev.flat)))
    ensures if ok then AmpleProbe(dev.Limit(), dev.flat) else RanOff(dev) ==> !AmpleProbe(dev.Limit(), dev.flat)
  {
    hide Device.Installing, Device.Stopped, Device.Limit, U64At, U32At, Calm;
    var guesses := [512, 4096];
    var i := 0;
    g := Gpt(512, 0, 0, 0, 0);
    while i < 2
      invariant dev.Installing() && i <= 2 && (i > 0 ==> !Signed(dev.flat, 512)) && (i > 1 ==> !Signed(dev.flat, 4096))
      invariant (i > 0 ==> 608 <= dev.Limit()) && (i > 1 ==> 4192 <= dev.Limit())
    {
      ok, found, g := ReadHeader(dev, guesses[i], guesses[i]);
      if !ok {
        return false, false, g;
      }
      if found {
        var backed, backup;
        ok, backed, backup := ReadHeader(dev, BackupAt(g), g.lbSize);
        if ok && !backed {
          InstallingIsStopped(dev);
          ok := false;
        }
        return;
      }
      i := i + 1;
    }
    return true, false, g;
  }

  lemma InstallingIsStopped(dev: Device)
    requires dev.Installing()
    ensures dev.Stopped() && !dev.failed
  {
  }

  /** Transfers below `limit` suffice for gathering: the scan looks at an entry exactly when all
      entries before it fit. */
  ghost predicate AmpleGather(limit: nat, flat: seq<Byte>, base: nat, size: nat, n: nat) {
    forall i: nat {:trigger Fits(flat, base, size, i)} ::
      i < n && Fits(flat, base, size, i) && base + i * size < TWO64 ==> base + i * size + 128 <= limit
  }

  /** Reads every GPT entry; decides exactly whether all of them can be converted. */
  method Gather(dev: Device, base: nat, size: nat, n: nat) returns (ok: bool, fits: bool, parts: seq<Part>)
    requires dev.Installing() && base < TWO64 && size < TWO32 && n < TWO32
    modifies dev`disk, dev`dirty, dev`clock, dev`cachedBlock, dev`failed, dev.cache
    ensures ok ==> dev.Installing() && (fits <==> Fits(dev.flat, base, size, n))
    ensures ok && fits ==> parts == Gathered(dev.flat, base, size, n)
    ensures !ok ==> dev.failed && dev.Stopped()
    ensures if ok then AmpleGather(dev.Limit(), dev.flat, base, size, n)
      else RanOff(dev) ==> !AmpleGather(dev.Limit(), dev.flat, base, size, n)
  {
    hide Device.Installing, Device.Stopped, Device.Limit, U64At, PartOf, MbrType, Used, Convertible, Calm, AmpleGather;
    ghost var flat := dev.flat;
    fits, parts := false, [];
    var i := 0;
    while i < n
      invariant i <= n && dev.Installing() && dev.flat == flat
      invariant EntriesInDisk(flat, base, size, i) && parts == Gathered(flat, base, size, i)
      invariant |parts| <= 4 && forall k :: 0 <= k < |parts| ==> Convertible(parts[k])
      invariant forall k: nat {:trigger k * size} :: k < i ==> base + k * size + 128 <= dev.Limit()
    {
      var at := base + i * size;
      if at >= TWO64 {
        DiskIsBounded(dev);
        TooFar(flat, base, size, i, n);
        AllRead(dev.Limit(), flat, base, size, i, n);
        return true, false, parts;
      }
      assert at >= 0 by { MulNatural(i, size); }
      var got, e := dev.TryRead(at, 128);
      if !got {
        OneTooFar(dev.Limit(), flat, base, size, i, n);
        return false, false, parts;
      }
      ReachesOneMore(flat, base, size, i);
      if Used(e) {
        var p := PartOf(e);
        assert Gathered(flat, base, size, i + 1) == parts + [p];
        if |parts| == 4 || !Convertible(p) {
          assert (parts + [p])[|parts|] == p;
          NeverFits(flat, base, size, i + 1, n);
          AllRead(dev.Limit(), flat, base, size, i + 1, n);
          return true, false, parts;
        }
        parts := parts + [p];
      }
      i := i + 1;
    }
    AllRead(dev.Limit(), flat, base, size, n, n);
    return true, true, parts;
  }

  /** Entries before `i` have been read, and none follows that would be looked at. */
  lemma AllRead(limit: nat, flat: seq<Byte>, base: nat, size: nat, i: nat, n: nat)
    requires i <= n && EntriesInDisk(flat, base, size, i)
    requires forall k: nat {:trigger k * size} :: k < i ==> base + k * size + 128 <= limit
    requires i == n || base + i * size >= TWO64 || !Fits(flat, base, size, i)
    ensures AmpleGather(limit, flat, base, size, n)
  {
    hide Fits;
    forall k: nat | k < n && Fits(flat, base, size, k) && base + k * size < TWO64
      ensures base + k * size + 128 <= limit
    {
      if i <= k {
        LaterIsHigher(size, i, k);
        if base + i * size < TWO64 {
          NeverFits(flat, base, size, i, k);
        }
      }
    }
  }

  lemma LaterIsHigher(size: nat, i: nat, k: nat)
    requires i <= k
    ensures i * size <= k * size
  {
    MulNatural(k - i, size);
    assert (k - i) * size == k * size - i * size;
  }

  lemma OneTooFar(limit: nat, flat: seq<Byte>, base: nat, size: nat, i: nat, n: nat)
    requires i < n && EntriesInDisk(flat, base, size, i) && Fits(flat, base, size, i) && base + i * size < TWO64
    ensures limit < base + i * size + 128 ==> !AmpleGather(limit, flat, base, size, n)
  {
  }

  lemma DiskIsBounded(dev: Device)
    requires dev.Installing()
    ensures 512 <= |dev.flat| < TWO64 - 2048
  {
  }

  lemma MulNatural(i: nat, size: nat)
    ensures i * size >= 0
  {
  }

  lemma TooFar(flat: seq<Byte>, base: nat, size: nat, i: nat, n: nat)
    requires i < n && base + i * size + 128 > |flat|
    ensures !Fits(flat, base, size, n)
  {
  }

  lemma ReachesOneMore(flat: seq<Byte>, base: nat, size: nat, i: nat)
    requires EntriesInDisk(flat, base, size, i) && base + i * size + 128 <= |flat|
    ensures EntriesInDisk(flat, base, size, i + 1)
  {
  }

  lemma NeverFits(flat: seq<Byte>, base: nat, size: nat, i: nat, n: nat)
    requires i <= n && EntriesInDisk(flat, base, size, i)
    requires !Fits(flat, base, size, i)
    ensures !Fits(flat, base, size, n)
  {
    if EntriesInDisk(flat, base, size, n) {
      GatheredGrows(flat, base, size, i, n);
      var few, all := Gathered(flat, base, size, i), Gathered(flat, base, size, n);
      if k :| 0 <= k < |few| && !Convertible(few[k]) {
        assert all[k] == few[k];
      }
    }
  }

  /** Transfers below `limit` suffice for clearing. */
  ghost predicate AmpleClear(limit: nat, lbSize: nat, first: nat, count: nat) {
    forall i: nat :: i < count ==> BlockAt(lbSize, first, i) + lbSize <= limit
  }

  method Clear(dev: Device, lbSize: nat, first: nat, count: nat) returns (ok: bool)
    requires dev.Installing() && (lbSize == 512 || lbSize == 4096)
    modifies dev`disk, dev`dirty, dev`clock, dev`cachedBlock, dev`failed, dev`uninstallCount, dev`flat, dev`torn
    modifies dev.cache, dev.uninstallData
    ensures ok ==> dev.Installing() && dev.flat == Cleared(old(dev.flat), lbSize, first, count)
    ensures ok ==> dev.uninstallCount == old(dev.uninstallCount) + count
    ensures !ok ==> dev.uninstallCount <= old(dev.uninstallCount) + count
    ensures ok && count > 0 ==> lbSize <= |dev.flat|
    ensures !ok ==> dev.failed && dev.Stopped()
    ensures if ok then AmpleClear(dev.Limit(), lbSize, first, count)
      else RanOff(dev) ==> !AmpleClear(dev.Limit(), lbSize, first, count)
  {
    hide Device.Installing, Device.Stopped, Device.Limit, Patch, Calm, BlockAt;
    var i := 0;
    while i < count
      invariant i <= count && dev.Installing() && dev.flat == Cleared(old(dev.flat), lbSize, first, i)
      invariant dev.uninstallCount == old(dev.uninstallCount) + i
      invariant (i > 0 ==> lbSize <= |dev.flat|) && AmpleClear(dev.Limit(), lbSize, first, i)
    {
      var wrote := dev.TryWrite(Zeros(lbSize), BlockAt(lbSize, first, i));
      if !wrote {
        return false;
      }
      i := i + 1;
    }
    ok := true;
  }

  lemma FivePatches(flat: seq<Byte>, at: nat, p: Part)
    requires 0 <= p.kind < 256 && at + 16 <= |flat| && flat[at] == 0
    ensures
      var a := Patch(flat, at + 4, [p.kind]);
      var b := Patch(a, at + 8, LittleEndian(p.start % TWO32, 4));
      var c := Patch(b, at + 12, LittleEndian(SectorCount(p) % TWO32, 4));
      var d := Patch(c, at + 1, LbaToChs(p.start));
      Patch(d, at + 5, LbaToChs(p.end)) == Patch(flat, at, MbrEntry(p))
  {
    hide LbaToChs, LittleEndian, SectorCount;
  }

  /** The five writes of one MBR entry, in the order of the source. */
  method WriteEntry(dev: Device, at: nat, p: Part) returns (ok: bool)
    requires dev.Installing() && 0 <= p.kind < 256 && at < 512
    requires at + 16 <= |dev.flat| && dev.flat[at] == 0
    modifies dev`disk, dev`dirty, dev`clock, dev`cachedBlock, dev`failed, dev`uninstallCount, dev`flat, dev`torn
    modifies dev.cache, dev.uninstallData
    ensures ok ==> dev.Installing() && dev.flat == Patch(old(dev.flat), at, MbrEntry(p))
    ensures ok ==> dev.uninstallCount == old(dev.uninstallCount) + 5
    ensures !ok ==> dev.uninstallCount <= old(dev.uninstallCount) + 5
    ensures !ok ==> dev.failed && dev.Stopped()
    ensures !ok && RanOff(dev) ==> dev.Limit() < at + 16
  {
    hide Device.Installing, Device.Stopped, Device.Limit, Calm, Patch, LbaToChs, LittleEndian, SectorCount, MbrEntry;
    FivePatches(dev.flat, at, p);
    ok := dev.TryWrite([p.kind], at + 4);
    if !ok { return; }
    ok := dev.TryWrite(LittleEndian(p.start % TWO32, 4), at + 8);
    if !ok { return; }
    ok := dev.TryWrite(LittleEndian(SectorCount(p) % TWO32, 4), at + 12);
    if !ok { return; }
    ok := dev.TryWrite(LbaToChs(p.start), at + 1);
    if !ok { return; }
    ok := dev.TryWrite(LbaToChs(p.end), at + 5);
  }

  lemma OneMoreEntry(flat: seq<Byte>, id: seq<Byte>, parts: seq<Part>, i: nat)
    requires |id| == 4 && ValidParts(parts) && i < |parts| && 512 <= |flat|
    ensures ValidParts(parts[..i]) && ValidParts(parts[..i + 1])
    ensures Patch(flat, DISK_ID, id + [0, 0] + Table(parts[..i]))[PARTITION_TABLE + 16 * i] == 0
    ensures Patch(Patch(flat, DISK_ID, id + [0, 0] + Table(parts[..i])), PARTITION_TABLE + 16 * i, MbrEntry(parts[i]))
         == Patch(flat, DISK_ID, id + [0, 0] + Table(parts[..i + 1]))
  {
    hide MbrEntry, Convertible;
  }

  /** The disk identifier byte by byte and the entries one by one make the block of 70 bytes. */
  method WriteMbr(dev: Device, id: seq<Byte>, parts: seq<Part>) returns (ok: bool)
    requires dev.Installing() && |id| == 4 && ValidParts(parts)
    requires 512 <= |dev.flat| && forall p :: 0 <= p < 512 ==> dev.flat[p] == 0
    modifies dev`disk, dev`dirty, dev`clock, dev`cachedBlock, dev`failed, dev`uninstallCount, dev`flat, dev`torn
    modifies dev.cache, dev.uninstallData
    ensures ok ==> dev.Installing() && dev.flat == Patch(old(dev.flat), DISK_ID, id + [0, 0] + Table(parts))
    ensures ok ==> dev.uninstallCount == old(dev.uninstallCount) + 4 + 5 * |parts|
    ensures !ok ==> dev.uninstallCount <= old(dev.uninstallCount) + 24
    ensures !ok ==> dev.failed && dev.Stopped()
    ensures !ok && RanOff(dev) ==> dev.Limit() < 512
  {
    hide Device.Installing, Device.Stopped, Device.Limit, Calm, MbrEntry, Convertible;
    ghost var flat := dev.flat;
    var i := 0;
    while i < 4
      invariant i <= 4 && dev.Installing() && dev.flat == Patch(flat, DISK_ID, id[..i])
      invariant dev.uninstallCount == old(dev.uninstallCount) + i
    {
      assert id[..i + 1][..i] == id[..i] && id[..i + 1][i..] == [id[i]];
      PatchSplit(flat, DISK_ID, id[..i + 1], i);
      ok := dev.TryWrite([id[i]], DISK_ID + i);
      if !ok { return; }
      i := i + 1;
    }
    assert dev.flat == Patch(flat, DISK_ID, id + [0, 0] + Table(parts[..0]));
    i := 0;
    while i < |parts|
      invariant i <= |parts| && dev.Installing() && ValidParts(parts[..i])
      invariant dev.flat == Patch(flat, DISK_ID, id + [0, 0] + Table(parts[..i]))
      invariant dev.uninstallCount == old(dev.uninstallCount) + 4 + 5 * i
    {
      OneMoreEntry(flat, id, parts, i);
      ok := WriteEntry(dev, PARTITION_TABLE + 16 * i, parts[i]);
      if !ok { return; }
      i := i + 1;
    }
    assert parts[..i] == parts;
    ok := true;
  }

  /** GPT to MBR conversion is all or nothing, and happens exactly for an ISO image whose GPT
      fits an MBR. */
  method Convert(dev: Device, g: Gpt, id: seq<Byte>) returns (ok: bool, converted: bool)
    requires dev.Installing() && g.Valid() && |id| == 4
    modifies dev`disk, dev`dirty, dev`clock, dev`cachedBlock, dev`failed, dev`uninstallCount, dev`flat, dev`torn
    modifies dev.cache, dev.uninstallData
    ensures !ok ==> dev.failed && dev.Stopped()
    ensures ok ==> dev.Installing() && 32774 <= |dev.flat|
    ensures ok ==> (converted <==> Wanted(old(dev.flat), g))
    ensures ok && !converted ==> dev.flat == old(dev.flat) && dev.uninstallCount == old(dev.uninstallCount)
    ensures ok && converted ==>
      var parts := Gathered(old(dev.flat), g.entryLba * g.lbSize, g.entrySize, g.entryCount);
      ValidParts(parts) && dev.flat == Converted(old(dev.flat), g, id, parts)
    ensures dev.uninstallCount <= old(dev.uninstallCount) + 91
    ensures if ok then AmpleConvert(dev.Limit(), old(dev.flat), g)
      else RanOff(dev) ==> !AmpleConvert(dev.Limit(), old(dev.flat), g)
  {
    hide Device.Installing, Device.Stopped, Device.Limit, Fits, Gathered, Cleared, Convertible, AmpleGather, Calm;
    ghost var flat := dev.flat;
    var got, iso := dev.TryRead(32769, 5);
    if !got {
      return false, false;
    }
    if iso != CD001 || g.entryLba * g.lbSize >= TWO64 {
      return true, false;
    }
    var gathered, fits, parts := Gather(dev, g.entryLba * g.lbSize, g.entrySize, g.entryCount);
    if !gathered {
      return false, false;
    }
    if !fits {
      return true, false;
    }
    FittingPartsAreValid(flat, g.entryLba * g.lbSize, g.entrySize, g.entryCount);
    ok := Clear(dev, g.lbSize, 0, 34);
    if !ok {
      return false, false;
    }
    if g.alternate >= 32 {
      ok := Clear(dev, g.lbSize, g.alternate - 32, 33);
      if !ok {
        return false, false;
      }
    }
    forall p | 0 <= p < 512 ensures dev.flat[p] == 0 {
      WithoutGptZeroesSector(flat, g, p);
    }
    assert BlockAt(g.lbSize, 0, 0) + g.lbSize <= dev.Limit();
    ok := WriteMbr(dev, id, parts);
    converted := true;
  }

  predicate IsIso(flat: seq<Byte>) { 32774 <= |flat| && flat[32769..32774] == CD001 }

  /** When a conversion takes place. */
  predicate Wanted(flat: seq<Byte>, g: Gpt) {
    && IsIso(flat) && g.entryLba * g.lbSize < TWO64
    && Fits(flat, g.entryLba * g.lbSize, g.entrySize, g.entryCount)
  }

  /** Transfers below `limit` suffice for deciding on a conversion and for doing it. */
  ghost predicate AmpleConvert(limit: nat, flat: seq<Byte>, g: Gpt) {
    && 32774 <= limit
    && (IsIso(flat) && g.entryLba * g.lbSize < TWO64 ==>
          AmpleGather(limit, flat, g.entryLba * g.lbSize, g.entrySize, g.entryCount))
    && (Wanted(flat, g) ==>
          && AmpleClear(limit, g.lbSize, 0, 34)
          && (g.alternate >= 32 ==> AmpleClear(limit, g.lbSize, g.alternate - 32, 33)))
  }

  lemma FittingPartsAreValid(flat: seq<Byte>, base: nat, size: nat, n: nat)
    requires Fits(flat, base, size, n)
    ensures ValidParts(Gathered(flat, base, size, n))
  {
    GatheredKinds(flat, base, size, n);
  }

  lemma {:induction false} GatheredKinds(flat: seq<Byte>, base: nat, size: nat, n: nat)
    requires EntriesInDisk(flat, base, size, n)
    ensures forall i :: 0 <= i < |Gathered(flat, base, size, n)| ==> -1 <= Gathered(flat, base, size, n)[i].kind < 256
  {
    if n > 0 {
      GatheredGrows(flat, base, size, n - 1, n);
      GatheredKinds(flat, base, size, n - 1);
    }
  }

  // ------------------------------------------------------------------ safety checks

  /** The offsets in a volume where a file-system signature may be wiped. */
  predicate IsHint(o: int) { 3 <= o < 8 || 54 <= o < 59 || 82 <= o < 87 || 1080 <= o < 1082 }

  predicate Matches(flat: seq<Byte>, p: nat, sign: seq<Byte>) {
    p + |sign| <= |flat| && flat[p..p + |sign|] == sign
  }

  /** No file system is recognised at `at`. */
  predicate NoFilesystem(flat: seq<Byte>, at: nat) {
    && !Matches(flat, at + 3, NTFS) && !Matches(flat, at + 54, FAT) && !Matches(flat, at + 82, FAT)
    && !Matches(flat, at + 3, FAT32) && !Matches(flat, at + 1080, EXT)
  }

  ghost predicate SameOutsideHints(after: seq<Byte>, before: seq<Byte>, at: nat) {
    |after| == |before| && forall p {:trigger after[p]} :: 0 <= p < |after| && !IsHint(p - at) ==> after[p] == before[p]
  }

  /** A signature that matches is overwritten with `n` zeros. */
  function Wipe(flat: seq<Byte>, p: nat, sign: seq<Byte>, n: nat): (r: seq<Byte>)
    ensures |r| == |flat|
  {
    if Matches(flat, p, sign) then Patch(flat, p, Zeros(n)) else flat
  }

  function WipeAll(flat: seq<Byte>, at: nat): (r: seq<Byte>)
    ensures |r| == |flat|
  {
    var ntfs := Wipe(flat, at + 3, NTFS, 4);
    var fat := Wipe(ntfs, at + 54, FAT, 5);
    var fat32 := Wipe(fat, at + 82, FAT, 5);
    Wipe(Wipe(fat32, at + 3, FAT32, 5), at + 1080, EXT, 2)
  }

  /** Wiping `sign` removes it and brings no other signature up. */
  lemma WipeRemoves(flat: seq<Byte>, p: nat, sign: seq<Byte>, n: nat, q: nat, other: seq<Byte>)
    requires 0 < |sign| <= n && sign[0] != 0 && forall i :: 0 <= i < |other| ==> other[i] != 0
    requires other != []
    ensures !Matches(Wipe(flat, p, sign, n), p, sign)
    ensures !Matches(flat, q, other) ==> !Matches(Wipe(flat, p, sign, n), q, other)
  {
  }

  /** Forced validation leaves nothing that would be recognised and touches only signatures. */
  lemma WipeAllClears(flat: seq<Byte>, at: nat)
    ensures NoFilesystem(WipeAll(flat, at), at) && SameOutsideHints(WipeAll(flat, at), flat, at)
  {
    hide Matches, Wipe, Zeros;
    var a := Wipe(flat, at + 3, NTFS, 4);
    var b := Wipe(a, at + 54, FAT, 5);
    var c := Wipe(b, at + 82, FAT, 5);
    var d := Wipe(c, at + 3, FAT32, 5);
    WipeRemoves(flat, at + 3, NTFS, 4, 0, NTFS);
    WipeRemoves(a, at + 54, FAT, 5, at + 3, NTFS);
    WipeRemoves(b, at + 82, FAT, 5, at + 3, NTFS);
    WipeRemoves(b, at + 82, FAT, 5, at + 54, FAT);
    WipeRemoves(c, at + 3, FAT32, 5, at + 3, NTFS);
    WipeRemoves(c, at + 3, FAT32, 5, at + 54, FAT);
    WipeRemoves(c, at + 3, FAT32, 5, at + 82, FAT);
    WipeRemoves(d, at + 1080, EXT, 2, at + 3, NTFS);
    WipeRemoves(d, at + 1080, EXT, 2, at + 54, FAT);
    WipeRemoves(d, at + 1080, EXT, 2, at + 82, FAT);
    WipeRemoves(d, at + 1080, EXT, 2, at + 3, FAT32);
    WipeStaysInside(flat, at, 3, NTFS, 4);
    WipeStaysInside(a, at, 54, FAT, 5);
    WipeStaysInside(b, at, 82, FAT, 5);
    WipeStaysInside(c, at, 3, FAT32, 5);
    WipeStaysInside(d, at, 1080, EXT, 2);
  }

  lemma WipeStaysInside(flat: seq<Byte>, at: nat, o: nat, sign: seq<Byte>, n: nat)
    requires forall k :: o <= k < o + n ==> IsHint(k)
    ensures SameOutsideHints(Wipe(flat, at + o, sign, n), flat, at)
  {
  }

  /** One signature test: reads `|sign|` bytes and, when forced, wipes `wipe` bytes of a match. */
  method TestSign(dev: Device, p: nat, sign: seq<Byte>, wipe: nat, force: bool) returns (ok: bool, matched: bool)
    requires dev.Installing() && p < TWO64 && 0 < |sign| <= wipe
    modifies dev`disk, dev`dirty, dev`clock, dev`cachedBlock, dev`failed, dev`uninstallCount, dev`flat, dev`torn
    modifies dev.cache, dev.uninstallData
    ensures !ok ==> dev.failed && dev.Stopped()
    ensures (ok ==> p + |sign| <= dev.Limit()) && (!ok && RanOff(dev) ==> dev.Limit() < p + wipe)
    ensures ok ==> dev.Installing() && p + |sign| <= |dev.flat| && (matched <==> Matches(old(dev.flat), p, sign))
    ensures ok ==> dev.flat == if force then Wipe(old(dev.flat), p, sign, wipe) else old(dev.flat)
    ensures ok ==> dev.uninstallCount == old(dev.uninstallCount) + if force && matched then 1 else 0
    ensures !ok ==> dev.uninstallCount <= old(dev.uninstallCount) + 1
  {
    hide Device.Installing, Device.Stopped, Device.Limit, Calm, Patch;
    var got, bytes := dev.TryRead(p, |sign|);
    if !got {
      return false, false;
    }
    matched := bytes == sign;
    if matched && force {
      ok := dev.TryWrite(Zeros(wipe), p);
      return;
    }
    ok := true;
  }

  /** `validate_or_force`: refuses exactly a recognised file system, or wipes every signature. */
  method ValidateOrForce(dev: Device, at: nat, force: bool) returns (ok: bool, valid: bool)
    requires dev.Installing() && at < TWO64 && at % 512 == 0
    modifies dev`disk, dev`dirty, dev`clock, dev`cachedBlock, dev`failed, dev`uninstallCount, dev`flat, dev`torn
    modifies dev.cache, dev.uninstallData
    ensures !ok ==> dev.failed && dev.Stopped()
    ensures (ok && valid ==> at + 1082 <= dev.Limit()) && (!ok && RanOff(dev) ==> dev.Limit() < at + 1082)
    ensures (ok ==> dev.Installing()) && dev.uninstallCount <= old(dev.uninstallCount) + 5
    ensures ok ==> dev.flat == if force then WipeAll(old(dev.flat), at) else old(dev.flat)
    ensures ok && !force ==> dev.uninstallCount == old(dev.uninstallCount)
    ensures ok ==> (valid <==> force || NoFilesystem(old(dev.flat), at))
  {
    hide Device.Installing, Device.Stopped, Device.Limit, Calm, Wipe, Matches;
    var matched;
    DiskIsBounded(dev);
    ok, matched := TestSign(dev, at + 3, NTFS, 4, force);
    if !ok || (matched && !force) { return ok, false; }
    ok, matched := TestSign(dev, at + 54, FAT, 5, force);
    if !ok || (matched && !force) { return ok, false; }
    ok, matched := TestSign(dev, at + 82, FAT, 5, force);
    if !ok || (matched && !force) { return ok, false; }
    ok, matched := TestSign(dev, at + 3, FAT32, 5, force);
    if !ok || (matched && !force) { return ok, false; }
    ok, matched := TestSign(dev, at + 1080, EXT, 2, force);
    if !ok || (matched && !force) { return ok, false; }
    valid := true;
  }

  /** A used MBR entry starts at sector 63 or later. */
  predicate StartsHigh(flat: seq<Byte>, entry: nat)
    requires entry + 12 <= |flat|
  {
    flat[entry + 4] != 0 ==> U32At(flat, entry + 8) >= 63
  }

  predicate IsEntry(entry: nat) { entry == 446 || entry == 462 || entry == 478 || entry == 494 }

  ghost predicate SameExcept(after: seq<Byte>, before: seq<Byte>, q: nat) {
    |after| == |before| && forall p {:trigger after[p]} :: 0 <= p < |after| && p != q ==> after[p] == before[p]
  }

  ghost predicate StartsLow(flat: seq<Byte>, entry: nat) { entry + 12 <= |flat| && !StartsHigh(flat, entry) }

  predicate SaneStatus(flat: seq<Byte>, entry: nat)
    requires entry < |flat|
  {
    flat[entry] == 0 || flat[entry] == 0x80
  }

  lemma StartOf(before: seq<Byte>, after: seq<Byte>, entry: nat, start: seq<Byte>)
    requires SameExcept(after, before, entry) && entry + 12 <= |after| && start == after[entry + 8..entry + 12]
    ensures U32At(start, 0) == U32At(before, entry + 8) && before[entry + 4] == after[entry + 4]
  {
    assert start[0..4] == start == before[entry + 8..entry + 12];
  }

  /** The status byte of an MBR entry; a bad one is repaired only when forced. */
  method CheckStatus(dev: Device, entry: nat, force: bool) returns (ok: bool, sane: bool, active: bool)
    requires dev.Installing() && entry < 512
    modifies dev`disk, dev`dirty, dev`clock, dev`cachedBlock, dev`failed, dev`uninstallCount, dev`flat, dev`torn
    modifies dev.cache, dev.uninstallData
    ensures !ok ==> dev.failed && dev.Stopped()
    ensures !ok && RanOff(dev) ==> dev.Limit() < 512
    ensures (ok ==> dev.Installing()) && dev.uninstallCount <= old(dev.uninstallCount) + 1
    ensures ok ==> entry < |dev.flat| && SameExcept(dev.flat, old(dev.flat), entry)
    ensures ok && !force ==> dev.flat == old(dev.flat) && dev.uninstallCount == old(dev.uninstallCount)
    ensures ok ==> (sane <==> force || SaneStatus(old(dev.flat), entry)) && (active <==> dev.flat[entry] >= 0x80)
  {
    hide Device.Installing, Device.Stopped, Device.Limit, Calm;
    sane, active := true, false;
    var status;
    ok, status := dev.TryRead(entry, 1);
    if !ok { return; }
    var hint := status[0];
    assert hint == dev.flat[entry];
    if hint != 0 && hint != 0x80 {
      if !force {
        sane := false;
      } else {
        hint := if hint >= 0x80 then 0x80 else 0;
        ok := dev.TryWrite([hint], entry);
        if !ok { return; }
      }
    }
    active := hint >= 0x80;
  }

  /** The checks on one MBR entry; a bad status byte is repaired only when forced. */
  method CheckEntry(dev: Device, entry: nat, force: bool) returns (ok: bool, sane: bool, active: bool)
    requires dev.Installing() && IsEntry(entry)
    modifies dev`disk, dev`dirty, dev`clock, dev`cachedBlock, dev`failed, dev`uninstallCount, dev`flat, dev`torn
    modifies dev.cache, dev.uninstallData
    ensures !ok ==> dev.Stopped() && (!dev.failed ==> StartsLow(old(dev.flat), entry))
    ensures !ok && RanOff(dev) ==> dev.Limit() < 512
    ensures (ok ==> dev.Installing()) && dev.uninstallCount <= old(dev.uninstallCount) + 1
    ensures ok ==> entry + 12 <= |dev.flat| && StartsHigh(dev.flat, entry) && SameExcept(dev.flat, old(dev.flat), entry)
    ensures ok && !force ==> dev.flat == old(dev.flat) && dev.uninstallCount == old(dev.uninstallCount)
    ensures ok ==> (sane <==> force || SaneStatus(old(dev.flat), entry))
    ensures ok ==> (active <==> dev.flat[entry] >= 0x80)
  {
    hide Device.Installing, Device.Stopped, Device.Limit, Calm, FromLittleEndian;
    ghost var before := dev.flat;
    ok, sane, active := CheckStatus(dev, entry, force);
    if !ok { return; }
    var got, kind, start;
    got, kind := dev.TryRead(entry + 4, 1);
    if !got { return false, false, false; }
    if kind[0] != 0 {
      got, start := dev.TryRead(entry + 8, 4);
      if !got { return false, false, false; }
      if U32At(start, 0) < 63 {
        StartOf(before, dev.flat, entry, start);
        InstallingIsStopped(dev);
        return false, false, false;
      }
      assert start[0..4] == start;
    } else {
      DiskIsBounded(dev);
    }
    ok := true;
  }

  /** After the first `k` entries have been checked only their status bytes can have changed. */
  ghost predicate Passed(now: seq<Byte>, before: seq<Byte>, k: nat) {
    && 512 <= |now| == |before|
    && (forall p {:trigger now[p]} :: 0 <= p < |now| && !(IsEntry(p) && p < 446 + 16 * k) ==> now[p] == before[p])
    && (forall e: nat :: IsEntry(e) && e < 446 + 16 * k ==> StartsHigh(now, e))
  }

  lemma PassedStep(after: seq<Byte>, now: seq<Byte>, before: seq<Byte>, k: nat)
    requires k < 4 && Passed(now, before, k) && SameExcept(after, now, 446 + 16 * k) && StartsHigh(after, 446 + 16 * k)
    ensures Passed(after, before, k + 1)
  {
    forall e: nat | IsEntry(e) && e < 446 + 16 * (k + 1)
      ensures StartsHigh(after, e)
    {
      if e < 446 + 16 * k {
        StartKept(after, now, e);
      }
    }
  }

  lemma LowBefore(now: seq<Byte>, before: seq<Byte>, k: nat, e: nat)
    requires Passed(now, before, k) && IsEntry(e)
    ensures StartsLow(now, e) ==> StartsLow(before, e)
  {
    if StartsHigh(before, e) {
      StartKept(now, before, e);
    }
  }

  /** The four entries in turn. */
  method CheckEntries(dev: Device, force: bool) returns (ok: bool, sane: bool, active: bool)
    requires dev.Installing()
    modifies dev`disk, dev`dirty, dev`clock, dev`cachedBlock, dev`failed, dev`uninstallCount, dev`flat, dev`torn
    modifies dev.cache, dev.uninstallData
    ensures !ok ==> dev.Stopped() && (!dev.failed ==> exists e: nat :: IsEntry(e) && StartsLow(old(dev.flat), e))
    ensures !ok && RanOff(dev) ==> dev.Limit() < 512
    ensures (ok ==> dev.Installing()) && dev.uninstallCount <= old(dev.uninstallCount) + 4
    ensures ok ==> Passed(dev.flat, old(dev.flat), 4)
    ensures ok && !force ==> dev.flat == old(dev.flat)
    ensures ok ==> (sane <==> force || forall e: nat :: IsEntry(e) ==> SaneStatus(old(dev.flat), e))
    ensures ok ==> (active <==> exists e: nat :: IsEntry(e) && dev.flat[e] >= 0x80)
  {
    hide Device.Installing, Device.Stopped, Device.Limit, Calm, StartsHigh, Passed, U32At, SaneStatus;
    DiskIsBounded(dev);
    ghost var d0 := dev.flat;
    NothingPassed(d0);
    var s1, a1, s2, a2, s3, a3, s4, a4;
    ok, s1, a1 := CheckEntry(dev, 446, force);
    if !ok { return false, false, false; }
    ghost var d1 := dev.flat;
    PassedStep(d1, d0, d0, 0);
    ok, s2, a2 := CheckEntry(dev, 462, force);
    LowBefore(d1, d0, 1, 462);
    if !ok { return false, false, false; }
    ghost var d2 := dev.flat;
    PassedStep(d2, d1, d0, 1);
    ok, s3, a3 := CheckEntry(dev, 478, force);
    LowBefore(d2, d0, 2, 478);
    if !ok { return false, false, false; }
    ghost var d3 := dev.flat;
    PassedStep(d3, d2, d0, 2);
    ok, s4, a4 := CheckEntry(dev, 494, force);
    LowBefore(d3, d0, 3, 494);
    if !ok { return false, false, false; }
    PassedStep(dev.flat, d3, d0, 3);
    StatusKept(d1, d0, 1, 462);
    StatusKept(d2, d0, 2, 478);
    StatusKept(d3, d0, 3, 494);
    sane := s1 && s2 && s3 && s4;
    active := a1 || a2 || a3 || a4;
    assert IsEntry(446) && IsEntry(462) && IsEntry(478) && IsEntry(494);
  }

  lemma NothingPassed(flat: seq<Byte>)
    requires 512 <= |flat|
    ensures Passed(flat, flat, 0)
  {
  }

  lemma StatusKept(now: seq<Byte>, before: seq<Byte>, k: nat, e: nat)
    requires Passed(now, before, k) && IsEntry(e) && e >= 446 + 16 * k
    ensures SaneStatus(now, e) <==> SaneStatus(before, e)
  {
  }

  /** An MBR that can be installed to: no used partition starts low and, unless forced, all status
      bytes make sense and there is no file system on the whole disk. */
  ghost predicate GoodMbr(flat: seq<Byte>, force: bool) {
    && 512 <= |flat|
    && (forall e: nat :: IsEntry(e) ==> StartsHigh(flat, e))
    && (force || (NoFilesystem(flat, 0) && forall e: nat :: IsEntry(e) ==> SaneStatus(flat, e)))
  }

  /** Only status bytes and signatures of a volume at `at` are ever repaired. */
  ghost predicate Repaired(after: seq<Byte>, before: seq<Byte>, at: nat) {
    && |after| == |before|
    && forall p {:trigger after[p]} :: 0 <= p < |after| && !IsEntry(p) && !IsHint(p - at) ==> after[p] == before[p]
  }

  lemma RepairedMbr(after: seq<Byte>, wiped: seq<Byte>, now: seq<Byte>, before: seq<Byte>)
    requires Passed(now, before, 4) && SameOutsideHints(wiped, now, 0) && SameExcept(after, wiped, 446)
    ensures Repaired(after, before, 0) && forall e: nat :: IsEntry(e) ==> StartsHigh(after, e) && StartsHigh(before, e)
    ensures forall e: nat :: IsEntry(e) && e != 446 ==> after[e] == now[e]
  {
    forall e: nat | IsEntry(e)
      ensures StartsHigh(after, e) && StartsHigh(before, e)
    {
      StartKept(after, now, e);
      StartKept(before, now, e);
    }
  }

  /** The MBR part of the checks, which accepts exactly the good ones; makes partition 1 active
      when none is. */
  method CheckMbr(dev: Device, force: bool) returns (ok: bool)
    requires dev.Installing()
    modifies dev`disk, dev`dirty, dev`clock, dev`cachedBlock, dev`failed, dev`uninstallCount, dev`flat, dev`torn
    modifies dev.cache, dev.uninstallData
    ensures !ok ==> dev.Stopped() && (!dev.failed ==> !GoodMbr(old(dev.flat), force))
    ensures if ok then 1082 <= dev.Limit() else RanOff(dev) ==> dev.Limit() < 1082
    ensures (ok ==> dev.Installing()) && dev.uninstallCount <= old(dev.uninstallCount) + 10
    ensures ok ==> GoodMbr(old(dev.flat), force) && Repaired(dev.flat, old(dev.flat), 0)
    ensures ok ==> 512 <= |dev.flat| && forall e: nat :: IsEntry(e) ==> StartsHigh(dev.flat, e)
    ensures ok ==> exists e: nat :: IsEntry(e) && dev.flat[e] >= 0x80
    ensures ok && !force ==> SameExcept(dev.flat, old(dev.flat), 446)
  {
    hide Device.Installing, Device.Stopped, Device.Limit, Calm, StartsHigh, U32At, SaneStatus, NoFilesystem;
    hide WipeAll, Passed, Repaired, SameOutsideHints;
    DiskIsBounded(dev);
    ghost var d0 := dev.flat;
    var valid, active;
    ok, valid, active := CheckEntries(dev, force);
    if !ok { return; }
    ghost var d4 := dev.flat;
    if valid {
      ok, valid := ValidateOrForce(dev, 0, force);
      if !ok { return; }
      WipeAllClears(d4, 0);
      NothingWiped(d4);
    }
    if !valid {
      InstallingIsStopped(dev);
      return false;
    }
    ghost var d5 := dev.flat;
    if !active {
      ok := dev.TryWrite([0x80], 446);
      if !ok { return; }
    }
    RepairedMbr(dev.flat, d5, d4, d0);
    ActiveEntry(dev.flat, d5, d4, active);
  }

  lemma NothingWiped(flat: seq<Byte>)
    ensures SameOutsideHints(flat, flat, 0)
  {
  }

  lemma ActiveEntry(after: seq<Byte>, wiped: seq<Byte>, now: seq<Byte>, active: bool)
    requires 512 <= |after| == |wiped| == |now| && SameOutsideHints(wiped, now, 0)
    requires active <==> exists e: nat :: IsEntry(e) && now[e] >= 0x80
    requires after == if active then wiped else Patch(wiped, 446, [0x80])
    ensures exists e: nat :: IsEntry(e) && after[e] >= 0x80
  {
    if active {
      var e: nat :| IsEntry(e) && now[e] >= 0x80;
      assert IsEntry(e) && after[e] >= 0x80;
    } else {
      assert IsEntry(446) && after[446] >= 0x80;
    }
  }

  lemma StartKept(after: seq<Byte>, before: seq<Byte>, e: nat)
    requires IsEntry(e) && 512 <= |after| == |before| && StartsHigh(before, e)
    requires forall p :: e + 4 <= p < e + 12 ==> after[p] == before[p]
    ensures StartsHigh(after, e)
  {
    assert after[e + 8..e + 12] == before[e + 8..e + 12];
  }

  // ------------------------------------------------------------------ where stage 2 goes

  datatype Choice = Autodetect | Numbered(number: nat)

  function EntryOffset(g: Gpt, k: nat): (r: nat) {
    MulNatural(g.entryLba, g.lbSize);
    MulNatural(k, g.entrySize);
    g.entryLba * g.lbSize + k * g.entrySize
  }

  predicate EntryThere(flat: seq<Byte>, g: Gpt, k: nat) { k < g.entryCount && EntryOffset(g, k) + 128 <= |flat| }

  function EntryOf(flat: seq<Byte>, g: Gpt, k: nat): GptEntry
    requires EntryThere(flat, g, k)
  {
    flat[EntryOffset(g, k)..EntryOffset(g, k) + 128]
  }

  predicate BootEntry(flat: seq<Byte>, g: Gpt, k: nat) {
    EntryThere(flat, g, k) && EntryOf(flat, g, k)[..16] == BIOS_BOOT
  }

  /** Entry `k` is the one to install to: the numbered one, or the first of BIOS boot type. */
  ghost predicate Chosen(flat: seq<Byte>, g: Gpt, choice: Choice, force: bool, k: nat) {
    && EntryThere(flat, g, k)
    && match choice
       case Numbered(number) => number == k + 1 && Used(EntryOf(flat, g, k)) && (force || BootEntry(flat, g, k))
       case Autodetect => BootEntry(flat, g, k) && forall j: nat :: j < k ==> !BootEntry(flat, g, j)
  }

  /** The entries that the choice looks at. */
  ghost predicate Looks(flat: seq<Byte>, g: Gpt, choice: Choice, i: nat) {
    && i < g.entryCount && EntryOffset(g, i) < TWO64
    && match choice
       case Numbered(number) => number == i + 1
       case Autodetect => forall j: nat :: j < i ==> !BootEntry(flat, g, j)
  }

  /** Transfers below `limit` suffice for choosing. */
  ghost predicate AmpleChoice(limit: nat, flat: seq<Byte>, g: Gpt, choice: Choice) {
    forall i: nat :: Looks(flat, g, choice, i) ==> EntryOffset(g, i) + 128 <= limit
  }

  /** Transfers below `limit` reach `n` bytes behind the place of stage 2. */
  ghost predicate RoomBehind(limit: nat, flat: seq<Byte>, g: Gpt, choice: Choice, force: bool, n: nat) {
    forall k: nat :: Acceptable(flat, g, choice, force, k) ==> Stage2Of(g, EntryOf(flat, g, k)) + n <= limit
  }

  /** The 64-bit tests that a partition has room for stage 2. */
  predicate Roomy(g: Gpt, e: GptEntry) {
    var p := PartOf(e);
    && p.start <= p.end && 32768 <= SectorCount(p) * g.lbSize < TWO64
    && p.start * g.lbSize < TWO64
  }

  /** The GPT installs that go ahead. */
  ghost predicate Acceptable(flat: seq<Byte>, g: Gpt, choice: Choice, force: bool, k: nat) {
    && g.entryLba * g.lbSize < TWO64
    && Chosen(flat, g, choice, force, k)
    && var e := EntryOf(flat, g, k);
       Roomy(g, e) && (force || NoFilesystem(flat, Stage2Of(g, e)))
  }

  function Stage2Of(g: Gpt, e: GptEntry): (r: nat) {
    MulNatural(PartOf(e).start, g.lbSize);
    PartOf(e).start * g.lbSize
  }

  /** Stage 2 goes to the start of a partition that holds at least 32 KiB. */
  ghost predicate HoldsStage2(g: Gpt, e: GptEntry, stage2: nat) {
    var p := PartOf(e);
    && stage2 == p.start * g.lbSize < TWO64
    && p.start <= p.end && stage2 + 32768 <= (p.end + 1) * g.lbSize
  }

  /** Entries lie in the order of their numbers, so none follows one beyond the disk. */
  lemma NoneBeyond(flat: seq<Byte>, g: Gpt, i: nat, k: nat)
    requires i <= k && EntryOffset(g, i) + 128 > |flat|
    ensures !EntryThere(flat, g, k)
  {
  }

  method ReadGptEntry(dev: Device, g: Gpt, k: nat) returns (ok: bool, e: seq<Byte>)
    requires dev.Installing() && g.Valid() && k < g.entryCount && g.entryLba * g.lbSize < TWO64
    modifies dev`disk, dev`dirty, dev`clock, dev`cachedBlock, dev`failed, dev.cache
    ensures ok ==> dev.Installing() && EntryThere(dev.flat, g, k) && e == EntryOf(dev.flat, g, k)
    ensures !ok ==> dev.Stopped() && (!dev.failed ==> forall j: nat :: k <= j ==> !EntryThere(dev.flat, g, j))
    ensures ok ==> EntryOffset(g, k) + 128 <= dev.Limit()
    ensures !ok && RanOff(dev) ==> EntryOffset(g, k) < TWO64 && dev.Limit() < EntryOffset(g, k) + 128
  {
    hide Device.Installing, Device.Stopped, Device.Limit, Calm;
    var at := EntryOffset(g, k);
    e := [];
    if at >= TWO64 {
      DiskIsBounded(dev);
      forall j: nat | k <= j ensures !EntryThere(dev.flat, g, j) {
        NoneBeyond(dev.flat, g, k, j);
      }
      InstallingIsStopped(dev);
      return false, e;
    }
    ok, e := dev.TryRead(at, 128);
  }

  method ChooseNumbered(dev: Device, g: Gpt, number: nat, force: bool)
    returns (ok: bool, e: seq<Byte>, ghost k: nat)
    requires dev.Installing() && g.Valid() && g.entryLba * g.lbSize < TWO64 && number < TWO32
    modifies dev`disk, dev`dirty, dev`clock, dev`cachedBlock, dev`failed, dev.cache
    ensures ok ==> dev.Installing() && Chosen(dev.flat, g, Numbered(number), force, k) && e == EntryOf(dev.flat, g, k)
    ensures !ok ==> dev.Stopped() && (!dev.failed ==> forall j: nat :: !Chosen(dev.flat, g, Numbered(number), force, j))
    ensures if ok then AmpleChoice(dev.Limit(), dev.flat, g, Numbered(number))
      else RanOff(dev) ==> !AmpleChoice(dev.Limit(), dev.flat, g, Numbered(number))
  {
    hide Device.Installing, Device.Stopped, Device.Limit, Calm, EntryOffset, Used;
    var index := (number + TWO32 - 1) % TWO32;
    k := index;
    if index >= g.entryCount {
      InstallingIsStopped(dev);
      return false, [], k;
    }
    ok, e := ReadGptEntry(dev, g, index);
    assert !ok && EntryOffset(g, index) < TWO64 ==> Looks(dev.flat, g, Numbered(number), index);
    if ok && (!Used(e) || (!force && e[..16] != BIOS_BOOT)) {
      InstallingIsStopped(dev);
      ok := false;
    }
  }

  method Autodetected(dev: Device, g: Gpt, force: bool) returns (ok: bool, e: seq<Byte>, ghost k: nat)
    requires dev.Installing() && g.Valid() && g.entryLba * g.lbSize < TWO64
    modifies dev`disk, dev`dirty, dev`clock, dev`cachedBlock, dev`failed, dev.cache
    ensures ok ==> dev.Installing() && Chosen(dev.flat, g, Autodetect, force, k) && e == EntryOf(dev.flat, g, k)
    ensures !ok ==> dev.Stopped() && (!dev.failed ==> forall j: nat :: !Chosen(dev.flat, g, Autodetect, force, j))
    ensures if ok then AmpleChoice(dev.Limit(), dev.flat, g, Autodetect)
      else RanOff(dev) ==> !AmpleChoice(dev.Limit(), dev.flat, g, Autodetect)
  {
    hide Device.Installing, Device.Stopped, Device.Limit, Calm, EntryOffset;
    e, k := [], 0;
    var i := 0;
    while i < g.entryCount
      invariant i <= g.entryCount && dev.Installing() && forall j: nat :: j < i ==> !BootEntry(dev.flat, g, j)
      invariant forall j: nat :: j < i ==> EntryOffset(g, j) + 128 <= dev.Limit()
    {
      ok, e := ReadGptEntry(dev, g, i);
      k := i;
      assert !ok && EntryOffset(g, i) < TWO64 ==> Looks(dev.flat, g, Autodetect, i);
      if !ok || e[..16] == BIOS_BOOT {
        return;
      }
      i := i + 1;
    }
    InstallingIsStopped(dev);
    ok := false;
  }

  lemma RoomForImage(lb: nat, start: nat, end: nat)
    requires start <= end && lb > 0
    requires (end - start + 1) * lb >= 32768
    ensures start * lb + 32768 <= (end + 1) * lb
  {
  }

  lemma Stage2Fits(g: Gpt, e: GptEntry)
    requires g.Valid() && Roomy(g, e)
    ensures HoldsStage2(g, e, Stage2Of(g, e)) && Stage2Of(g, e) % 512 == 0
  {
    hide U64At, MbrType;
    var p := PartOf(e);
    FitsIn64Bits(p.start, p.end, g.lbSize);
    RoomForImage(g.lbSize, p.start, p.end);
    MultipleOf512(p.start, g.lbSize);
  }

  lemma FitsIn64Bits(start: nat, end: nat, lb: nat)
    requires start <= end < TWO64 && (end - start + 1) % TWO64 * lb > 0
    ensures (end - start + 1) % TWO64 == end - start + 1
  {
  }

  lemma MultipleOf512(start: nat, lb: nat)
    requires lb == 512 || lb == 4096
    ensures start * lb >= 0 && start * lb % 512 == 0
  {
  }

  /** Picks the GPT partition for stage 2 and checks that nothing else lives there; refuses exactly
      when there is none to accept. */
  method Locate(dev: Device, g: Gpt, choice: Choice, force: bool)
    returns (ok: bool, stage2: nat, e: seq<Byte>, ghost k: nat)
    requires dev.Installing() && g.Valid() && (choice.Numbered? ==> choice.number < TWO32)
    modifies dev`disk, dev`dirty, dev`clock, dev`cachedBlock, dev`failed, dev`uninstallCount, dev`flat, dev`torn
    modifies dev.cache, dev.uninstallData
    ensures (ok ==> dev.Installing()) && dev.uninstallCount <= old(dev.uninstallCount) + 5
    ensures ok ==> Acceptable(old(dev.flat), g, choice, force, k) && e == EntryOf(old(dev.flat), g, k)
    ensures ok ==> |e| == 128 && stage2 == Stage2Of(g, e) && HoldsStage2(g, e, stage2)
    ensures ok ==> dev.flat == if force then WipeAll(old(dev.flat), stage2) else old(dev.flat)
    ensures !ok ==> dev.Stopped() && (!dev.failed ==> forall j: nat :: !Acceptable(old(dev.flat), g, choice, force, j))
    ensures ok ==> AmpleChoice(dev.Limit(), old(dev.flat), g, choice)
    ensures ok ==> RoomBehind(dev.Limit(), old(dev.flat), g, choice, force, 1082)
    ensures !ok && RanOff(dev) ==>
      || !AmpleChoice(dev.Limit(), old(dev.flat), g, choice)
      || !RoomBehind(dev.Limit(), old(dev.flat), g, choice, force, 1082)
      || forall j: nat :: !Acceptable(old(dev.flat), g, choice, force, j)
  {
    hide Device.Installing, Device.Stopped, Device.Limit, Calm, EntryOffset, PartOf, SectorCount, NoFilesystem;
    hide HoldsStage2, BootEntry, WipeAll, Used, AmpleChoice;
    stage2, e, k := 0, [], 0;
    ghost var flat := dev.flat;
    if g.entryLba * g.lbSize >= TWO64 {
      InstallingIsStopped(dev);
      return false, stage2, e, k;
    }
    if choice.Numbered? {
      assert choice == Numbered(choice.number);
      ok, e, k := ChooseNumbered(dev, g, choice.number, force);
    } else {
      assert choice == Autodetect;
      ok, e, k := Autodetected(dev, g, force);
    }
    if !ok {
      assert dev.flat == flat;
      assert !dev.failed ==> forall j: nat :: !Chosen(flat, g, choice, force, j);
      return;
    }
    ThereIfChosen(flat, g, choice, force, k);
    OnlyTheChosen(flat, g, choice, force, k);
    if !Roomy(g, e) {
      InstallingIsStopped(dev);
      return false, stage2, e, k;
    }
    Stage2Fits(g, e);
    stage2 := Stage2Of(g, e);
    assert stage2 < TWO64 by { RoomyFits(g, e); }
    var valid;
    ok, valid := ValidateOrForce(dev, stage2, force);
    RoomForOne(dev.Limit(), flat, g, choice, force, k, 1082);
    if ok && !valid {
      InstallingIsStopped(dev);
      ok := false;
    }
  }

  lemma RoomForOne(limit: nat, flat: seq<Byte>, g: Gpt, choice: Choice, force: bool, k: nat, n: nat)
    requires Chosen(flat, g, choice, force, k)
    ensures Stage2Of(g, EntryOf(flat, g, k)) + n <= limit ==> RoomBehind(limit, flat, g, choice, force, n)
    ensures limit < Stage2Of(g, EntryOf(flat, g, k)) + n && Acceptable(flat, g, choice, force, k) ==>
      !RoomBehind(limit, flat, g, choice, force, n)
  {
    hide BootEntry, NoFilesystem, Used, Roomy, Stage2Of;
    OnlyTheChosen(flat, g, choice, force, k);
  }

  lemma RoomyFits(g: Gpt, e: GptEntry)
    requires Roomy(g, e)
    ensures Stage2Of(g, e) < TWO64
  {
  }

  lemma ThereIfChosen(flat: seq<Byte>, g: Gpt, choice: Choice, force: bool, k: nat)
    requires Chosen(flat, g, choice, force, k)
    ensures EntryThere(flat, g, k)
  {
  }

  lemma OnlyTheChosen(flat: seq<Byte>, g: Gpt, choice: Choice, force: bool, k: nat)
    requires Chosen(flat, g, choice, force, k)
    ensures forall j: nat :: Acceptable(flat, g, choice, force, j) ==> j == k
  {
  }

  // ------------------------------------------------------------------ what the definitions mean on disk

  function Ascii(s: string): seq<Byte>
    requires forall i :: 0 <= i < |s| ==> s[i] as int < 128
  {
    seq(|s|, i requires 0 <= i < |s| => s[i] as int)
  }

  /** The signatures are the texts that the source compares with. */
  lemma Signatures()
    ensures EFI_PART == Ascii("EFI PART") && CD001 == Ascii("CD001") && BIOS_BOOT == Ascii("Hah!IdontNeedEFI")
    ensures NTFS == Ascii("NTFS") && FAT == Ascii("FAT") && FAT32 == Ascii("FAT32") && EXT == LittleEndian(0xef53, 2)
  {
    hide LittleEndian;
    assert LittleEndian(0xef53, 2) == [0x53, 0xef] by {
      TwoBytes();
    }
  }

  lemma TwoBytes()
    ensures LittleEndian(0xef53, 2) == [0x53, 0xef]
  {
    assert LittleEndian(0xef, 1) == [0xef] + LittleEndian(0, 0);
  }

  /** A GPT header as section 5.3.2 of the UEFI Specification lays it out: 24 bytes that begin with the
      signature, its own block, the backup's block, 32 bytes, the block, the number and the size of the
      entries. */
  lemma HeaderLayout(flat: seq<Byte>, at: nat, lbSize: nat, head: seq<Byte>, alternate: nat, middle: seq<Byte>,
                     entryLba: nat, count: nat, size: nat, rest: seq<Byte>)
    requires at + 96 <= |flat| && |head| == 32 && |middle| == 32 && |rest| == 8
    requires alternate < TWO64 && entryLba < TWO64 && count < TWO32 && size < TWO32
    requires flat[at..at + 96] ==
      head + LittleEndian(alternate, 8) + middle + LittleEndian(entryLba, 8) + LittleEndian(count, 4)
        + LittleEndian(size, 4) + rest
    ensures HeaderAt(flat, at, lbSize) == Gpt(lbSize, alternate, entryLba, count, size)
    ensures Signed(flat, at) <==> head[..8] == Ascii("EFI PART")
  {
    hide LittleEndian, U64At, U32At, Ascii;
    Signatures();
    var h := flat[at..at + 96];
    HeaderFields(flat, at, h);
    HeaderSlices(h, head, LittleEndian(alternate, 8), middle, LittleEndian(entryLba, 8), LittleEndian(count, 4),
                 LittleEndian(size, 4), rest);
    NumberIn(h, 32, alternate, 8);
    NumberIn(h, 72, entryLba, 8);
    NumberIn(h, 80, count, 4);
    NumberIn(h, 84, size, 4);
  }

  lemma HeaderSlices(h: seq<Byte>, head: seq<Byte>, a: seq<Byte>, middle: seq<Byte>, e: seq<Byte>, n: seq<Byte>,
                     z: seq<Byte>, rest: seq<Byte>)
    requires |head| == |middle| == 32 && |a| == |e| == |rest| == 8 && |n| == |z| == 4
    requires h == head + a + middle + e + n + z + rest
    ensures |h| == 96 && h[..8] == head[..8] && h[32..40] == a && h[72..80] == e && h[80..84] == n && h[84..88] == z
  {
  }

  lemma NumberIn(h: seq<Byte>, o: nat, x: nat, width: nat)
    requires (width == 4 && x < TWO32) || (width == 8 && x < TWO64)
    requires o + width <= |h| && h[o..o + width] == LittleEndian(x, width)
    ensures width == 4 ==> U32At(h, o) == x
    ensures width == 8 ==> U64At(h, o) == x
  {
    hide LittleEndian, FromLittleEndian;
    WidthLimits();
    DecodeEncodeInt(x, width);
  }

  /** An MBR entry as on disk: a used partition starts high from sector 63 on, and a status byte makes
      sense if it says active or nothing. */
  lemma MbrEntryLayout(flat: seq<Byte>, entry: nat, status: Byte, first: seq<Byte>, kind: Byte, last: seq<Byte>,
                       start: nat, count: nat)
    requires entry + 16 <= |flat| && |first| == |last| == 3 && start < TWO32 && count < TWO32
    requires flat[entry..entry + 16] ==
      [status] + first + [kind] + last + LittleEndian(start, 4) + LittleEndian(count, 4)
    ensures StartsHigh(flat, entry) <==> kind == 0 || start >= 63
    ensures SaneStatus(flat, entry) <==> status == 0 || status == 0x80
  {
    hide LittleEndian, FromLittleEndian, U32At;
    var e := flat[entry..entry + 16];
    assert e == ([status] + first + [kind] + last) + LittleEndian(start, 4) + LittleEndian(count, 4);
    NumberAt(e, [status] + first + [kind] + last, start, LittleEndian(count, 4), 4);
    assert U32At(e, 8) == U32At(flat, entry + 8) by {
      SliceOfSlice(flat, entry, 16, 8, 12);
      SameSlice(e, 8, flat, entry + 8);
    }
    assert flat[entry] == e[0] && flat[entry + 4] == e[4];
  }

  lemma SameSlice(a: seq<Byte>, i: nat, b: seq<Byte>, j: nat)
    requires i + 4 <= |a| && j + 4 <= |b| && a[i..i + 4] == b[j..j + 4]
    ensures U32At(a, i) == U32At(b, j)
  {
  }

  /** Below a good MBR's partitions there is room for stage 2: no used partition begins before the end
      of an image of 63 sectors. */
  lemma StageBelowPartitions(flat: seq<Byte>, force: bool, e: nat, image: seq<Byte>)
    requires GoodMbr(flat, force) && IsEntry(e) && flat[e + 4] != 0 && |image| <= 63 * 512
    ensures 512 + (|image| - 512) <= 512 * U32At(flat, e + 8)
  {
    assert StartsHigh(flat, e);
  }

  /** A file system is recognised by exactly these texts and the magic number of ext. */
  lemma FilesystemSigns(flat: seq<Byte>, at: nat)
    requires at + 1082 <= |flat|
    ensures NoFilesystem(flat, at) <==>
      && flat[at + 3..at + 7] != Ascii("NTFS") && flat[at + 54..at + 57] != Ascii("FAT")
      && flat[at + 82..at + 85] != Ascii("FAT") && flat[at + 3..at + 8] != Ascii("FAT32")
      && !(flat[at + 1080] == 0x53 && flat[at + 1081] == 0xef)
  {
    Signatures();
    assert flat[at + 1080..at + 1082] == [flat[at + 1080], flat[at + 1081]];
  }

  /** How much a forced validation overwrites: four bytes of NTFS, five of any FAT, two of ext. */
  lemma WipeAllZeroes(flat: seq<Byte>, at: nat, p: nat)
    requires p < |flat|
    ensures Matches(flat, at + 3, NTFS) && at + 3 <= p < at + 7 ==> WipeAll(flat, at)[p] == 0
    ensures Matches(flat, at + 54, FAT) && at + 54 <= p < at + 59 ==> WipeAll(flat, at)[p] == 0
    ensures Matches(flat, at + 82, FAT) && at + 82 <= p < at + 87 ==> WipeAll(flat, at)[p] == 0
    ensures Matches(flat, at + 3, FAT32) && at + 3 <= p < at + 8 ==> WipeAll(flat, at)[p] == 0
    ensures Matches(flat, at + 1080, EXT) && at + 1080 <= p < at + 1082 ==> WipeAll(flat, at)[p] == 0
  {
    hide Matches, Wipe;
    var a := Wipe(flat, at + 3, NTFS, 4);
    var b := Wipe(a, at + 54, FAT, 5);
    var c := Wipe(b, at + 82, FAT, 5);
    var d := Wipe(c, at + 3, FAT32, 5);
    WipeZeroes(flat, at + 3, NTFS, 4, p);
    WipeZeroes(a, at + 54, FAT, 5, p);
    WipeZeroes(b, at + 82, FAT, 5, p);
    WipeZeroes(c, at + 3, FAT32, 5, p);
    WipeZeroes(d, at + 1080, EXT, 2, p);
    Elsewhere(flat, at + 3, NTFS, 4, at + 54, FAT);
    Elsewhere(flat, at + 3, NTFS, 4, at + 82, FAT);
    Elsewhere(a, at + 54, FAT, 5, at + 82, FAT);
    Elsewhere(flat, at + 3, NTFS, 4, at + 1080, EXT);
    Elsewhere(a, at + 54, FAT, 5, at + 1080, EXT);
    Elsewhere(b, at + 82, FAT, 5, at + 1080, EXT);
    Elsewhere(c, at + 3, FAT32, 5, at + 1080, EXT);
    Elsewhere(a, at + 54, FAT, 5, at + 3, FAT32);
    Elsewhere(b, at + 82, FAT, 5, at + 3, FAT32);
    NotBoth(flat, at + 3);
  }

  lemma WipeZeroes(flat: seq<Byte>, q: nat, sign: seq<Byte>, n: nat, p: nat)
    requires p < |flat|
    ensures Matches(flat, q, sign) && q <= p < q + n ==> Wipe(flat, q, sign, n)[p] == 0
    ensures flat[p] == 0 ==> Wipe(flat, q, sign, n)[p] == 0
  {
  }

  lemma Elsewhere(flat: seq<Byte>, q: nat, sign: seq<Byte>, n: nat, r: nat, other: seq<Byte>)
    requires q + n <= r || r + |other| <= q
    ensures Matches(Wipe(flat, q, sign, n), r, other) <==> Matches(flat, r, other)
  {
    var after := Wipe(flat, q, sign, n);
    if r + |other| <= |flat| {
      assert after[r..r + |other|] == flat[r..r + |other|];
    }
  }

  lemma NotBoth(flat: seq<Byte>, q: nat)
    ensures Matches(flat, q, FAT32) ==> Wipe(flat, q, NTFS, 4) == flat
  {
    if Matches(flat, q, FAT32) {
      assert flat[q] == flat[q..q + 5][0];
      assert q + 4 <= |flat| ==> flat[q..q + 4][0] == flat[q];
    }
  }

  /** Clearing sets exactly the bytes of the blocks to zero. */
  lemma {:induction false} ClearedBytes(flat: seq<Byte>, lbSize: nat, first: nat, count: nat, p: nat)
    requires p < |flat|
    ensures Cleared(flat, lbSize, first, count)[p] ==
      if exists i: nat :: i < count && BlockAt(lbSize, first, i) <= p < BlockAt(lbSize, first, i) + lbSize
      then 0 else flat[p]
  {
    hide BlockAt;
    if count > 0 {
      ClearedBytes(flat, lbSize, first, count - 1, p);
    }
  }

  /** Without the GPTs: the first 34 blocks and the 33 blocks up to the backup header are zero. */
  lemma WithoutGptBytes(flat: seq<Byte>, g: Gpt, p: nat)
    requires g.Valid() && p < |flat| && (g.alternate >= 32 ==> (g.alternate + 1) * g.lbSize <= TWO64)
    ensures WithoutGpt(flat, g)[p] ==
      if p < 34 * g.lbSize || (32 <= g.alternate && (g.alternate - 32) * g.lbSize <= p < (g.alternate + 1) * g.lbSize)
      then 0 else flat[p]
  {
    hide Cleared;
    var primary := Cleared(flat, g.lbSize, 0, 34);
    ClearedBytes(flat, g.lbSize, 0, 34, p);
    BlocksAre(g.lbSize, 0, 34, p);
    if g.alternate >= 32 {
      ClearedBytes(primary, g.lbSize, g.alternate - 32, 33, p);
      BlocksAre(g.lbSize, g.alternate - 32, 33, p);
    }
  }

  /** Consecutive blocks make one range, as long as nothing wraps. */
  lemma BlocksAre(lbSize: nat, first: nat, count: nat, p: nat)
    requires (lbSize == 512 || lbSize == 4096) && (first + count) * lbSize <= TWO64
    ensures (exists i: nat :: i < count && BlockAt(lbSize, first, i) <= p < BlockAt(lbSize, first, i) + lbSize) <==>
      first * lbSize <= p < (first + count) * lbSize
  {
    forall i: nat | i < count ensures BlockAt(lbSize, first, i) == (first + i) * lbSize {
      NoWrap(lbSize, first + i, first + count);
    }
    if first * lbSize <= p < (first + count) * lbSize {
      var i := p / lbSize - first;
      assert BlockAt(lbSize, first, i) <= p < BlockAt(lbSize, first, i) + lbSize;
    }
  }

  lemma NoWrap(lbSize: nat, block: nat, end: nat)
    requires (lbSize == 512 || lbSize == 4096) && block < end && end * lbSize <= TWO64
    ensures block * lbSize % TWO64 == block * lbSize
  {
  }

  /** The new MBR: the disk identifier at byte 440, the partition table at 446, and nothing else changes
      once the GPTs are gone. */
  lemma ConvertedLayout(flat: seq<Byte>, g: Gpt, id: seq<Byte>, parts: seq<Part>)
    requires |id| == 4 && ValidParts(parts) && 512 <= |flat|
    ensures var r := Converted(flat, g, id, parts);
      && r[..440] == WithoutGpt(flat, g)[..440] && r[440..444] == id && r[444..446] == [0, 0]
      && r[446..510] == Table(parts) && r[510..] == WithoutGpt(flat, g)[510..]
  {
    hide WithoutGpt, Table;
  }

  /** The conversions that are wanted, on the bytes: an ISO image all of whose used entries, at most
      four, have known types and fit 32 bits. */
  lemma WantedMeans(flat: seq<Byte>, g: Gpt)
    requires g.Valid()
    ensures Wanted(flat, g) <==>
      && 32774 <= |flat| && flat[32769..32774] == Ascii("CD001") && g.entryLba * g.lbSize < TWO64
      && EntriesInDisk(flat, g.entryLba * g.lbSize, g.entrySize, g.entryCount)
      && var parts := Gathered(flat, g.entryLba * g.lbSize, g.entrySize, g.entryCount);
         |parts| <= 4 && forall i :: 0 <= i < |parts| ==> Convertible(parts[i])
  {
    hide Gathered, EntriesInDisk, Convertible;
    Signatures();
  }

  /** The room for stage 2, in the integers: 32 KiB, and nothing beyond 64 bits. */
  lemma RoomyIff(g: Gpt, e: GptEntry)
    requires g.Valid()
    ensures var first, last := PartOf(e).start, PartOf(e).end;
      Roomy(g, e) <==>
        first <= last && 32768 <= (last - first + 1) * g.lbSize < TWO64 && first * g.lbSize < TWO64
  {
    hide U64At, MbrType;
    var p := PartOf(e);
    if p.start <= p.end {
      if p.end - p.start + 1 == TWO64 {
        assert SectorCount(p) == 0;
      } else {
        assert SectorCount(p) == p.end - p.start + 1;
      }
    }
  }

  /** Which entry is taken, on the bytes: the numbered one if it is used, counting from one, or the
      first that begins with the BIOS boot type. */
  lemma ChosenMeans(flat: seq<Byte>, g: Gpt, choice: Choice, force: bool, k: nat)
    requires k < g.entryCount && g.entryLba * g.lbSize + k * g.entrySize + 128 <= |flat|
    ensures var at := g.entryLba * g.lbSize + k * g.entrySize;
      && at >= 0
      && (choice.Numbered? ==>
           (Chosen(flat, g, choice, force, k) <==>
             && choice.number == k + 1 && Used(flat[at..at + 128])
             && (force || flat[at..at + 16] == Ascii("Hah!IdontNeedEFI"))))
      && (choice.Autodetect? ==>
           (Chosen(flat, g, choice, force, k) <==>
             && flat[at..at + 16] == Ascii("Hah!IdontNeedEFI") && forall j: nat :: j < k ==> !BootEntry(flat, g, j)))
  {
    hide Used;
    Signatures();
    var at := EntryOffset(g, k);
    SliceOfSlice(flat, at, 128, 0, 16);
  }

  /** A good MBR: four entries of which no used one starts low, and unless forced four sane status bytes
      and no file system on the disk as a whole. */
  lemma GoodMbrMeans(flat: seq<Byte>, force: bool)
    requires 512 <= |flat|
    ensures GoodMbr(flat, force) <==>
      && StartsHigh(flat, 446) && StartsHigh(flat, 462) && StartsHigh(flat, 478) && StartsHigh(flat, 494)
      && (force || (NoFilesystem(flat, 0)
           && SaneStatus(flat, 446) && SaneStatus(flat, 462) && SaneStatus(flat, 478) && SaneStatus(flat, 494)))
  {
    hide StartsHigh, SaneStatus, NoFilesystem;
    assert IsEntry(446) && IsEntry(462) && IsEntry(478) && IsEntry(494);
  }

  /** An acceptable entry is chosen, has room and, unless forced, holds no file system. */
  lemma AcceptableMeans(flat: seq<Byte>, g: Gpt, choice: Choice, force: bool, k: nat)
    requires EntryThere(flat, g, k)
    ensures var e := EntryOf(flat, g, k);
      Acceptable(flat, g, choice, force, k) <==>
        && g.entryLba * g.lbSize < TWO64 && Chosen(flat, g, choice, force, k) && Roomy(g, e)
        && PartOf(e).start * g.lbSize >= 0 && (force || NoFilesystem(flat, PartOf(e).start * g.lbSize))
  {
    hide Chosen, Roomy, NoFilesystem, PartOf;
    MulNatural(PartOf(EntryOf(flat, g, k)).start, g.lbSize);
  }

  /** A header in the second sector wins over one at 4096. */
  lemma GptMeans(flat: seq<Byte>)
    ensures HasGpt(flat) <==> Signed(flat, 512) || Signed(flat, 4096)
    ensures Signed(flat, 512) ==> Header(flat) == HeaderAt(flat, 512, 512)
    ensures !Signed(flat, 512) && Signed(flat, 4096) ==> Header(flat) == HeaderAt(flat, 4096, 4096)
  {
    hide HeaderAt;
  }

  /** Which disks are looked at as what: only a wanted conversion changes the disk that is checked, a
      disk without a GPT is judged by its MBR and any other GPT by its partitions. */
  lemma AcceptedMeans(flat: seq<Byte>, o: Options)
    requires |o.diskId| == 4
    ensures !HasGpt(flat) ==> (Accepted(flat, o) <==> GoodMbr(flat, o.force)) && Start(flat, o) == flat
    ensures HasGpt(flat) && (!o.convert || !Wanted(flat, Header(flat))) ==>
      && Start(flat, o) == flat
      && (Accepted(flat, o) <==>
           && Signed(flat, Header(flat).lbSize * Header(flat).alternate % TWO64)
           && exists k: nat :: Acceptable(flat, Header(flat), o.choice, o.force, k))
    ensures HasGpt(flat) && o.convert && Wanted(flat, Header(flat)) ==>
      (Accepted(flat, o) <==>
        && Signed(flat, Header(flat).lbSize * Header(flat).alternate % TWO64) && GoodMbr(Start(flat, o), o.force))
  {
    hide GoodMbr, Wanted, Acceptable, Header, HasGpt, Converted;
  }

  // ------------------------------------------------------------------ the final writes

  /** The disk after the five final writes, in order. */
  function Written(before: seq<Byte>, image: seq<Byte>, stage2: nat): (r: seq<Byte>)
    requires 512 <= |before| && 512 <= |image|
    ensures |r| == |before|
  {
    Staged(before, image, stage2, before[218..224], before[440..510])
  }

  /** The five writes, with the time stamp and the table to put back. */
  function Staged(before: seq<Byte>, image: seq<Byte>, stage2: nat, timestamp: seq<Byte>, table: seq<Byte>)
    : (r: seq<Byte>)
    requires 512 <= |image|
    ensures |r| == |before|
  {
    var a := Patch(before, 0, image[..512]);
    var b := Patch(a, stage2, image[512..]);
    var c := Patch(b, 0x1a4, LittleEndian(stage2, 8));
    Patch(Patch(c, 218, timestamp), 440, table)
  }

  /** The time stamp, the disk identifier and the partition table survive wherever stage 2 goes. */
  lemma TableSurvives(before: seq<Byte>, image: seq<Byte>, stage2: nat, p: nat)
    requires 512 <= |before| && 512 <= |image|
    requires 218 <= p < 224 || 440 <= p < 510
    ensures Written(before, image, stage2)[p] == before[p]
  {
  }

  /** Install frame: with stage 2 outside sector 0 only the boot code and stage 2 change. */
  lemma InstallFrame(before: seq<Byte>, image: seq<Byte>, stage2: nat, p: nat)
    requires 512 <= |before| && 512 <= |image| && p < |before|
    requires 512 <= stage2 && stage2 + |image| - 512 <= |before|
    ensures Written(before, image, stage2)[p] ==
      if 218 <= p < 224 || 440 <= p < 510 then before[p]
      else if 0x1a4 <= p < 0x1ac then LittleEndian(stage2, 8)[p - 0x1a4]
      else if p < 512 then image[p]
      else if stage2 <= p < stage2 + |image| - 512 then image[512 + p - stage2]
      else before[p]
  {
  }

  method WriteStages(dev: Device, image: seq<Byte>, stage2: nat) returns (ok: bool)
    requires dev.Installing() && 512 < |image| && stage2 < TWO64
    modifies dev`disk, dev`dirty, dev`clock, dev`cachedBlock, dev`failed, dev`uninstallCount, dev`flat, dev`torn
    modifies dev.cache, dev.uninstallData
    ensures ok ==> dev.Installing() && 512 <= |old(dev.flat)| && stage2 + |image| - 512 <= |dev.flat|
    ensures ok ==> dev.disk == dev.flat == Written(old(dev.flat), image, stage2)
    ensures ok ==> dev.uninstallCount == old(dev.uninstallCount) + 5
    ensures !ok ==> dev.uninstallCount <= old(dev.uninstallCount) + 5
    ensures !ok ==> dev.failed && dev.Stopped()
    ensures (ok ==> stage2 + |image| - 512 <= dev.Limit())
    ensures !ok && RanOff(dev) ==> dev.Limit() < 512 || dev.Limit() < stage2 + |image| - 512
  {
    hide Device.Installing, Device.Stopped, Device.Limit, Calm, Staged;
    DiskIsBounded(dev);
    var timestamp, table;
    ok, timestamp := dev.TryRead(218, 6);
    if !ok { return; }
    ok, table := dev.TryRead(440, 70);
    if !ok { return; }
    ok := PutStages(dev, image, stage2, timestamp, table);
    if !ok { return; }
    ok := dev.TryFlush();
  }

  method PutStages(dev: Device, image: seq<Byte>, stage2: nat, timestamp: seq<Byte>, table: seq<Byte>)
    returns (ok: bool)
    requires dev.Installing() && 512 < |image| && stage2 < TWO64 && |timestamp| == 6 && |table| == 70
    modifies dev`disk, dev`dirty, dev`clock, dev`cachedBlock, dev`failed, dev`uninstallCount, dev`flat, dev`torn
    modifies dev.cache, dev.uninstallData
    ensures ok ==> dev.Installing() && dev.flat == Staged(old(dev.flat), image, stage2, timestamp, table)
    ensures ok ==> dev.uninstallCount == old(dev.uninstallCount) + 5
    ensures ok ==> stage2 + |image| - 512 <= dev.Limit() <= |dev.flat|
    ensures !ok ==> dev.failed && dev.Stopped() && dev.uninstallCount <= old(dev.uninstallCount) + 5
    ensures !ok && RanOff(dev) ==> dev.Limit() < 512 || dev.Limit() < stage2 + |image| - 512
  {
    hide Device.Installing, Device.Stopped, Device.Limit, Calm, Patch, LittleEndian;
    ok := dev.TryWrite(image[..512], 0);
    if !ok { return; }
    ok := dev.TryWrite(image[512..], stage2);
    if !ok { return; }
    ok := dev.TryWrite(LittleEndian(stage2, 8), 0x1a4);
    if !ok { return; }
    ok := dev.TryWrite(timestamp, 218);
    if !ok { return; }
    ok := dev.TryWrite(table, 440);
  }

  // ------------------------------------------------------------------ the whole procedure

  datatype Options = Options(force: bool, convert: bool, choice: Choice, diskId: seq<Byte>)

  datatype Target = Mbr | Partition(g: Gpt, e: seq<Byte>)

  /** What the final writes rely on: stage 2 lies below every MBR partition or in its own. */
  ghost predicate Placed(before: seq<Byte>, target: Target, image: seq<Byte>, stage2: nat) {
    match target
    case Mbr =>
      && stage2 == 512 && stage2 + |image| - 512 <= 63 * 512
      && 512 <= |before| && forall e: nat :: IsEntry(e) ==> StartsHigh(before, e)
    case Partition(g, e) =>
      |e| == 128 && HoldsStage2(g, e, stage2) && stage2 + |image| - 512 <= (PartOf(e).end + 1) * g.lbSize
  }

  predicate Converts(flat: seq<Byte>, o: Options) { o.convert && HasGpt(flat) && Wanted(flat, Header(flat)) }

  /** Stage 2 goes to a GPT partition. */
  predicate InGpt(flat: seq<Byte>, o: Options) { HasGpt(flat) && !Converts(flat, o) }

  /** The disk that is checked: the given one, or the converted one. */
  function Start(flat: seq<Byte>, o: Options): (r: seq<Byte>)
    requires |o.diskId| == 4
    ensures |r| == |flat|
  {
    if Converts(flat, o) then
      var g := Header(flat);
      FittingPartsAreValid(flat, g.entryLba * g.lbSize, g.entrySize, g.entryCount);
      Converted(flat, g, o.diskId, Gathered(flat, g.entryLba * g.lbSize, g.entrySize, g.entryCount))
    else flat
  }

  /** The disks that are installed to, decided on the disk as it was given. */
  ghost predicate Accepted(flat: seq<Byte>, o: Options)
    requires |o.diskId| == 4
  {
    && (HasGpt(flat) ==> BackupOf(flat, Header(flat)))
    && if InGpt(flat, o) then
         exists k: nat :: Acceptable(flat, Header(flat), o.choice, o.force, k)
       else
         GoodMbr(Start(flat, o), o.force)
  }

  /** Transfers below `limit` suffice for everything before the final writes. */
  ghost predicate AmplePrepare(limit: nat, flat: seq<Byte>, o: Options) {
    && AmpleProbe(limit, flat)
    && (HasGpt(flat) && o.convert ==> AmpleConvert(limit, flat, Header(flat)))
    && if InGpt(flat, o) then
         && AmpleChoice(limit, flat, Header(flat), o.choice)
         && RoomBehind(limit, flat, Header(flat), o.choice, o.force, 1082)
       else
         1082 <= limit
  }

  /** The disk is large enough: transfers below `limit` suffice for the whole install. */
  ghost predicate Ample(limit: nat, flat: seq<Byte>, o: Options, image: seq<Byte>)
    requires |image| >= 512
  {
    && AmplePrepare(limit, flat, o)
    && if InGpt(flat, o) then RoomBehind(limit, flat, Header(flat), o.choice, o.force, |image| - 512)
       else |image| <= limit
  }

  /** Where stage 2 goes. */
  ghost predicate Lands(flat: seq<Byte>, o: Options, stage2: nat) {
    if InGpt(flat, o) then
      exists k: nat ::
        && Acceptable(flat, Header(flat), o.choice, o.force, k)
        && stage2 == Stage2Of(Header(flat), EntryOf(flat, Header(flat), k))
    else stage2 == 512
  }

  lemma LandsInRoom(limit: nat, flat: seq<Byte>, o: Options, stage2: nat, image: seq<Byte>)
    requires Lands(flat, o, stage2) && |image| >= 512 && AmplePrepare(limit, flat, o)
    ensures stage2 + |image| - 512 <= limit <==> Ample(limit, flat, o, image)
  {
    hide HasGpt, Header, Converts, AmpleProbe, AmpleConvert, AmpleChoice, RoomBehind;
    hide Roomy, BootEntry, EntryOf, Stage2Of;
    if InGpt(flat, o) {
      var g := Header(flat);
      var k: nat :| Acceptable(flat, g, o.choice, o.force, k) && stage2 == Stage2Of(g, EntryOf(flat, g, k));
      AcceptableIsChosen(flat, Header(flat), o.choice, o.force, k);
      RoomForOne(limit, flat, Header(flat), o.choice, o.force, k, |image| - 512);
    }
  }

  /** Without a GPT a good MBR on a disk of 63 sectors or more is all it takes. */
  lemma GoodMbrSuffices(limit: nat, flat: seq<Byte>, o: Options, image: seq<Byte>)
    requires |o.diskId| == 4 && 512 <= |image| <= 63 * 512 <= limit && !HasGpt(flat) && GoodMbr(flat, o.force)
    ensures Accepted(flat, o) && Ample(limit, flat, o, image)
  {
  }

  lemma AcceptableIsChosen(flat: seq<Byte>, g: Gpt, choice: Choice, force: bool, k: nat)
    requires Acceptable(flat, g, choice, force, k)
    ensures Chosen(flat, g, choice, force, k)
  {
  }

  /** Everything before the final writes: probing, conversion, checks and placement. Unless the
      device fails, it goes well exactly for the accepted disks. */
  method Prepare(dev: Device, o: Options, image: seq<Byte>) returns (ok: bool, stage2: nat, ghost target: Target)
    requires dev.Installing() && |o.diskId| == 4 && (o.choice.Numbered? ==> o.choice.number < TWO32)
    requires 512 < |image| <= 63 * 512
    modifies dev`disk, dev`dirty, dev`clock, dev`cachedBlock, dev`failed, dev`uninstallCount, dev`flat, dev`torn
    modifies dev.cache, dev.uninstallData
    ensures (ok ==> dev.Installing()) && dev.uninstallCount <= old(dev.uninstallCount) + 101
    ensures ok ==> stage2 < TWO64 && Placed(dev.flat, target, image, stage2)
    ensures ok ==> Accepted(old(dev.flat), o)
    ensures ok ==> Repaired(dev.flat, Start(old(dev.flat), o), if target.Mbr? then 0 else stage2)
    ensures ok && !o.force ==> SameExcept(dev.flat, Start(old(dev.flat), o), 446)
    ensures ok ==> Lands(old(dev.flat), o, stage2) && AmplePrepare(dev.Limit(), old(dev.flat), o)
    ensures !ok ==> dev.Stopped() && (!dev.failed ==> !Accepted(old(dev.flat), o))
    ensures !ok && RanOff(dev) ==> !Accepted(old(dev.flat), o) || !AmplePrepare(dev.Limit(), old(dev.flat), o)
  {
    hide Device.Installing, Device.Stopped, Device.Limit, Calm, Converted, Gathered, Wanted, StartsHigh;
    hide ValidParts, U64At;
    hide HasGpt, Header, BackupOf, GoodMbr, Acceptable, EntryOf, Fits, Repaired, HoldsStage2;
    hide AmpleProbe, AmpleConvert, AmpleChoice, RoomBehind;
    stage2, target := 512, Mbr;
    var gpt, g;
    ok, gpt, g := Probe(dev);
    if !ok { return; }
    ghost var flat := dev.flat;
    if gpt && o.convert {
      var converted;
      ok, converted := Convert(dev, g, o.diskId);
      if !ok { return; }
      gpt := !converted;
    }
    if gpt {
      var e;
      ghost var k;
      ok, stage2, e, k := Locate(dev, g, o.choice, o.force);
      target := Partition(g, e);
      if ok {
        HeldStage2(g, e, stage2, image);
        RepairedVolume(flat, stage2, o.force);
      }
    } else {
      ok := CheckMbr(dev, o.force);
    }
  }

  lemma HeldStage2(g: Gpt, e: GptEntry, stage2: nat, image: seq<Byte>)
    requires HoldsStage2(g, e, stage2) && 512 < |image| <= 63 * 512
    ensures stage2 < TWO64 && stage2 + |image| - 512 <= (PartOf(e).end + 1) * g.lbSize
  {
  }

  lemma RepairedVolume(flat: seq<Byte>, at: nat, force: bool)
    ensures Repaired(if force then WipeAll(flat, at) else flat, flat, at)
  {
  }

  /** `bios_install`: after a success the disk is the prepared one with the boot code and stage 2
      in place and at most 106 undo records were used; after a failure that could be rolled back
      the disk is the original one. A device that never fails refuses exactly the disks that are
      not accepted or too small, and a refused disk is left as it was. */
  method Install(dev: Device, o: Options, image: seq<Byte>)
    returns (ok: bool, undone: bool, ghost before: seq<Byte>, ghost target: Target, ghost stage2: nat)
    requires dev.Installing() && dev.uninstallCount == 0
    requires |o.diskId| == 4 && (o.choice.Numbered? ==> o.choice.number < TWO32)
    requires 512 < |image| <= 63 * 512
    modifies dev, dev.cache, dev.uninstallData, dev.uninstallDataRev
    ensures dev.uninstallCount <= 106
    ensures ok ==> Placed(before, target, image, stage2)
    ensures ok ==> 512 <= |before| && dev.disk == Written(before, image, stage2)
    ensures ok ==> dev.Valid() && UndoLog.Replay(dev.Log(), dev.disk) == dev.origin
    ensures ok ==> UndoFile.Storable(dev.Log()) && UndoLog.Addressable(dev.Log()) && InReach(dev.Log(), dev.Limit())
    ensures ok ==> Accepted(old(dev.flat), o)
    ensures ok ==> Repaired(before, Start(old(dev.flat), o), if target.Mbr? then 0 else stage2)
    ensures ok && !o.force ==> SameExcept(before, Start(old(dev.flat), o), 446)
    ensures !ok ==> dev.failed || !Accepted(old(dev.flat), o)
    ensures Calm(dev.hw, 0) ==> (ok <==> Accepted(old(dev.flat), o) && Ample(dev.Limit(), old(dev.flat), o, image))
    ensures !ok && undone && !dev.torn ==> dev.disk == dev.origin
    ensures !ok && Calm(dev.hw, 0) ==> undone && dev.disk == dev.origin
  {
    hide Device.Installing, Device.Stopped, Device.Limit, Calm, Placed, Written, Accepted, Start, Repaired, SameExcept;
    hide Lands, AmplePrepare, Ample;
    var at;
    ghost var flat := dev.flat;
    ok, at, target := Prepare(dev, o, image);
    stage2, before, undone := at, dev.flat, false;
    AmpleParts(dev.Limit(), flat, o, image);
    if ok {
      LandsInRoom(dev.Limit(), flat, o, at, image);
      ok := WriteStages(dev, image, at);
    }
    if !ok {
      if Calm(dev.hw, 0) {
        NeverTorn(dev);
      }
      undone := dev.Rollback();
    } else {
      ReversedLogRestores(dev);
      dev.ReverseUninstallData();
    }
  }

  lemma AmpleParts(limit: nat, flat: seq<Byte>, o: Options, image: seq<Byte>)
    requires |image| >= 512
    ensures Ample(limit, flat, o, image) ==> AmplePrepare(limit, flat, o)
    ensures AmplePrepare(limit, flat, o) ==> 512 <= limit
  {
  }

  lemma NeverTorn(dev: Device)
    requires dev.Stopped() && Calm(dev.hw, 0)
    ensures !dev.torn && Calm(dev.hw, dev.clock)
  {
  }

  lemma ReversedLogRestores(dev: Device)
    requires dev.Installing() && dev.disk == dev.flat
    ensures dev.Valid() && UndoLog.Replay(UndoLog.Reverse(dev.Log()), dev.disk) == dev.origin
    ensures var log := UndoLog.Reverse(dev.Log());
      UndoFile.Storable(log) && UndoLog.Addressable(log) && InReach(log, dev.Limit())
  {
    hide UndoLog.Undoable, UndoLog.Replay, UndoFile.Storable, InReach, Reach;
    UndoLog.UndoableIffRestored(dev.origin, dev.disk, dev.Log());
    UndoFile.ReverseKeepsStorable(dev.Log());
    UndoLog.ReverseKeepsAddressable(dev.Log());
    dev.SameLength();
    ReachDependsOnLength(dev.hw.bs, dev.disk, dev.origin);
    ReverseKeepsInReach(dev.Log(), dev.Limit());
  }

  /** A whole life: `bios-install`, which stores its undo records, and in a later run on a device
      `hw` with other faults `bios-install --uninstall`, which loads them. Storing and loading cannot
      go wrong, and an uninstall that reports success gives the original disk back; it does report
      success if nothing fails. */
  method InstallAndUninstall(dev: Device, o: Options, image: seq<Byte>, hw: Hardware)
    returns (ok: bool, stored: bool, loaded: bool, undone: bool, disk: seq<Byte>)
    requires dev.Installing() && dev.uninstallCount == 0
    requires |o.diskId| == 4 && (o.choice.Numbered? ==> o.choice.number < TWO32)
    requires 512 < |image| <= 63 * 512 && hw.Valid() && hw.bs <= |dev.origin|
    modifies dev, dev.cache, dev.uninstallData, dev.uninstallDataRev
    ensures ok ==> stored && loaded
    ensures undone && (ok || !dev.torn) ==> disk == dev.origin
    ensures ok && Calm(hw, 0) && hw.bs == dev.hw.bs ==> undone
  {
    hide Device.Installing, Device.Limit, Placed, Written, Accepted, Start, Repaired, SameExcept, Ample, Calm, Reach;
    hide UndoLog.Replay, UndoLog.Uninstall, UndoLog.Addressable, UndoFile.Store, UndoFile.Load, UndoFile.Storable;
    hide InReach;
    OriginIsBounded(dev);
    stored, loaded, undone, disk := false, false, false, [];
    ghost var before, target, stage2;
    ok, undone, before, target, stage2 := Install(dev, o, image);
    if !ok {
      disk := dev.disk;
      return;
    }
    var file;
    stored, file := dev.StoreUninstallData();
    UndoFile.LoadInvertsStore(file, dev.Log());
    var later := new Device(hw, dev.disk);
    loaded := later.LoadUninstallData(file);
    if loaded {
      ghost var d, log := later.State(), later.Log();
      undone := later.Uninstall();
      LaterUninstall(dev, hw, d, log);
    }
    disk := later.disk;
  }

  lemma OriginIsBounded(dev: Device)
    requires dev.Installing()
    ensures |dev.origin| <= MAX_DISK
  {
    dev.SameLength();
  }

  lemma LaterUninstall(dev: Device, hw: Hardware, d: Dev, log: seq<UndoLog.Record>)
    requires Sane(hw, d) && dev.hw.bs > 0 && UndoLog.Addressable(log) && InReach(log, dev.Limit())
    requires UndoLog.Replay(log, d.disk) == dev.origin
    ensures UndoLog.Uninstall(hw, d, log).ok ==> UndoLog.Uninstall(hw, d, log).dev.disk == dev.origin
    ensures Calm(hw, 0) && hw.bs == dev.hw.bs ==> UndoLog.Uninstall(hw, d, log).ok
  {
    hide UndoLog.Replay, UndoLog.Uninstall, UndoLog.Addressable, InReach, Reach;
    if UndoLog.Uninstall(hw, d, log).ok {
      UndoLog.UninstallReplays(hw, d, log);
    }
    if Calm(hw, 0) && hw.bs == dev.hw.bs {
      ReachDependsOnLength(hw.bs, d.disk, dev.origin);
      CalmUninstall(hw, d, log);
    }
  }
}
