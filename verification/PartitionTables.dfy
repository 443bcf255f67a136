/** The partition-table arithmetic of limine.c: CHS addresses, GPT entries and MBR entries. */
module PartitionTables {
  import opened Bytes

  function U32At(s: seq<Byte>, o: nat): (r: nat)
    requires o + 4 <= |s|
    ensures r < TWO32
  {
    WidthLimits();
    FromLittleEndian(s[o..o + 4])
  }

  function U64At(s: seq<Byte>, o: nat): (r: nat)
    requires o + 8 <= |s|
    ensures r < TWO64
  {
    WidthLimits();
    FromLittleEndian(s[o..o + 8])
  }

  // ------------------------------------------------------------------ CHS addresses

  /** `lba2chs`: head, then the two high cylinder bits with the sector, then the cylinder. */
  function LbaToChs(lba: nat): (r: seq<Byte>)
    ensures |r| == 3
  {
    if lba > 63 * 255 * 1024 || lba / (255 * 63) >= 1024 then [0xfe, 0xff, 0xff]
    else
      var cylinder := lba / (255 * 63);
      [lba / 63 % 255, cylinder / 256 * 64 + (lba % 63 + 1), cylinder % 256]
  }

  function ChsToLba(chs: seq<Byte>): int
    requires |chs| == 3
  {
    var head: int, mixed: int, low: int := chs[0], chs[1], chs[2];
    ((low + 256 * (mixed / 64)) * 255 + head) * 63 + mixed % 64 - 1
  }

  /** A CHS address decodes to the LBA it was made from, or to the largest one there is. */
  lemma ChsSaturates(lba: nat)
    ensures ChsToLba(LbaToChs(lba)) == Min(lba, 1024 * 255 * 63 - 1)
  {
    var cylinder, head := lba / (255 * 63), lba / 63 % 255;
    assert lba / 63 / 255 == cylinder;
    assert lba == (cylinder * 255 + head) * 63 + lba % 63;
    if cylinder < 1024 {
      var mixed := cylinder / 256 * 64 + (lba % 63 + 1);
      assert mixed / 64 == cylinder / 256 && mixed % 64 == lba % 63 + 1;
    }
  }

  // ------------------------------------------------------------------ GPT and MBR entries

  /** `gpt2mbr_type`: the MBR type of a GPT partition type, or -1. */
  function MbrType(guid1: nat, guid2: nat): int {
    if guid1 == 0x11d2f81fc12a7328 && guid2 == 0x3bc93ec9a0004bba then 0xef
    else if guid1 == 0x4433b9e5ebd0a0a2 && guid2 == 0xc79926b7b668c087 then 0x07
    else if guid1 == 0x11aa000048465300 && guid2 == 0xacec4365300011aa then 0xaf
    else -1
  }

  type GptEntry = e: seq<Byte> | |e| == 128 witness seq(128, i => 0)

  predicate Used(e: GptEntry) { U64At(e, 16) != 0 || U64At(e, 24) != 0 }

  /** A partition to convert, with 64-bit LBAs. */
  datatype Part = Part(start: nat, end: nat, kind: int)

  function PartOf(e: GptEntry): Part { Part(U64At(e, 32), U64At(e, 40), MbrType(U64At(e, 0), U64At(e, 8))) }

  /** The sector count as the 64-bit arithmetic of the source computes it. */
  function SectorCount(p: Part): nat { (p.end - p.start + 1) % TWO64 }

  predicate Convertible(p: Part) {
    p.start < TWO32 && p.end < TWO32 && SectorCount(p) < TWO32 && p.kind != -1
  }

  /** Convertible partitions have their sector count in the integers, not only modulo 2^64. */
  lemma ConvertibleCount(p: Part)
    requires Convertible(p)
    ensures SectorCount(p) == p.end - p.start + 1
  {
  }

  function MbrEntry(p: Part): (r: seq<Byte>)
    requires 0 <= p.kind < 256
    ensures |r| == 16
  {
    [0] + LbaToChs(p.start) + [p.kind] + LbaToChs(p.end) + LittleEndian(p.start % TWO32, 4)
      + LittleEndian(SectorCount(p) % TWO32, 4)
  }

  /** What a BIOS reads back from an entry made from a convertible partition. */
  lemma MbrEntryDecodes(p: Part)
    requires Convertible(p) && 0 <= p.kind < 256
    ensures var m := MbrEntry(p);
      && U32At(m, 8) == p.start && U32At(m, 12) == p.end - p.start + 1 && m[0] == 0 && m[4] == p.kind
      && ChsToLba(m[1..4]) == Min(p.start, 1024 * 255 * 63 - 1)
      && ChsToLba(m[5..8]) == Min(p.end, 1024 * 255 * 63 - 1)
  {
    hide LbaToChs, ChsToLba, LittleEndian, FromLittleEndian;
    ConvertibleCount(p);
    WidthLimits();
    DecodeEncodeInt(p.start, 4);
    DecodeEncodeInt(SectorCount(p), 4);
    ChsSaturates(p.start);
    ChsSaturates(p.end);
    var m := MbrEntry(p);
    assert m[8..12] == LittleEndian(p.start, 4) && m[12..16] == LittleEndian(SectorCount(p), 4);
    assert m[1..4] == LbaToChs(p.start) && m[5..8] == LbaToChs(p.end);
  }

  // ------------------------------------------------------------------ the layout on disk

  /** A slice between two parts of a concatenation. */
  lemma Between(a: seq<Byte>, b: seq<Byte>, c: seq<Byte>)
    ensures (a + b + c)[|a|..|a| + |b|] == b
  {
  }

  lemma NumberAt(s: seq<Byte>, a: seq<Byte>, x: nat, c: seq<Byte>, width: nat)
    requires (width == 4 && x < TWO32) || (width == 8 && x < TWO64)
    requires s == a + LittleEndian(x, width) + c
    ensures width == 4 ==> U32At(s, |a|) == x
    ensures width == 8 ==> U64At(s, |a|) == x
  {
    hide LittleEndian, FromLittleEndian;
    WidthLimits();
    DecodeEncodeInt(x, width);
    Between(a, LittleEndian(x, width), c);
  }

  /** A GPT entry as section 5.3.3 of the UEFI Specification lays it out is read as its first and last
      block and its type, and it is used if its unique GUID is not zero. */
  lemma EntryLayout(e: GptEntry, kind: seq<Byte>, unique: seq<Byte>, first: nat, last: nat, rest: seq<Byte>)
    requires |kind| == |unique| == 16 && first < TWO64 && last < TWO64
    requires e == kind + unique + LittleEndian(first, 8) + LittleEndian(last, 8) + rest
    ensures PartOf(e).start == first && PartOf(e).end == last
    ensures PartOf(e).kind == MbrType(FromLittleEndian(kind[..8]), FromLittleEndian(kind[8..]))
    ensures Used(e) <==> exists i :: 0 <= i < 16 && unique[i] != 0
  {
    hide LittleEndian, FromLittleEndian, MbrType;
    var a, b := LittleEndian(first, 8), LittleEndian(last, 8);
    assert e == (kind + unique) + a + (b + rest) && e == (kind + unique + a) + b + rest;
    NumberAt(e, kind + unique, first, b + rest, 8);
    NumberAt(e, kind + unique + a, last, rest, 8);
    assert e[0..8] == kind[..8] && e[8..16] == kind[8..];
    assert e[16..24] == unique[..8] && e[24..32] == unique[8..];
    ZeroIff(unique[..8]);
    ZeroIff(unique[8..]);
    assert forall i :: 0 <= i < 8 ==> unique[..8][i] == unique[i] && unique[8..][i] == unique[8 + i];
    assert forall i :: 8 <= i < 16 ==> unique[i] == unique[8..][i - 8];
  }

  lemma {:induction false} ZeroIff(s: seq<Byte>)
    ensures FromLittleEndian(s) == 0 <==> forall i :: 0 <= i < |s| ==> s[i] == 0
  {
    if s != [] {
      ZeroIff(s[1..]);
      assert forall i :: 1 <= i < |s| ==> s[i] == s[1..][i - 1];
      assert forall i :: 0 <= i < |s| - 1 ==> s[1..][i] == s[i + 1];
    }
  }

  /** EFI system partition C12A7328-F81F-11D2-BA4B-00A0C93EC93B, basic data
      EBD0A0A2-B9E5-4433-87C0-68B6B72699C7 and HFS+ 48465300-0000-11AA-AA11-00306543ECAC as on disk. */
  const EFI_SYSTEM: seq<Byte> :=
    [0x28, 0x73, 0x2a, 0xc1, 0x1f, 0xf8, 0xd2, 0x11, 0xba, 0x4b, 0x00, 0xa0, 0xc9, 0x3e, 0xc9, 0x3b]
  const BASIC_DATA: seq<Byte> :=
    [0xa2, 0xa0, 0xd0, 0xeb, 0xe5, 0xb9, 0x33, 0x44, 0x87, 0xc0, 0x68, 0xb6, 0xb7, 0x26, 0x99, 0xc7]
  const HFS_PLUS: seq<Byte> :=
    [0x00, 0x53, 0x46, 0x48, 0x00, 0x00, 0xaa, 0x11, 0xaa, 0x11, 0x00, 0x30, 0x65, 0x43, 0xec, 0xac]

  /** The MBR type of a partition with the 16 type bytes `kind`: exactly three types have one. */
  lemma TypeOf(kind: seq<Byte>)
    requires |kind| == 16
    ensures MbrType(FromLittleEndian(kind[..8]), FromLittleEndian(kind[8..])) ==
      if kind == EFI_SYSTEM then 0xef else if kind == BASIC_DATA then 0x07 else if kind == HFS_PLUS then 0xaf else -1
  {
    hide FromLittleEndian;
    SameNumber(kind[..8], EFI_SYSTEM[..8]);
    SameNumber(kind[8..], EFI_SYSTEM[8..]);
    SameNumber(kind[..8], BASIC_DATA[..8]);
    SameNumber(kind[8..], BASIC_DATA[8..]);
    SameNumber(kind[..8], HFS_PLUS[..8]);
    SameNumber(kind[8..], HFS_PLUS[8..]);
    EightBytes(EFI_SYSTEM[..8]);
    EightBytes(EFI_SYSTEM[8..]);
    EightBytes(BASIC_DATA[..8]);
    EightBytes(BASIC_DATA[8..]);
    EightBytes(HFS_PLUS[..8]);
    EightBytes(HFS_PLUS[8..]);
    assert kind == kind[..8] + kind[8..];
    assert EFI_SYSTEM == EFI_SYSTEM[..8] + EFI_SYSTEM[8..] && BASIC_DATA == BASIC_DATA[..8] + BASIC_DATA[8..];
    assert HFS_PLUS == HFS_PLUS[..8] + HFS_PLUS[8..];
  }

  lemma SameNumber(a: seq<Byte>, b: seq<Byte>)
    requires |a| == |b|
    ensures FromLittleEndian(a) == FromLittleEndian(b) <==> a == b
  {
    EncodeDecodeInt(a);
    EncodeDecodeInt(b);
  }

  /** In the integers a partition can be converted if its addresses and its length fit 32 bits, it does
      not end more than one block before its start and its type is known. */
  lemma ConvertibleIff(p: Part)
    requires p.start < TWO64 && p.end < TWO64
    ensures Convertible(p) <==>
      && p.start < 0x1_0000_0000 && p.end < 0x1_0000_0000 && p.kind != -1
      && 0 <= p.end - p.start + 1 < 0x1_0000_0000
  {
  }

  /** Entry `i` of a partition table is at byte `16 * i`; entries that are not used are zero. */
  lemma TableLayout(parts: seq<Part>, i: nat)
    requires ValidParts(parts) && i < 4
    ensures Table(parts)[16 * i..16 * i + 16] == if i < |parts| then MbrEntry(parts[i]) else seq(16, k => 0)
  {
    hide MbrEntry;
    var slice := Table(parts)[16 * i..16 * i + 16];
    assert forall k :: 0 <= k < 16 ==>
      slice[k] == Table(parts)[16 * i + k] && (16 * i + k) / 16 == i && (16 * i + k) % 16 == k;
  }

  /** The three bytes of a CHS address: head, cylinder bits 8 and 9 with the sector, cylinder bits 0 to 7;
      sectors count from 1, and there are 255 heads and 63 sectors. */
  lemma ChsBytes(cylinder: nat, head: nat, sector: nat)
    requires cylinder < 1024 && head < 255 && 1 <= sector <= 63
    ensures LbaToChs((cylinder * 255 + head) * 63 + sector - 1)
         == [head, cylinder / 256 * 64 + sector, cylinder % 256]
  {
    var lba := (cylinder * 255 + head) * 63 + sector - 1;
    assert lba / 63 == cylinder * 255 + head && lba % 63 == sector - 1;
    assert lba / 63 / 255 == cylinder && lba / 63 % 255 == head;
  }

  predicate ValidParts(parts: seq<Part>) {
    |parts| <= 4 && forall i :: 0 <= i < |parts| ==> Convertible(parts[i]) && 0 <= parts[i].kind < 256
  }

  /** The 64 bytes of an MBR partition table holding `parts`. */
  function Table(parts: seq<Part>): (r: seq<Byte>)
    requires ValidParts(parts)
    ensures |r| == 64
  {
    seq(64, o requires 0 <= o < 64 => if o / 16 < |parts| then MbrEntry(parts[o / 16])[o % 16] else 0)
  }

  // ------------------------------------------------------------------ the entries of a GPT

  predicate EntriesInDisk(flat: seq<Byte>, base: nat, size: nat, n: nat) {
    forall i: nat {:trigger i * size} :: i < n ==> base + i * size + 128 <= |flat|
  }

  /** The partitions of the used entries among the first `n`, in order. */
  function Gathered(flat: seq<Byte>, base: nat, size: nat, n: nat): (r: seq<Part>)
    requires EntriesInDisk(flat, base, size, n)
  {
    if n == 0 then []
    else
      var at := base + (n - 1) * size;
      var e := flat[at..at + 128];
      Gathered(flat, base, size, n - 1) + (if Used(e) then [PartOf(e)] else [])
  }

  /** The 128 bytes of entry `i`, if the disk has them. */
  function EntryAt(flat: seq<Byte>, base: nat, size: nat, i: nat): GptEntry {
    var at := base + i * size;
    if 0 <= at && at + 128 <= |flat| then flat[at..at + 128] else seq(128, k => 0)
  }

  /** `places` are the numbers, in order, of exactly the used ones among the first `n` entries, and
      `parts` the partitions there. */
  ghost predicate PicksUsed(flat: seq<Byte>, base: nat, size: nat, n: nat, places: seq<nat>, parts: seq<Part>) {
    && |places| == |parts|
    && (forall k, l :: 0 <= k < l < |places| ==> places[k] < places[l])
    && (forall k :: 0 <= k < |places| ==> places[k] < n)
    && (forall k :: 0 <= k < |places| ==> parts[k] == PartOf(EntryAt(flat, base, size, places[k])))
    && (forall i: nat :: i < n ==> (i in places <==> Used(EntryAt(flat, base, size, i))))
  }

  /** Exactly the used entries are gathered, in order. */
  lemma {:induction false} GatheredAre(flat: seq<Byte>, base: nat, size: nat, n: nat) returns (places: seq<nat>)
    requires EntriesInDisk(flat, base, size, n)
    ensures PicksUsed(flat, base, size, n, places, Gathered(flat, base, size, n))
  {
    if n == 0 {
      places := [];
    } else {
      hide PicksUsed, Gathered;
      assert EntriesInDisk(flat, base, size, n - 1);
      var before := GatheredAre(flat, base, size, n - 1);
      places := before + if Used(EntryAt(flat, base, size, n - 1)) then [n - 1] else [];
      OneMoreGathered(flat, base, size, n);
      OneMorePicked(flat, base, size, n, before, Gathered(flat, base, size, n - 1));
    }
  }

  lemma OneMorePicked(flat: seq<Byte>, base: nat, size: nat, n: nat, places: seq<nat>, parts: seq<Part>)
    requires n > 0 && PicksUsed(flat, base, size, n - 1, places, parts)
    ensures var e := EntryAt(flat, base, size, n - 1);
      if Used(e) then PicksUsed(flat, base, size, n, places + [n - 1], parts + [PartOf(e)])
      else PicksUsed(flat, base, size, n, places + [], parts + [])
  {
    hide U64At, MbrType;
    assert places + [] == places && parts + [] == parts;
  }

  lemma OneMoreGathered(flat: seq<Byte>, base: nat, size: nat, n: nat)
    requires n > 0 && EntriesInDisk(flat, base, size, n) && EntriesInDisk(flat, base, size, n - 1)
    ensures var e := EntryAt(flat, base, size, n - 1);
      Gathered(flat, base, size, n) == Gathered(flat, base, size, n - 1) + if Used(e) then [PartOf(e)] else []
  {
    hide Used, PartOf;
    MulNonNegative(n - 1, size);
  }

  lemma {:induction false} GatheredGrows(flat: seq<Byte>, base: nat, size: nat, i: nat, n: nat)
    requires i <= n && EntriesInDisk(flat, base, size, n)
    ensures EntriesInDisk(flat, base, size, i) && Gathered(flat, base, size, i) <= Gathered(flat, base, size, n)
    decreases n
  {
    if i < n {
      GatheredGrows(flat, base, size, i, n - 1);
    }
  }

  /** The GPTs that are converted: every entry readable, at most four used, all convertible. */
  predicate Fits(flat: seq<Byte>, base: nat, size: nat, n: nat) {
    && EntriesInDisk(flat, base, size, n)
    && |Gathered(flat, base, size, n)| <= 4
    && forall i :: 0 <= i < |Gathered(flat, base, size, n)| ==> Convertible(Gathered(flat, base, size, n)[i])
  }
}
