/** The one-block write-back cache of limine.c over a device whose block transfers may fail.

    Everything is a function of the device state and of a fault oracle that says, for each
    block transfer in turn, whether it works and what a failing one leaves behind. */
module BlockCache {
  import opened Bytes

  /** What one block transfer does. A failing write stores only the bytes at the offsets in
      `landed`; a failing read overwrites a prefix of the buffer with `junk`. */
  datatype Fault = Fine | Fails(landed: set<nat>, junk: seq<Byte>)

  datatype Hardware = Hardware(bs: nat, faults: nat -> Fault) {
    predicate Valid() { bs == 512 || bs == 2048 || bs == 4096 }
  }

  /** The device file and the cache globals. `clock` counts block transfers. */
  datatype Dev = Dev(disk: seq<Byte>, cache: seq<Byte>, cached: nat, dirty: bool, clock: nat)

  datatype Outcome = Outcome(dev: Dev, ok: bool, done: nat)
  datatype ReadOutcome = ReadOutcome(dev: Dev, ok: bool, data: seq<Byte>)

  /** The block number that means "nothing cached". */
  const NO_BLOCK: nat := 0xFFFF_FFFF_FFFF_FFFF

  const MAX_DISK: nat := 0x8000_0000_0000_0000

  /** Whether the file holds the whole of block `block`. */
  predicate Present(bs: nat, disk: seq<Byte>, block: nat)
    requires bs > 0
  {
    block < |disk| / bs
  }

  lemma PresentBound(bs: nat, disk: seq<Byte>, block: nat)
    requires bs > 0
    ensures Present(bs, disk, block) <==> block * bs + bs <= |disk|
  {
    var n := |disk| / bs;
    assert |disk| == n * bs + |disk| % bs;
    SmallMultiple(n - block, bs);
    assert (n - block) * bs == n * bs - block * bs;
    if n <= block { MulNonNegative(block - n, bs); }
  }

  function BlockOf(bs: nat, disk: seq<Byte>, block: nat): (r: seq<Byte>)
    requires bs > 0 && Present(bs, disk, block)
    ensures |r| == bs
  {
    PresentBound(bs, disk, block);
    disk[block * bs..block * bs + bs]
  }

  /** The disk after `data` reached block `block`. */
  function StoreBlock(bs: nat, disk: seq<Byte>, block: nat, data: seq<Byte>): (r: seq<Byte>)
    requires bs > 0 && |data| == bs
    ensures |r| == |disk|
  {
    seq(|disk|, p requires 0 <= p < |disk| => if p / bs == block then data[p % bs] else disk[p])
  }

  /** The disk after only the bytes of `data` at the offsets in `landed` reached block `block`. */
  function TearBlock(bs: nat, disk: seq<Byte>, block: nat, data: seq<Byte>, landed: set<nat>): (r: seq<Byte>)
    requires bs > 0 && |data| == bs
    ensures |r| == |disk|
  {
    seq(|disk|, p requires 0 <= p < |disk| =>
      if p / bs == block && p % bs in landed then data[p % bs] else disk[p])
  }

  /** A failing read leaves a prefix of the buffer overwritten. */
  function Clobber(cache: seq<Byte>, junk: seq<Byte>): (r: seq<Byte>)
    ensures |r| == |cache|
  {
    if |junk| <= |cache| then junk + cache[|junk|..] else cache
  }

  /** The structural facts that hold of the device globals at all times. */
  ghost predicate Sane(hw: Hardware, d: Dev) {
    && hw.Valid()
    && |d.cache| == hw.bs
    && |d.disk| <= MAX_DISK
    && (d.dirty ==> Present(hw.bs, d.disk, d.cached))
  }

  /** Besides being sane, the tag `cached` does not lie about the buffer. This is lost when a
      read fails after overwriting the buffer, and regained by resetting the tag. */
  ghost predicate Coherent(hw: Hardware, d: Dev) {
    && Sane(hw, d)
    && (d.cached != NO_BLOCK ==>
          && Present(hw.bs, d.disk, d.cached)
          && (!d.dirty ==> d.cache == BlockOf(hw.bs, d.disk, d.cached)))
  }

  /** The flat disk a program using the device sees: the disk overlaid by the dirty block. */
  ghost function View(hw: Hardware, d: Dev): (r: seq<Byte>)
    requires Sane(hw, d)
    ensures |r| == |d.disk|
  {
    if d.dirty then StoreBlock(hw.bs, d.disk, d.cached, d.cache) else d.disk
  }

  function FlushCache(hw: Hardware, d: Dev): (r: Outcome)
    requires hw.bs > 0 && |d.cache| == hw.bs
    ensures |r.dev.cache| == hw.bs && r.dev.cached == d.cached && |r.dev.disk| == |d.disk|
  {
    if !d.dirty then Outcome(d, true, 0)
    else match hw.faults(d.clock)
      case Fine =>
        Outcome(d.(disk := StoreBlock(hw.bs, d.disk, d.cached, d.cache),
                   dirty := false, clock := d.clock + 1), true, 0)
      case Fails(landed, _) =>
        Outcome(d.(disk := TearBlock(hw.bs, d.disk, d.cached, d.cache, landed),
                   clock := d.clock + 1), false, 0)
  }

  /** The transfer of one block into the buffer; the last, incomplete block of a file is a
      short read, which counts as a failure but has already overwritten the buffer. */
  function LoadBlock(hw: Hardware, d: Dev, block: nat): (r: Outcome)
    requires hw.bs > 0 && |d.cache| == hw.bs
    ensures |r.dev.cache| == hw.bs && r.dev.disk == d.disk
  {
    match hw.faults(d.clock)
    case Fine =>
      if Present(hw.bs, d.disk, block) then
        Outcome(d.(cache := BlockOf(hw.bs, d.disk, block), cached := block, clock := d.clock + 1), true, 0)
      else
        var tail := if block * hw.bs <= |d.disk| then d.disk[block * hw.bs..] else [];
        Outcome(d.(cache := Clobber(d.cache, tail), clock := d.clock + 1), false, 0)
    case Fails(_, junk) =>
      Outcome(d.(cache := Clobber(d.cache, junk), clock := d.clock + 1), false, 0)
  }

  function CacheBlock(hw: Hardware, d: Dev, block: nat): (r: Outcome)
    requires hw.bs > 0 && |d.cache| == hw.bs
    ensures |r.dev.cache| == hw.bs && |r.dev.disk| == |d.disk|
  {
    if d.cached == block then Outcome(d, true, 0)
    else
      var f := FlushCache(hw, d);
      if !f.ok then f else LoadBlock(hw, f.dev, block)
  }

  /** What a failing transfer does: a write of the dirty block fails and leaves the new bytes just at the
      offsets that landed, and a read fails, keeps the tag and overwrites the buffer with the junk. */
  lemma FaultsBite(hw: Hardware, d: Dev, block: nat, landed: set<nat>, junk: seq<Byte>)
    requires hw.bs > 0 && |d.cache| == hw.bs && hw.faults(d.clock) == Fails(landed, junk)
    ensures var f := FlushCache(hw, d);
      d.dirty ==> !f.ok && f.dev.dirty && forall p :: 0 <= p < |d.disk| ==>
        f.dev.disk[p] == if p / hw.bs == d.cached && p % hw.bs in landed then d.cache[p % hw.bs] else d.disk[p]
    ensures var r := LoadBlock(hw, d, block);
      !r.ok && r.dev.cached == d.cached && (|junk| <= hw.bs ==> r.dev.cache == junk + d.cache[|junk|..])
  {
  }

  /** Every mixture of old and new bytes in the block is what some failing write leaves. */
  lemma AnyMixtureCanLand(bs: nat, disk: seq<Byte>, block: nat, data: seq<Byte>, after: seq<Byte>)
    returns (landed: set<nat>)
    requires bs > 0 && |data| == bs && |after| == |disk|
    requires forall p :: 0 <= p < |disk| ==> after[p] == disk[p] || (p / bs == block && after[p] == data[p % bs])
    ensures TearBlock(bs, disk, block, data, landed) == after
  {
    landed := set o: nat | o < bs && block * bs + o < |after| && after[block * bs + o] == data[o];
    forall p | 0 <= p < |disk| ensures TearBlock(bs, disk, block, data, landed)[p] == after[p] {
      assert p == p / bs * bs + p % bs;
    }
  }

  /** How much of the next `n` bytes at `pos` lies in the block of `pos`. */
  function Chunk(bs: nat, pos: nat, n: nat): (r: nat)
    requires bs > 0
    ensures r <= n && pos % bs + r <= bs && (n > 0 ==> r > 0)
  {
    Min(n, bs - pos % bs)
  }

  /** `_device_read` of `n` bytes at `pos`; positions wrap around at 64 bits. */
  function ReadAt(hw: Hardware, d: Dev, pos: nat, n: nat): (r: ReadOutcome)
    requires hw.bs > 0 && |d.cache| == hw.bs
    ensures |r.dev.cache| == hw.bs && |r.dev.disk| == |d.disk| && (r.ok ==> |r.data| == n)
    decreases n
  {
    if n == 0 then ReadOutcome(d, true, [])
    else
      var c := CacheBlock(hw, d, pos / hw.bs);
      if !c.ok then ReadOutcome(c.dev, false, [])
      else
        var k := Chunk(hw.bs, pos, n);
        var rest := ReadAt(hw, c.dev, (pos + k) % TWO64, n - k);
        rest.(data := c.dev.cache[pos % hw.bs..pos % hw.bs + k] + rest.data)
  }

  /** The device after a piece of a write was copied into the cached block. */
  function Dirtied(hw: Hardware, c: Dev, pos: nat, piece: seq<Byte>): (r: Dev)
    requires hw.bs > 0
    ensures |r.cache| == |c.cache| && r.disk == c.disk
  {
    c.(cache := Patch(c.cache, pos % hw.bs, piece), dirty := true)
  }

  /** The copying loop of `_device_write`; `done` is its progress when it stops. */
  function WriteAt(hw: Hardware, d: Dev, pos: nat, buf: seq<Byte>): (r: Outcome)
    requires hw.bs > 0 && |d.cache| == hw.bs
    ensures |r.dev.cache| == hw.bs && |r.dev.disk| == |d.disk|
    ensures r.done <= |buf| && (r.ok <==> r.done == |buf|)
    decreases |buf|
  {
    if buf == [] then Outcome(d, true, 0)
    else
      var c := CacheBlock(hw, d, pos / hw.bs);
      if !c.ok then Outcome(c.dev, false, 0)
      else
        var k := Chunk(hw.bs, pos, |buf|);
        var dirtied := Dirtied(hw, c.dev, pos, buf[..k]);
        var rest := WriteAt(hw, dirtied, (pos + k) % TWO64, buf[k..]);
        rest.(done := k + rest.done)
  }

  lemma EmptyTransfers(hw: Hardware, d: Dev, pos: nat)
    requires hw.bs > 0 && |d.cache| == hw.bs
    ensures ReadAt(hw, d, pos, 0) == ReadOutcome(d, true, [])
    ensures WriteAt(hw, d, pos, []) == Outcome(d, true, 0)
  {
  }

  lemma ReadAtStep(hw: Hardware, d: Dev, pos: nat, n: nat, c: Outcome, k: nat, next: nat, rest: ReadOutcome)
    requires hw.bs > 0 && |d.cache| == hw.bs && n > 0
    requires c == CacheBlock(hw, d, pos / hw.bs) && c.ok
    requires k == Chunk(hw.bs, pos, n) && next == (pos + k) % TWO64
    requires rest == ReadAt(hw, c.dev, next, n - k)
    ensures ReadAt(hw, d, pos, n) == rest.(data := c.dev.cache[pos % hw.bs..pos % hw.bs + k] + rest.data)
  {
    hide CacheBlock, Chunk;
  }

  lemma WriteAtStep(hw: Hardware, d: Dev, pos: nat, buf: seq<Byte>, c: Outcome, k: nat, next: nat, rest: Outcome)
    requires hw.bs > 0 && |d.cache| == hw.bs && buf != []
    requires c == CacheBlock(hw, d, pos / hw.bs) && c.ok
    requires k == Chunk(hw.bs, pos, |buf|) && next == (pos + k) % TWO64
    requires rest == WriteAt(hw, Dirtied(hw, c.dev, pos, buf[..k]), next, buf[k..])
    ensures WriteAt(hw, d, pos, buf) == rest.(done := k + rest.done)
  {
    hide CacheBlock, Chunk, Dirtied;
  }

  lemma ReadStoppedAtCache(hw: Hardware, d: Dev, pos: nat, n: nat)
    requires hw.bs > 0 && |d.cache| == hw.bs && n > 0 && !CacheBlock(hw, d, pos / hw.bs).ok
    ensures ReadAt(hw, d, pos, n) == ReadOutcome(CacheBlock(hw, d, pos / hw.bs).dev, false, [])
  {
  }

  lemma StoppedAtCache(hw: Hardware, d: Dev, pos: nat, buf: seq<Byte>)
    requires hw.bs > 0 && |d.cache| == hw.bs && buf != [] && !CacheBlock(hw, d, pos / hw.bs).ok
    ensures WriteAt(hw, d, pos, buf) == Outcome(CacheBlock(hw, d, pos / hw.bs).dev, false, 0)
  {
  }

  // ---------------------------------------------------------------- refinement of a flat disk

  /** Every byte of `after` is the byte of `disk` or of `view` at the same place. */
  ghost predicate Mixture(after: seq<Byte>, disk: seq<Byte>, view: seq<Byte>) {
    && |after| == |disk| == |view|
    && forall p {:trigger after[p]} :: 0 <= p < |after| ==> after[p] == disk[p] || after[p] == view[p]
  }

  /** A real block number is never the sentinel. */
  lemma SentinelIsNoBlock(hw: Hardware, pos: nat)
    requires hw.Valid() && pos < TWO64
    ensures pos / hw.bs != NO_BLOCK
  {
  }

  lemma FlushKeepsView(hw: Hardware, d: Dev)
    requires Sane(hw, d)
    ensures var r := FlushCache(hw, d);
      && Sane(hw, r.dev) && View(hw, r.dev) == View(hw, d)
      && Mixture(r.dev.disk, d.disk, View(hw, d))
      && (r.ok ==> !r.dev.dirty && r.dev.disk == View(hw, d))
      && (r.ok && Coherent(hw, d) ==> Coherent(hw, r.dev))
  {
  }

  lemma InBlock(bs: nat, block: nat, o: nat)
    requires 0 <= o < bs
    ensures (block * bs + o) / bs == block && (block * bs + o) % bs == o
  {
    var p := block * bs + o;
    SmallMultiple(p / bs - block, bs);
    assert (p / bs - block) * bs == (p / bs) * bs - block * bs;
  }

  lemma CacheBlockKeepsView(hw: Hardware, d: Dev, block: nat)
    requires Coherent(hw, d) && block != NO_BLOCK
    ensures Keeps(hw, d, CacheBlock(hw, d, block).dev)
    ensures var r := CacheBlock(hw, d, block); r.ok ==> Coherent(hw, r.dev) && r.dev.cached == block
  {
  }

  /** Once a block is cached, the buffer shows the flat disk there. */
  lemma BufferShowsView(hw: Hardware, d: Dev, pos: nat)
    requires Coherent(hw, d) && d.cached != NO_BLOCK && pos / hw.bs == d.cached
    ensures pos < |d.disk| && pos - pos % hw.bs + hw.bs <= |d.disk|
    ensures View(hw, d)[pos] == d.cache[pos % hw.bs]
  {
  }

  lemma SameBlock(bs: nat, pos: nat, i: nat)
    requires bs > 0 && pos % bs + i < bs
    ensures (pos + i) / bs == pos / bs && (pos + i) % bs == pos % bs + i
  {
    assert pos == (pos / bs) * bs + pos % bs;
    InBlock(bs, pos / bs, pos % bs + i);
  }

  lemma BufferShowsChunk(hw: Hardware, d: Dev, pos: nat, k: nat)
    requires Coherent(hw, d) && d.cached != NO_BLOCK && pos / hw.bs == d.cached
    requires pos % hw.bs + k <= hw.bs
    ensures pos + k <= |d.disk|
    ensures View(hw, d)[pos..pos + k] == d.cache[pos % hw.bs..pos % hw.bs + k]
  {
    BufferShowsView(hw, d, pos);
    var seen, held := View(hw, d)[pos..pos + k], d.cache[pos % hw.bs..pos % hw.bs + k];
    hide View, Coherent;
    forall i | 0 <= i < k
      ensures seen[i] == held[i]
    {
      BufferShowsByte(hw, d, pos, i);
    }
  }

  lemma BufferShowsByte(hw: Hardware, d: Dev, pos: nat, i: nat)
    requires Coherent(hw, d) && d.cached != NO_BLOCK && pos / hw.bs == d.cached && pos % hw.bs + i < hw.bs
    ensures pos + i < |d.disk| && View(hw, d)[pos + i] == d.cache[pos % hw.bs + i]
  {
    hide View;
    SameBlock(hw.bs, pos, i);
    BufferShowsView(hw, d, pos + i);
  }

  /** `e` follows `d` without changing the flat disk. */
  ghost predicate Keeps(hw: Hardware, d: Dev, e: Dev) {
    && Sane(hw, d) && Sane(hw, e)
    && View(hw, e) == View(hw, d)
    && Mixture(e.disk, d.disk, View(hw, d))
  }

  lemma KeepsTransitive(hw: Hardware, d: Dev, e: Dev, f: Dev)
    requires Keeps(hw, d, e) && Keeps(hw, e, f)
    ensures Keeps(hw, d, f)
  {
  }

  lemma ReadAtUnfolds(hw: Hardware, d: Dev, pos: nat, n: nat)
    requires Sane(hw, d) && n > 0 && pos + Chunk(hw.bs, pos, n) < TWO64
    requires CacheBlock(hw, d, pos / hw.bs).ok
    ensures
      var c := CacheBlock(hw, d, pos / hw.bs).dev;
      var k := Chunk(hw.bs, pos, n);
      var rest := ReadAt(hw, c, pos + k, n - k);
      ReadAt(hw, d, pos, n) == rest.(data := c.cache[pos % hw.bs..pos % hw.bs + k] + rest.data)
  {
    hide CacheBlock, ReadAt, Chunk;
    var c, k := CacheBlock(hw, d, pos / hw.bs), Chunk(hw.bs, pos, n);
    assert (pos + k) % TWO64 == pos + k;
    ReadAtStep(hw, d, pos, n, c, k, pos + k, ReadAt(hw, c.dev, pos + k, n - k));
  }

  lemma ReadAtStops(hw: Hardware, d: Dev, pos: nat, n: nat)
    requires Coherent(hw, d) && pos < TWO64
    requires n > 0 ==> !CacheBlock(hw, d, pos / hw.bs).ok
    ensures Keeps(hw, d, ReadAt(hw, d, pos, n).dev)
    ensures ReadAt(hw, d, pos, n).ok ==> n == 0 && Coherent(hw, ReadAt(hw, d, pos, n).dev)
  {
  }

  lemma ReadStep(hw: Hardware, d: Dev, c: Dev, pos: nat, k: nat, n: nat, rest: ReadOutcome)
    requires Keeps(hw, d, c) && Coherent(hw, c) && c.cached != NO_BLOCK && pos / hw.bs == c.cached
    requires k <= n && pos % hw.bs + k <= hw.bs
    requires Keeps(hw, c, rest.dev)
    requires rest.ok && n > k ==> pos + n <= |c.disk| && rest.data == View(hw, c)[pos + k..pos + n]
    requires rest.ok && n == k ==> rest.data == []
    ensures Keeps(hw, d, rest.dev)
    ensures rest.ok ==>
      && pos + n <= |d.disk|
      && c.cache[pos % hw.bs..pos % hw.bs + k] + rest.data == View(hw, d)[pos..pos + n]
  {
    BufferShowsChunk(hw, c, pos, k);
    KeepsTransitive(hw, d, c, rest.dev);
    if rest.ok {
      AppendSlices(View(hw, d), pos, k, n, c.cache[pos % hw.bs..pos % hw.bs + k], rest.data);
    }
  }

  /** A successful read returns the flat disk's bytes; no read changes the flat disk. */
  lemma {:induction false} ReadRefinesFlatDisk(hw: Hardware, d: Dev, pos: nat, n: nat)
    requires Coherent(hw, d) && pos < TWO64
    ensures Keeps(hw, d, ReadAt(hw, d, pos, n).dev)
    ensures ReadAt(hw, d, pos, n).ok ==> Coherent(hw, ReadAt(hw, d, pos, n).dev)
    ensures ReadAt(hw, d, pos, n).ok && n > 0 ==>
      pos + n <= |d.disk| && ReadAt(hw, d, pos, n).data == View(hw, d)[pos..pos + n]
    decreases n
  {
    hide FlushCache, LoadBlock, CacheBlock, ReadAt, Mixture, Keeps, View;
    if n > 0 && CacheBlock(hw, d, pos / hw.bs).ok {
      SentinelIsNoBlock(hw, pos);
      CacheBlockKeepsView(hw, d, pos / hw.bs);
      var c, k := CacheBlock(hw, d, pos / hw.bs).dev, Chunk(hw.bs, pos, n);
      BufferShowsChunk(hw, c, pos, k);
      ReadRefinesFlatDisk(hw, c, pos + k, n - k);
      ReadStep(hw, d, c, pos, k, n, ReadAt(hw, c, pos + k, n - k));
      ReadAtUnfolds(hw, d, pos, n);
    } else {
      ReadAtStops(hw, d, pos, n);
    }
  }

  lemma AppendSlices(view: seq<Byte>, pos: nat, k: nat, n: nat, head: seq<Byte>, tail: seq<Byte>)
    requires k <= n && pos + k <= |view| && head == view[pos..pos + k]
    requires n > k ==> pos + n <= |view| && tail == view[pos + k..pos + n]
    requires n == k ==> tail == []
    ensures head + tail == view[pos..pos + n]
  {
  }

  /** What copying one chunk into the buffer does to the flat disk. */
  lemma PatchBufferPatchesView(hw: Hardware, d: Dev, pos: nat, piece: seq<Byte>)
    requires Coherent(hw, d) && d.cached != NO_BLOCK && pos / hw.bs == d.cached
    requires pos % hw.bs + |piece| <= hw.bs
    ensures var e := d.(cache := Patch(d.cache, pos % hw.bs, piece), dirty := true);
      Coherent(hw, e) && View(hw, e) == Patch(View(hw, d), pos, piece)
  {
    var bs := hw.bs;
    var e := d.(cache := Patch(d.cache, pos % bs, piece), dirty := true);
    forall p | 0 <= p < |d.disk|
      ensures View(hw, e)[p] == Patch(View(hw, d), pos, piece)[p]
    {
      SameChunk(bs, pos, |piece|, p);
      if p / bs == d.cached {
        BufferShowsView(hw, d, p);
      }
    }
  }

  /** The positions of a chunk, by block and offset. */
  lemma SameChunk(bs: nat, pos: nat, n: nat, p: nat)
    requires bs > 0 && pos % bs + n <= bs
    ensures pos <= p < pos + n <==> p / bs == pos / bs && pos % bs <= p % bs < pos % bs + n
    ensures p / bs == pos / bs ==> p - pos == p % bs - pos % bs
  {
    assert p == (p / bs) * bs + p % bs && pos == (pos / bs) * bs + pos % bs;
    SmallMultiple(p / bs - pos / bs, bs);
    Distributes(p / bs, pos / bs, bs);
  }

  /** `after` holds, byte by byte, what `disk` or `view` held or a byte of `buf` written at `pos`. */
  ghost predicate Landed(disk: seq<Byte>, view: seq<Byte>, pos: nat, buf: seq<Byte>, after: seq<Byte>) {
    && |after| == |disk| == |view|
    && forall p {:trigger after[p]} :: 0 <= p < |after| ==>
         after[p] == disk[p] || after[p] == view[p] || (pos <= p < pos + |buf| && after[p] == buf[p - pos])
  }

  lemma WriteAtUnfolds(hw: Hardware, d: Dev, pos: nat, buf: seq<Byte>)
    requires Sane(hw, d) && buf != [] && pos + Chunk(hw.bs, pos, |buf|) < TWO64
    requires CacheBlock(hw, d, pos / hw.bs).ok
    ensures
      var c := CacheBlock(hw, d, pos / hw.bs).dev;
      var k := Chunk(hw.bs, pos, |buf|);
      var e := Dirtied(hw, c, pos, buf[..k]);
      var rest := WriteAt(hw, e, pos + k, buf[k..]);
      WriteAt(hw, d, pos, buf) == rest.(done := k + rest.done)
  {
    hide CacheBlock, WriteAt, Chunk;
    var c, k := CacheBlock(hw, d, pos / hw.bs), Chunk(hw.bs, pos, |buf|);
    assert (pos + k) % TWO64 == pos + k;
    WriteAtStep(hw, d, pos, buf, c, k, pos + k, WriteAt(hw, Dirtied(hw, c.dev, pos, buf[..k]), pos + k, buf[k..]));
  }

  /** From `d` to `e` the flat disk is patched with `buf` at `pos` and the disk follows. */
  ghost predicate Patches(hw: Hardware, d: Dev, e: Dev, pos: nat, buf: seq<Byte>) {
    && Sane(hw, d) && Sane(hw, e)
    && (buf != [] ==> pos + |buf| <= |d.disk|)
    && View(hw, e) == Patch(View(hw, d), pos, buf)
    && Landed(d.disk, View(hw, d), pos, buf, e.disk)
  }

  lemma PatchesCompose(hw: Hardware, d: Dev, e: Dev, f: Dev, pos: nat, a: seq<Byte>, b: seq<Byte>)
    requires Patches(hw, d, e, pos, a) && Patches(hw, e, f, pos + |a|, b)
    ensures Patches(hw, d, f, pos, a + b)
  {
    hide View, Patch, Landed;
    var v := View(hw, d);
    assert (a + b)[..|a|] == a && (a + b)[|a|..] == b;
    PatchSplit(v, pos, a + b, |a|);
    LandedCompose(d.disk, v, e.disk, f.disk, pos, a, b);
  }

  lemma LandedCompose(disk: seq<Byte>, view: seq<Byte>, mid: seq<Byte>, after: seq<Byte>, pos: nat,
                      a: seq<Byte>, b: seq<Byte>)
    requires Landed(disk, view, pos, a, mid) && Landed(mid, Patch(view, pos, a), pos + |a|, b, after)
    ensures Landed(disk, view, pos, a + b, after)
  {
  }

  lemma KeepsThenPatches(hw: Hardware, d: Dev, c: Dev, e: Dev, pos: nat, piece: seq<Byte>)
    requires Keeps(hw, d, c) && Sane(hw, e) && e.disk == c.disk
    requires piece != [] ==> pos + |piece| <= |d.disk|
    requires View(hw, e) == Patch(View(hw, c), pos, piece)
    ensures Patches(hw, d, e, pos, piece)
  {
  }

  lemma WriteAtStops(hw: Hardware, d: Dev, pos: nat, buf: seq<Byte>)
    requires Coherent(hw, d) && pos < TWO64
    requires buf != [] ==> !CacheBlock(hw, d, pos / hw.bs).ok
    ensures Patches(hw, d, WriteAt(hw, d, pos, buf).dev, pos, [])
    ensures WriteAt(hw, d, pos, buf).done == 0
    ensures WriteAt(hw, d, pos, buf).ok ==> Coherent(hw, WriteAt(hw, d, pos, buf).dev)
  {
    if buf != [] {
      SentinelIsNoBlock(hw, pos);
      CacheBlockKeepsView(hw, d, pos / hw.bs);
    }
  }

  /** Writing patches the flat disk with exactly the progress made, and what reached the disk
      is, byte by byte, old content, pending content or content being written. */
  lemma {:induction false} WriteRefinesFlatDisk(hw: Hardware, d: Dev, pos: nat, buf: seq<Byte>)
    requires Coherent(hw, d) && pos < TWO64
    ensures Patches(hw, d, WriteAt(hw, d, pos, buf).dev, pos, buf[..WriteAt(hw, d, pos, buf).done])
    ensures WriteAt(hw, d, pos, buf).ok ==> Coherent(hw, WriteAt(hw, d, pos, buf).dev)
    decreases |buf|
  {
    hide FlushCache, LoadBlock, CacheBlock, WriteAt, Keeps, Patches, View;
    if buf != [] && CacheBlock(hw, d, pos / hw.bs).ok {
      SentinelIsNoBlock(hw, pos);
      CacheBlockKeepsView(hw, d, pos / hw.bs);
      var c, k := CacheBlock(hw, d, pos / hw.bs).dev, Chunk(hw.bs, pos, |buf|);
      var e := Dirtied(hw, c, pos, buf[..k]);
      WriteStep(hw, d, c, e, pos, buf[..k]);
      WriteRefinesFlatDisk(hw, e, pos + k, buf[k..]);
      WriteAtUnfolds(hw, d, pos, buf);
      var rest := WriteAt(hw, e, pos + k, buf[k..]);
      PatchesCompose(hw, d, e, rest.dev, pos, buf[..k], buf[k..][..rest.done]);
      assert buf[..k] + buf[k..][..rest.done] == buf[..k + rest.done];
    } else {
      WriteAtStops(hw, d, pos, buf);
      assert buf[..0] == [];
    }
  }

  lemma WriteStep(hw: Hardware, d: Dev, c: Dev, e: Dev, pos: nat, piece: seq<Byte>)
    requires Keeps(hw, d, c) && Coherent(hw, c) && c.cached != NO_BLOCK && pos / hw.bs == c.cached
    requires pos % hw.bs + |piece| <= hw.bs
    requires e == Dirtied(hw, c, pos, piece)
    ensures Coherent(hw, e) && Patches(hw, d, e, pos, piece) && pos + |piece| <= MAX_DISK
  {
    BufferShowsChunk(hw, c, pos, |piece|);
    PatchBufferPatchesView(hw, c, pos, piece);
    KeepsThenPatches(hw, d, c, e, pos, piece);
  }
}
