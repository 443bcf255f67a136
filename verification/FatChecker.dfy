/** The FAT32 ownership check of Download-FatFaults.cs: every cluster must belong to exactly one
    live chain or be free, whatever the FAT contains. */
module FatChecker {
  import opened Bytes

  /** Values from here on end a chain. */
  const END: nat := 0x0FFF_FFF8
  const SLOT_LIMIT: nat := 4096

  /** The fields of a 32-byte directory slot that the check looks at. */
  datatype Slot = Slot(first: Byte, attributes: Byte, cluster: nat, size: nat) {
    predicate Deleted() { first == 0xE5 }
    predicate LongName() { attributes == 15 }
    predicate Ignored() { first == 0x2E || attributes / 8 % 2 == 1 }
    predicate Directory() { attributes / 16 % 2 == 1 }
    predicate EmptyFile() { size == 0 && cluster == 0 }
  }

  /** The parts of the volume that the check reads. */
  datatype Volume = Volume(table: seq<nat>, mirror: seq<nat>, clusterCount: nat, clusterBytes: nat, root: nat,
                           content: nat -> seq<Slot>, freeSummary: nat)
  {
    predicate Valid() { clusterBytes > 0 && clusterCount + 2 <= END }

    predicate IsCluster(c: nat) { 2 <= c < clusterCount + 2 }

    predicate Known(c: nat) { IsCluster(c) && c < |table| }

    function Next(c: nat): nat
      requires c < |table|
    {
      table[c] % 0x1000_0000
    }

    ghost function Clusters(): set<nat> { set c: nat | 2 <= c < clusterCount + 2 && IsCluster(c) }
  }

  datatype Error = MirrorsDiffer | CrossLink | BadDirectory | LengthDiffers | Unreachable | SummaryDiffers | OutOfTable

  datatype Result<+T> = Ok(value: T) | Err(error: Error)

  // ------------------------------------------------------------------ chains

  /** Following the FAT from `first` visits `chain` and arrives at `next`. */
  ghost predicate Leads(v: Volume, first: nat, chain: seq<nat>, next: nat)
    decreases |chain|
  {
    if chain == [] then first == next
    else first == chain[0] && first < END && v.Known(first) && Leads(v, v.Next(first), chain[1..], next)
  }

  /** `chain` is the whole chain that starts at `first`. */
  ghost predicate IsChain(v: Volume, first: nat, chain: seq<nat>) {
    exists end: nat :: end >= END && Leads(v, first, chain, end)
  }

  lemma {:induction false} LeadsAppend(v: Volume, first: nat, chain: seq<nat>, next: nat)
    requires Leads(v, first, chain, next) && next < END && v.Known(next)
    ensures Leads(v, first, chain + [next], v.Next(next))
    decreases |chain|
  {
    if chain == [] {
      assert chain + [next] == [next];
    } else {
      assert (chain + [next])[1..] == chain[1..] + [next];
      LeadsAppend(v, v.Next(first), chain[1..], next);
    }
  }

  /** A cluster in a chain is allocated and in range: its FAT value is not that of a free one. */
  lemma {:induction false} ChainIsAllocated(v: Volume, first: nat, chain: seq<nat>, next: nat, i: nat)
    requires Leads(v, first, chain, next) && next >= END && i < |chain|
    ensures v.Known(chain[i]) && v.Next(chain[i]) != 0
    decreases |chain|
  {
    if i > 0 {
      ChainIsAllocated(v, v.Next(first), chain[1..], next, i - 1);
    } else if |chain| > 1 {
      assert chain[1..][0] == v.Next(first);
    }
  }

  /** The chain from a given start is unique. */
  lemma {:induction false} ChainIsUnique(v: Volume, first: nat, a: seq<nat>, b: seq<nat>)
    requires IsChain(v, first, a) && IsChain(v, first, b)
    ensures a == b
    decreases |a|
  {
    if a != [] && b != [] {
      var x: nat :| x >= END && Leads(v, first, a, x);
      var y: nat :| y >= END && Leads(v, first, b, y);
      assert Leads(v, v.Next(first), a[1..], x) && Leads(v, v.Next(first), b[1..], y);
      ChainIsUnique(v, v.Next(first), a[1..], b[1..]);
      assert a == [a[0]] + a[1..] && b == [b[0]] + b[1..];
    }
  }

  ghost function Elements(chain: seq<nat>): set<nat> { set c | c in chain }

  ghost predicate NoRepeats(chain: seq<nat>) { forall i, j :: 0 <= i < j < |chain| ==> chain[i] != chain[j] }

  /** The directory slots stored along a chain. */
  function SlotsOf(v: Volume, chain: seq<nat>): seq<Slot> {
    if chain == [] then [] else SlotsOf(v, chain[..|chain| - 1]) + v.content(chain[|chain| - 1])
  }

  /** The slots up to the end mark that name something. */
  function EntriesOf(slots: seq<Slot>): seq<Slot> {
    if slots == [] || slots[0].first == 0 then []
    else if slots[0].Deleted() || slots[0].LongName() then EntriesOf(slots[1..])
    else [slots[0]] + EntriesOf(slots[1..])
  }

  /** Slot `i` lies before the end mark and is neither deleted nor part of a long name. */
  ghost predicate Counts(slots: seq<Slot>, i: nat) {
    && i < |slots| && (forall j :: 0 <= j <= i ==> slots[j].first != 0)
    && slots[i].first != 0xE5 && slots[i].attributes != 15
  }

  lemma CountsInTail(slots: seq<Slot>, i: nat)
    requires slots != []
    ensures Counts(slots, i + 1) <==> slots[0].first != 0 && Counts(slots[1..], i)
  {
    var tail := slots[1..];
    if i < |tail| {
      assert forall j :: 0 <= j <= i ==> tail[j] == slots[j + 1];
      if Counts(tail, i) && slots[0].first != 0 {
        forall j | 0 <= j <= i + 1 ensures slots[j].first != 0 {
          assert j > 0 ==> slots[j] == tail[j - 1];
        }
      }
    }
  }

  /** `places` are the indices of `entries` among the slots, in order. */
  ghost predicate Picks(slots: seq<Slot>, entries: seq<Slot>, places: seq<nat>) {
    && |places| == |entries|
    && (forall k :: 0 <= k < |places| ==> places[k] < |slots| && entries[k] == slots[places[k]])
    && (forall k, l :: 0 <= k < l < |places| ==> places[k] < places[l])
  }

  ghost predicate AllCounting(slots: seq<Slot>, places: seq<nat>) { forall i: nat :: i in places <==> Counts(slots, i) }

  /** Exactly the slots that count are entries, in their order. */
  lemma {:induction false} EntriesAre(slots: seq<Slot>) returns (places: seq<nat>)
    ensures Picks(slots, EntriesOf(slots), places) && AllCounting(slots, places)
  {
    if slots == [] || slots[0].first == 0 {
      places := [];
    } else {
      hide Picks, AllCounting;
      var rest := EntriesAre(slots[1..]);
      var head: seq<nat> := if slots[0].first == 0xE5 || slots[0].attributes == 15 then [] else [0];
      places := head + seq(|rest|, k requires 0 <= k < |rest| => rest[k] + 1);
      PicksMore(slots, EntriesOf(slots[1..]), rest, places, head);
      CountsMore(slots, rest, places, head);
    }
  }

  lemma PicksMore(slots: seq<Slot>, entries: seq<Slot>, rest: seq<nat>, places: seq<nat>, head: seq<nat>)
    requires slots != [] && Picks(slots[1..], entries, rest) && (head == [] || head == [0])
    requires places == head + seq(|rest|, k requires 0 <= k < |rest| => rest[k] + 1)
    ensures Picks(slots, (if head == [] then [] else [slots[0]]) + entries, places)
  {
    assert forall k :: 0 <= k < |rest| ==> slots[1..][rest[k]] == slots[rest[k] + 1];
  }

  lemma CountsMore(slots: seq<Slot>, rest: seq<nat>, places: seq<nat>, head: seq<nat>)
    requires slots != [] && slots[0].first != 0 && AllCounting(slots[1..], rest)
    requires places == head + seq(|rest|, k requires 0 <= k < |rest| => rest[k] + 1)
    requires head == if slots[0].first == 0xE5 || slots[0].attributes == 15 then [] else [0]
    ensures AllCounting(slots, places)
  {
    var tail := seq(|rest|, k requires 0 <= k < |rest| => rest[k] + 1);
    FirstCounts(slots);
    forall i: nat ensures i in places <==> Counts(slots, i) {
      Moved(rest, tail, i);
      if i > 0 {
        CountsInTail(slots, i - 1);
        assert i - 1 in rest <==> Counts(slots[1..], i - 1);
      }
    }
  }

  lemma FirstCounts(slots: seq<Slot>)
    requires slots != [] && slots[0].first != 0
    ensures Counts(slots, 0) <==> slots[0].first != 0xE5 && slots[0].attributes != 15
  {
  }

  lemma Moved(rest: seq<nat>, tail: seq<nat>, i: nat)
    requires |tail| == |rest| && forall k :: 0 <= k < |rest| ==> tail[k] == rest[k] + 1
    ensures i in tail <==> i > 0 && i - 1 in rest
  {
    if i > 0 && i - 1 in rest {
      var k :| 0 <= k < |rest| && rest[k] == i - 1;
      assert tail[k] == i;
    }
  }

  /** Slots come in the order of the chain. */
  lemma {:induction false} SlotsInChainOrder(v: Volume, a: seq<nat>, b: seq<nat>, c: nat)
    ensures SlotsOf(v, []) == [] && SlotsOf(v, [c]) == v.content(c)
    ensures SlotsOf(v, a + b) == SlotsOf(v, a) + SlotsOf(v, b)
    decreases |b|
  {
    if b == [] {
      assert a + b == a;
    } else {
      var n := |b| - 1;
      assert (a + b)[..|a + b| - 1] == a + b[..n];
      SlotsInChainOrder(v, a, b[..n], c);
    }
  }

  /** What the attribute bits say: bit 3 marks a label and bit 4 a directory. */
  lemma AttributeBits(e: Slot, high: nat, directory: bool, volume: bool, low: nat)
    requires low < 8 && e.attributes == 32 * high + (if directory then 16 else 0) + (if volume then 8 else 0) + low
    ensures e.Directory() <==> directory
    ensures e.Ignored() <==> volume || e.first == '.' as int
    ensures Wanted(e) <==> !volume && e.first != '.' as int && (directory || e.size != 0 || e.cluster != 0)
  {
    var d, l := if directory then 1 else 0, if volume then 1 else 0;
    assert e.attributes == 8 * (4 * high + 2 * d + l) + low;
    assert e.attributes / 8 == 4 * high + 2 * d + l && e.attributes / 16 == 2 * high + d;
  }

  /** A file has exactly the clusters it takes to hold its size. */
  lemma SoundLength(v: Volume, o: Owned)
    requires v.Valid() && o.File? && Sound(v, o)
    ensures |o.chain| * v.clusterBytes >= o.size && (o.size > 0 ==> (|o.chain| - 1) * v.clusterBytes < o.size)
    ensures o.size == 0 ==> o.chain == []
  {
    hide IsChain, NoRepeats;
    CeilingCovers(o.size, v.clusterBytes, |o.chain|);
  }

  lemma CeilingCovers(size: nat, unit: nat, n: nat)
    requires unit > 0 && n == (size + unit - 1) / unit
    ensures n * unit >= size && (size > 0 ==> (n - 1) * unit < size) && (size == 0 ==> n == 0)
  {
    var x := size + unit - 1;
    assert x == n * unit + x % unit;
    assert (n - 1) * unit == n * unit - unit;
  }

  /** Chains end at values from 0x0FFFFFF8 on, and directories may have 4096 slots before their last
      cluster. */
  lemma Limits(v: Volume, first: nat, chain: seq<nat>)
    ensures IsChain(v, first, []) <==> first >= 0x0FFF_FFF8
    ensures TooLong(v, chain) <==> exists k :: 0 <= k < |chain| && |SlotsOf(v, chain[..k])| >= 4096
    ensures v.IsCluster(first) <==> 2 <= first < v.clusterCount + 2
  {
    assert first >= 0x0FFF_FFF8 ==> Leads(v, first, [], first);
  }

  /** The FAT value of a cluster is the low 28 bits of its table entry. */
  lemma NextIsLow28Bits(v: Volume, c: nat, high: nat, low: nat)
    requires c < |v.table| && v.table[c] == high * 0x1000_0000 + low && low < 0x1000_0000
    ensures v.Next(c) == low
  {
  }

  /** The loop over directory slots. */
  method Entries(slots: seq<Slot>) returns (entries: seq<Slot>)
    ensures entries == EntriesOf(slots)
  {
    entries := [];
    var i := 0;
    while i < |slots|
      invariant i <= |slots| && EntriesOf(slots) == entries + EntriesOf(slots[i..])
    {
      var slot := slots[i];
      assert slots[i..][0] == slot && slots[i..][1..] == slots[i + 1..];
      if slot.first == 0 {
        return;
      }
      i := i + 1;
      if slot.Deleted() || slot.LongName() {
        continue;
      }
      entries := entries + [slot];
    }
  }

  /** Some proper beginning of the chain already holds the maximal number of slots. */
  ghost predicate TooLong(v: Volume, chain: seq<nat>) {
    exists k :: 0 <= k < |chain| && |SlotsOf(v, chain[..k])| >= SLOT_LIMIT
  }

  /** A walk that has not ended is a proper beginning of the whole chain. */
  lemma {:induction false} LeadsPrefix(v: Volume, first: nat, walked: seq<nat>, next: nat, whole: seq<nat>)
    requires Leads(v, first, walked, next) && next < END && IsChain(v, first, whole)
    ensures |walked| < |whole| && walked == whole[..|walked|] && whole[|walked|] == next && v.Known(next)
    decreases |walked|
  {
    var end: nat :| end >= END && Leads(v, first, whole, end);
    if walked != [] {
      assert Leads(v, v.Next(first), whole[1..], end);
      LeadsPrefix(v, v.Next(first), walked[1..], next, whole[1..]);
    }
  }

  /** Reads a directory whose chain does not repeat itself, unless it has too many
      slots. It walks the FAT on its own. */
  method Slots(v: Volume, first: nat) returns (r: Result<seq<Slot>>)
    requires v.Valid()
    ensures r.Ok? ==> exists chain :: IsChain(v, first, chain) && r.value == SlotsOf(v, chain) && !TooLong(v, chain)
    ensures r.Err? ==> forall chain :: IsChain(v, first, chain) && NoRepeats(chain) ==> TooLong(v, chain)
  {
    var result: seq<Slot> := [];
    var visited: set<nat> := {};
    var cluster: nat := first;
    ghost var chain: seq<nat> := [];
    while cluster < END
      invariant Leads(v, first, chain, cluster) && result == SlotsOf(v, chain)
      invariant visited == Elements(chain) <= v.Clusters() && !TooLong(v, chain)
      decreases v.Clusters() - visited
    {
      forall whole | IsChain(v, first, whole) && NoRepeats(whole)
        ensures v.Known(cluster) && cluster !in visited && (|result| >= SLOT_LIMIT ==> TooLong(v, whole))
      {
        LeadsPrefix(v, first, chain, cluster, whole);
      }
      if !v.IsCluster(cluster) || cluster in visited || |result| >= SLOT_LIMIT {
        return Err(BadDirectory);
      }
      visited := visited + {cluster};
      result := result + v.content(cluster);
      if cluster >= |v.table| {
        return Err(OutOfTable);
      }
      LeadsAppend(v, first, chain, cluster);
      assert forall k :: 0 <= k <= |chain| ==> (chain + [cluster])[..k] == chain[..k];
      assert chain[..|chain|] == chain;
      chain := chain + [cluster];
      cluster := v.Next(cluster);
    }
    return Ok(result);
  }

  // ------------------------------------------------------------------ what a tidy volume is

  /** Where a chain is named: the boot sector names the root directory, and entry number `entry`
      of live directory number `dir` names another directory or a file. */
  datatype Place = Root | At(dir: nat, entry: nat)

  /** A live chain and the place that names it. */
  datatype Owned = Dir(at: Place, first: nat, chain: seq<nat>) | File(at: Place, first: nat, chain: seq<nat>, size: nat)

  function EntriesIn(v: Volume, o: Owned): seq<Slot> { EntriesOf(SlotsOf(v, o.chain)) }

  /** Entries that must have a chain of their own. */
  predicate Wanted(e: Slot) { !e.Ignored() && (e.Directory() || !e.EmptyFile()) }

  predicate Describes(e: Slot, o: Owned) {
    Wanted(e) && e.cluster == o.first && e.Directory() == o.Dir? && (o.File? ==> e.size == o.size)
  }

  /** The place of `o` lies in one of the first `n` live chains and describes it. */
  ghost predicate Named(v: Volume, live: seq<Owned>, o: Owned, n: nat) {
    match o.at
    case Root => o.Dir? && o.first == v.root
    case At(d, k) =>
      d < n && d < |live| && live[d].Dir? && k < |EntriesIn(v, live[d])| && Describes(EntriesIn(v, live[d])[k], o)
  }

  /** A live chain is a whole chain without repetitions and as long as its file size asks for. */
  ghost predicate Sound(v: Volume, o: Owned)
    requires v.Valid()
  {
    && IsChain(v, o.first, o.chain) && NoRepeats(o.chain)
    && (o.File? ==> |o.chain| == (o.size + v.clusterBytes - 1) / v.clusterBytes)
  }

  ghost predicate Disjoint(live: seq<Owned>) {
    forall i, j :: 0 <= i < j < |live| ==> Elements(live[i].chain) !! Elements(live[j].chain)
  }

  /** Every place names at most one chain. */
  ghost predicate Distinct(live: seq<Owned>) { forall i, j :: 0 <= i < j < |live| ==> live[i].at != live[j].at }

  /** The owned clusters are exactly those of the live chains. */
  ghost predicate Covered(live: seq<Owned>, owners: set<nat>) {
    && (forall i :: 0 <= i < |live| ==> Elements(live[i].chain) <= owners)
    && (forall c :: c in owners ==> exists i :: 0 <= i < |live| && c in Elements(live[i].chain))
  }

  /** Sound and pairwise disjoint chains, each named by an earlier one at a place of its own. */
  ghost predicate Tree(v: Volume, live: seq<Owned>)
    requires v.Valid()
  {
    && (forall i :: 0 <= i < |live| ==> Named(v, live, live[i], i) && Sound(v, live[i]))
    && Distinct(live) && Disjoint(live)
  }

  ghost function Places(live: seq<Owned>): set<Place> { set i | 0 <= i < |live| :: live[i].at }

  /** Every wanted entry of every live directory, except number `skip`, is among the claims. */
  ghost predicate Closed(v: Volume, live: seq<Owned>, claims: set<Place>, skip: int) {
    forall d: nat, k: nat ::
      d < |live| && d != skip && live[d].Dir? && k < |EntriesIn(v, live[d])| && Wanted(EntriesIn(v, live[d])[k]) ==>
      At(d, k) in claims
  }

  /** Allocated means owned, and the summary counts the rest. */
  ghost predicate Balanced(v: Volume, owners: set<nat>) {
    && (forall c: nat :: v.IsCluster(c) ==> v.Known(c) && (v.Next(c) != 0 <==> c in owners))
    && v.freeSummary + |owners| == v.clusterCount
  }

  /** `live` is the whole directory tree and `owners` accounts for every cluster. */
  ghost predicate Accounts(v: Volume, live: seq<Owned>, owners: set<nat>)
    requires v.Valid()
  {
    && Tree(v, live) && Root in Places(live) && Closed(v, live, Places(live), -1)
    && (forall i :: 0 <= i < |live| && live[i].Dir? ==> !TooLong(v, live[i].chain))
    && Covered(live, owners) && Balanced(v, owners)
  }

  /** The volumes that pass, without reference to any walk. */
  ghost predicate Tidy(v: Volume)
    requires v.Valid()
  {
    v.table == v.mirror && exists live, owners :: Accounts(v, live, owners)
  }

  /** A tidy volume has equal FATs and an account, which starts at the root directory. */
  lemma TidyMeans(v: Volume) returns (live: seq<Owned>, owners: set<nat>)
    requires v.Valid() && Tidy(v)
    ensures v.table == v.mirror && Accounts(v, live, owners)
    ensures exists i :: 0 <= i < |live| && live[i].Dir? && live[i].first == v.root
    ensures forall i :: 0 <= i < |live| && live[i].Dir? ==> !TooLong(v, live[i].chain)
  {
    live, owners :| Accounts(v, live, owners);
    hide Named, Sound, Distinct, Disjoint, Closed, Covered, Balanced, TooLong;
    HasRoot(v, live);
  }

  /** The chains of an account are whole, do not repeat and do not share a cluster. */
  lemma AccountChains(v: Volume, live: seq<Owned>, owners: set<nat>)
    requires v.Valid() && Accounts(v, live, owners)
    ensures forall i :: 0 <= i < |live| ==> IsChain(v, live[i].first, live[i].chain) && NoRepeats(live[i].chain)
    ensures forall i, j :: 0 <= i < j < |live| ==> forall c :: c in live[i].chain ==> c !in live[j].chain
  {
    hide Named, Distinct, IsChain, NoRepeats, Closed, Covered, Balanced, TooLong;
    forall i | 0 <= i < |live| ensures IsChain(v, live[i].first, live[i].chain) && NoRepeats(live[i].chain) {
      assert Sound(v, live[i]);
    }
    forall i, j, c | 0 <= i < j < |live| && c in live[i].chain ensures c !in live[j].chain {
      assert c in Elements(live[i].chain);
    }
  }

  /** A cluster is allocated exactly if it lies in one of the chains, and with the free ones these make
      up all clusters. */
  lemma AccountClusters(v: Volume, live: seq<Owned>, owners: set<nat>)
    requires v.Valid() && Accounts(v, live, owners)
    ensures v.freeSummary + |owners| == v.clusterCount
    ensures forall c: nat :: v.IsCluster(c) ==> c < |v.table| && (v.Next(c) != 0 <==> c in owners)
    ensures forall c :: c in owners <==> exists i :: 0 <= i < |live| && c in live[i].chain
  {
    hide Tree, Closed, TooLong;
    assert forall c: nat :: v.IsCluster(c) ==> v.Known(c);
    forall c ensures c in owners <==> exists i :: 0 <= i < |live| && c in live[i].chain {
      if i :| 0 <= i < |live| && c in live[i].chain {
        assert c in Elements(live[i].chain);
      }
    }
  }

  /** Every wanted entry of a live directory has a chain of its own. */
  lemma AccountEntries(v: Volume, live: seq<Owned>, owners: set<nat>)
    requires v.Valid() && Accounts(v, live, owners)
    ensures forall d: nat, k: nat ::
      d < |live| && live[d].Dir? && k < |EntriesIn(v, live[d])| && Wanted(EntriesIn(v, live[d])[k]) ==>
        exists i :: 0 <= i < |live| && live[i].at == At(d, k) && Describes(EntriesIn(v, live[d])[k], live[i])
  {
    hide Tree, EntriesOf, SlotsOf, Covered, Balanced, TooLong;
    forall d: nat, k: nat |
      d < |live| && live[d].Dir? && k < |EntriesIn(v, live[d])| && Wanted(EntriesIn(v, live[d])[k])
      ensures exists i :: 0 <= i < |live| && live[i].at == At(d, k) && Describes(EntriesIn(v, live[d])[k], live[i])
    {
      assert At(d, k) in Places(live);
      var i :| 0 <= i < |live| && live[i].at == At(d, k);
      NamedThere(v, live, i, d, k);
    }
  }

  lemma HasRoot(v: Volume, live: seq<Owned>)
    requires v.Valid() && Tree(v, live) && Root in Places(live)
    ensures exists i :: 0 <= i < |live| && live[i].Dir? && live[i].first == v.root
  {
    var i :| 0 <= i < |live| && live[i].at == Root;
    assert Named(v, live, live[i], i);
  }

  lemma NamedThere(v: Volume, live: seq<Owned>, i: nat, d: nat, k: nat)
    requires v.Valid() && Tree(v, live) && i < |live| && live[i].at == At(d, k)
    ensures d < |live| && k < |EntriesIn(v, live[d])| && Describes(EntriesIn(v, live[d])[k], live[i])
  {
    assert Named(v, live, live[i], i);
  }

  /** What it means that an entry describes a chain. */
  lemma DescribesMeans(e: Slot, o: Owned)
    requires Describes(e, o)
    ensures o.first == e.cluster && (o.Dir? <==> e.attributes / 16 % 2 == 1) && (o.File? ==> o.size == e.size)
  {
  }

  // ------------------------------------------------------------------ a partial walk lies inside every full account

  function Image(h: seq<nat>, at: Place): Place {
    match at
    case Root => Root
    case At(d, k) => if d < |h| then At(h[d], k) else Root
  }

  /** Chain `i` of the walk is chain `h[i]` of the account, and so is the place that names it. */
  ghost predicate Embeds(live: seq<Owned>, whole: seq<Owned>, h: seq<nat>) {
    && |h| == |live|
    && forall i :: 0 <= i < |live| ==> h[i] < |whole| && whole[h[i]] == live[i].(at := Image(h, live[i].at))
  }

  /** What a place names in the walk, its image names in the account. */
  lemma Twin(v: Volume, live: seq<Owned>, whole: seq<Owned>, owners: set<nat>, h: seq<nat>, o: Owned) returns (j: nat)
    requires v.Valid() && Accounts(v, whole, owners) && Embeds(live, whole, h) && Named(v, live, o, |live|)
    ensures j < |whole| && whole[j] == o.(at := Image(h, o.at), chain := whole[j].chain)
  {
    hide EntriesOf, SlotsOf, Sound, Distinct, Disjoint, Covered, Balanced, TooLong;
    var at := Image(h, o.at);
    if o.at.At? {
      assert EntriesIn(v, whole[h[o.at.dir]]) == EntriesIn(v, live[o.at.dir]);
    }
    assert at in Places(whole);
    j :| 0 <= j < |whole| && whole[j].at == at;
    assert Named(v, whole, whole[j], j);
  }

  lemma {:induction false} Embedding(v: Volume, live: seq<Owned>, whole: seq<Owned>, owners: set<nat>)
    returns (h: seq<nat>)
    requires v.Valid() && Tree(v, live) && Accounts(v, whole, owners)
    ensures Embeds(live, whole, h)
    decreases |live|
  {
    hide Named, Distinct, Disjoint, Closed, Covered, Balanced, TooLong, IsChain, NoRepeats;
    if live == [] {
      return [];
    }
    var n := |live| - 1;
    var o := live[n];
    TreeShrinks(v, live, n);
    h := Embedding(v, live[..n], whole, owners);
    var j := Twin(v, live[..n], whole, owners, h, o);
    assert Sound(v, o) && Sound(v, whole[j]);
    ChainIsUnique(v, o.first, o.chain, whole[j].chain);
    EmbedsGrows(v, live, whole, h, j);
    h := h + [j];
  }

  lemma TreeShrinks(v: Volume, live: seq<Owned>, n: nat)
    requires v.Valid() && Tree(v, live) && n < |live|
    ensures Tree(v, live[..n]) && Named(v, live[..n], live[n], n)
  {
    hide EntriesOf, SlotsOf, Sound, Elements;
    forall i | 0 <= i <= n ensures Named(v, live[..n], live[i], i) {
      assert Named(v, live, live[i], i);
    }
  }

  lemma EmbedsGrows(v: Volume, live: seq<Owned>, whole: seq<Owned>, h: seq<nat>, j: nat)
    requires live != [] && v.Valid() && Tree(v, live) && Embeds(live[..|live| - 1], whole, h)
    requires j < |whole| && whole[j] == live[|live| - 1].(at := Image(h, live[|live| - 1].at))
    ensures Embeds(live, whole, h + [j])
  {
    hide EntriesOf, SlotsOf, Sound, Distinct, Disjoint;
    var n := |live| - 1;
    forall i | 0 <= i <= n
      ensures whole[(h + [j])[i]] == live[i].(at := Image(h + [j], live[i].at))
    {
      assert Named(v, live, live[i], i);
      assert i < n ==> live[..n][i] == live[i];
    }
  }

  /** Different chains of the walk are different chains of the account. */
  lemma {:induction false} EmbeddingIsInjective(v: Volume, live: seq<Owned>, whole: seq<Owned>, h: seq<nat>,
                                                i: nat, j: nat)
    requires v.Valid() && Tree(v, live) && Embeds(live, whole, h) && i < |live| && j < |live| && i != j
    ensures h[i] != h[j]
    decreases i + j
  {
    hide EntriesOf, SlotsOf, Sound, Disjoint, Elements, Describes;
    assert Named(v, live, live[i], i) && Named(v, live, live[j], j) && live[i].at != live[j].at;
    if h[i] == h[j] && live[i].at.At? && live[j].at.At? && live[i].at.dir != live[j].at.dir {
      EmbeddingIsInjective(v, live, whole, h, live[i].at.dir, live[j].at.dir);
    }
  }

  // ------------------------------------------------------------------ what refutes every account

  /** No chain that `o` could have keeps clear of the clusters owned already. */
  ghost predicate Blocked(v: Volume, o: Owned, owners: set<nat>)
    requires v.Valid()
  {
    forall chain :: Sound(v, o.(chain := chain)) ==> Elements(chain) * owners != {}
  }

  /** A chain that is named at a new place but cannot be owned. */
  lemma BlockedIsUntidy(v: Volume, live: seq<Owned>, owners: set<nat>, o: Owned)
    requires v.Valid() && Tree(v, live) && Covered(live, owners)
    requires Named(v, live, o, |live|) && o.at !in Places(live) && Blocked(v, o, owners)
    ensures !Tidy(v)
  {
    hide Tree, Named, Sound, Covered, Embeds, Closed, Balanced, TooLong;
    forall whole: seq<Owned>, all: set<nat> | Accounts(v, whole, all) ensures false {
      var h := Embedding(v, live, whole, all);
      var j := Twin(v, live, whole, all, h, o);
      assert Sound(v, o.(chain := whole[j].chain)) by { SoundElsewhere(v, whole, j, o); }
      OutsideTheWalk(v, live, whole, h, owners, o, j);
    }
  }

  lemma SoundElsewhere(v: Volume, whole: seq<Owned>, j: nat, o: Owned)
    requires v.Valid() && Tree(v, whole) && j < |whole| && whole[j] == o.(at := whole[j].at, chain := whole[j].chain)
    ensures Sound(v, o.(chain := whole[j].chain))
  {
    hide IsChain, NoRepeats, Named, Distinct, Disjoint;
    assert Sound(v, whole[j]);
  }

  lemma OutsideTheWalk(v: Volume, live: seq<Owned>, whole: seq<Owned>, h: seq<nat>, owners: set<nat>, o: Owned, j: nat)
    requires v.Valid() && Tree(v, live) && Tree(v, whole) && Embeds(live, whole, h) && Covered(live, owners)
    requires Named(v, live, o, |live|) && o.at !in Places(live) && j < |whole| && whole[j].at == Image(h, o.at)
    ensures Elements(whole[j].chain) * owners == {}
  {
    hide Named, Sound, Elements, Places, Distinct;
    forall c | c in owners ensures c !in Elements(whole[j].chain) {
      var i :| 0 <= i < |live| && c in Elements(live[i].chain);
      NotItsTwin(v, live, whole, h, o, j, i);
      assert whole[h[i]].chain == live[i].chain;
    }
  }

  lemma NotItsTwin(v: Volume, live: seq<Owned>, whole: seq<Owned>, h: seq<nat>, o: Owned, j: nat, i: nat)
    requires v.Valid() && Tree(v, live) && Embeds(live, whole, h) && i < |live|
    requires Named(v, live, o, |live|) && o.at !in Places(live) && j < |whole| && whole[j].at == Image(h, o.at)
    ensures h[i] != j
  {
    hide EntriesOf, SlotsOf, Sound, Elements, Describes, Distinct, Disjoint;
    assert live[i].at in Places(live) && Named(v, live, live[i], i);
    if h[i] == j && o.at.At? && live[i].at.At? && o.at.dir != live[i].at.dir {
      EmbeddingIsInjective(v, live, whole, h, o.at.dir, live[i].at.dir);
    }
  }

  lemma LongIsUntidy(v: Volume, live: seq<Owned>, d: nat)
    requires v.Valid() && Tree(v, live) && d < |live| && live[d].Dir? && TooLong(v, live[d].chain)
    ensures !Tidy(v)
  {
    hide Tree, Closed, Covered, Balanced, TooLong;
    forall whole: seq<Owned>, all: set<nat> | Accounts(v, whole, all) ensures false {
      ShortInside(v, live, whole, all, d);
    }
  }

  lemma ShortInside(v: Volume, live: seq<Owned>, whole: seq<Owned>, all: set<nat>, d: nat)
    requires v.Valid() && Tree(v, live) && Accounts(v, whole, all) && d < |live| && live[d].Dir?
    ensures !TooLong(v, live[d].chain)
  {
    hide Tree, Closed, Covered, Balanced, TooLong;
    var h := Embedding(v, live, whole, all);
    assert !TooLong(v, whole[h[d]].chain);
  }

  /** A walk that has reached every entry has reached every chain of the account. */
  lemma {:induction false} Reached(v: Volume, live: seq<Owned>, whole: seq<Owned>, h: seq<nat>, j: nat) returns (i: nat)
    requires v.Valid() && Tree(v, live) && Tree(v, whole) && Embeds(live, whole, h) && j < |whole|
    requires Root in Places(live) && Closed(v, live, Places(live), -1)
    ensures i < |live| && h[i] == j
    decreases j
  {
    hide EntriesOf, SlotsOf, Sound, Disjoint;
    assert Named(v, whole, whole[j], j);
    if whole[j].at.At? {
      var d := Reached(v, live, whole, h, whole[j].at.dir);
      assert EntriesIn(v, live[d]) == EntriesIn(v, whole[h[d]]);
      assert At(d, whole[j].at.entry) in Places(live);
      i :| 0 <= i < |live| && live[i].at == At(d, whole[j].at.entry);
    } else {
      i :| 0 <= i < |live| && live[i].at == Root;
    }
    assert whole[h[i]].at == whole[j].at;
  }

  /** The finished walk owns what the account owns. */
  lemma SameOwners(v: Volume, live: seq<Owned>, owners: set<nat>, whole: seq<Owned>, all: set<nat>)
    requires v.Valid() && Tree(v, live) && Covered(live, owners) && Accounts(v, whole, all)
    requires Root in Places(live) && Closed(v, live, Places(live), -1)
    ensures owners == all
  {
    hide Tree, Closed, Balanced, TooLong, Elements;
    var h := Embedding(v, live, whole, all);
    forall c | c in all ensures c in owners {
      var j :| 0 <= j < |whole| && c in Elements(whole[j].chain);
      var i := Reached(v, live, whole, h, j);
      assert live[i].chain == whole[j].chain;
    }
    forall c | c in owners ensures c in all {
      var i :| 0 <= i < |live| && c in Elements(live[i].chain);
      assert live[i].chain == whole[h[i]].chain;
    }
  }

  lemma UnbalancedIsUntidy(v: Volume, live: seq<Owned>, owners: set<nat>)
    requires v.Valid() && Tree(v, live) && Covered(live, owners)
    requires Root in Places(live) && Closed(v, live, Places(live), -1) && !Balanced(v, owners)
    ensures !Tidy(v)
  {
    hide Tree, Closed, Covered, Balanced, TooLong;
    forall whole: seq<Owned>, all: set<nat> | Accounts(v, whole, all) ensures false {
      SameOwners(v, live, owners, whole, all);
    }
  }

  // ------------------------------------------------------------------ how the walk grows

  lemma DisjointGrows(live: seq<Owned>, owners: set<nat>, o: Owned)
    requires Disjoint(live) && Covered(live, owners) && Elements(o.chain) !! owners
    ensures Disjoint(live + [o]) && Covered(live + [o], owners + Elements(o.chain))
  {
    hide Elements;
    var more := live + [o];
    forall c | c in owners + Elements(o.chain) ensures exists i :: 0 <= i < |more| && c in Elements(more[i].chain) {
      if c in owners {
        var i :| 0 <= i < |live| && c in Elements(live[i].chain);
        assert more[i] == live[i];
      } else {
        assert more[|live|] == o;
      }
    }
  }

  lemma NamedStays(v: Volume, live: seq<Owned>, more: seq<Owned>, o: Owned, n: nat, m: nat)
    requires Named(v, live, o, n) && live <= more && n <= m
    ensures Named(v, more, o, m)
  {
  }

  /** Adding one more chain whose clusters nobody owned, named at a new place. */
  lemma TreeGrows(v: Volume, live: seq<Owned>, owners: set<nat>, o: Owned)
    requires v.Valid() && Tree(v, live) && Covered(live, owners) && Sound(v, o)
    requires Elements(o.chain) !! owners && Named(v, live, o, |live|) && o.at !in Places(live)
    ensures Tree(v, live + [o]) && Covered(live + [o], owners + Elements(o.chain))
    ensures Places(live + [o]) == Places(live) + {o.at}
  {
    hide Sound, Disjoint, Covered, Named, Elements;
    var more := live + [o];
    DisjointGrows(live, owners, o);
    assert forall i :: 0 <= i < |live| ==> more[i] == live[i] && live[i].at in Places(live);
    forall i | 0 <= i < |more| ensures Named(v, more, more[i], i) {
      NamedStays(v, live, more, more[i], i, i);
    }
    PlacesGrow(live, o);
  }

  lemma PlacesGrow(live: seq<Owned>, o: Owned)
    ensures Places(live + [o]) == Places(live) + {o.at}
  {
    var more := live + [o];
    assert more[|live|] == o && forall i :: 0 <= i < |live| ==> more[i] == live[i];
    assert o.at in Places(more);
    forall at | at in Places(live) ensures at in Places(more) {
      var i :| 0 <= i < |live| && live[i].at == at;
      assert more[i].at == at;
    }
  }

  // ------------------------------------------------------------------ the queue

  ghost function InQueue(waiting: seq<Place>): set<Place> { set q | 0 <= q < |waiting| :: waiting[q] }

  /** The directories that wait are named at places of their own. */
  ghost predicate Queue(v: Volume, live: seq<Owned>, waiting: seq<Place>, directories: seq<nat>) {
    && |waiting| == |directories|
    && (forall q :: 0 <= q < |waiting| ==> Named(v, live, Dir(waiting[q], directories[q], []), |live|))
    && (forall q, r :: 0 <= q < r < |waiting| ==> waiting[q] != waiting[r])
    && (forall q :: 0 <= q < |waiting| ==> waiting[q] !in Places(live))
  }

  ghost function Claims(live: seq<Owned>, waiting: seq<Place>): set<Place> { Places(live) + InQueue(waiting) }

  lemma QueueGrows(v: Volume, live: seq<Owned>, waiting: seq<Place>, directories: seq<nat>, at: Place, first: nat)
    requires Queue(v, live, waiting, directories) && Named(v, live, Dir(at, first, []), |live|)
    requires at !in Claims(live, waiting)
    ensures Queue(v, live, waiting + [at], directories + [first])
    ensures Claims(live, waiting + [at]) == Claims(live, waiting) + {at}
  {
    hide Named, Places;
    var more := waiting + [at];
    assert more[|waiting|] == at;
    assert forall q :: 0 <= q < |waiting| ==> more[q] == waiting[q] && waiting[q] in InQueue(waiting);
    assert InQueue(more) == InQueue(waiting) + {at} by {
      forall p | p in InQueue(waiting) ensures p in InQueue(more) {
        var q :| 0 <= q < |waiting| && waiting[q] == p;
        assert more[q] == p;
      }
    }
  }

  lemma QueueStays(v: Volume, live: seq<Owned>, waiting: seq<Place>, directories: seq<nat>, o: Owned)
    requires Queue(v, live, waiting, directories) && o.at !in Claims(live, waiting)
    ensures Queue(v, live + [o], waiting, directories)
    ensures Claims(live + [o], waiting) == Claims(live, waiting) + {o.at}
  {
    hide Named, Places;
    PlacesGrow(live, o);
    forall q | 0 <= q < |waiting|
      ensures Named(v, live + [o], Dir(waiting[q], directories[q], []), |live| + 1) && waiting[q] != o.at
    {
      NamedStays(v, live, live + [o], Dir(waiting[q], directories[q], []), |live|, |live| + 1);
      assert waiting[q] in InQueue(waiting);
    }
  }

  lemma Dequeued(v: Volume, live: seq<Owned>, waiting: seq<Place>, directories: seq<nat>)
    requires Queue(v, live, waiting, directories) && waiting != []
    ensures Queue(v, live, waiting[1..], directories[1..])
    ensures waiting[0] !in Claims(live, waiting[1..])
    ensures Claims(live, waiting) == Claims(live, waiting[1..]) + {waiting[0]}
  {
    hide Named, Places;
    var rest := waiting[1..];
    forall q | 0 <= q < |rest| ensures rest[q] == waiting[q + 1] && directories[1..][q] == directories[q + 1] {
    }
    assert InQueue(waiting) == InQueue(rest) + {waiting[0]} by {
      forall p | p in InQueue(waiting) ensures p in InQueue(rest) + {waiting[0]} {
        var q :| 0 <= q < |waiting| && waiting[q] == p;
        if q > 0 {
          assert rest[q - 1] == p;
        }
      }
      assert waiting[0] in InQueue(waiting);
    }
  }

  /** All claims are made by directories that are live already. */
  lemma ClaimsAreOld(v: Volume, live: seq<Owned>, waiting: seq<Place>, directories: seq<nat>, k: nat)
    requires v.Valid() && Tree(v, live) && Queue(v, live, waiting, directories)
    ensures At(|live|, k) !in Claims(live, waiting)
  {
    hide EntriesOf, SlotsOf, Sound, Distinct, Disjoint, Describes;
    forall i | 0 <= i < |live| ensures live[i].at != At(|live|, k) {
      assert Named(v, live, live[i], i);
    }
    forall q | 0 <= q < |waiting| ensures waiting[q] != At(|live|, k) {
      assert Named(v, live, Dir(waiting[q], directories[q], []), |live|);
    }
  }

  lemma ClosedStays(v: Volume, live: seq<Owned>, claims: set<Place>, skip: int, more: seq<Owned>, others: set<Place>)
    requires Closed(v, live, claims, skip) && live <= more && claims <= others
    requires forall i :: |live| <= i < |more| && i != skip ==> !more[i].Dir?
    ensures Closed(v, more, others, skip)
  {
    hide EntriesOf, SlotsOf;
    forall d: nat, k: nat |
      d < |more| && d != skip && more[d].Dir? && k < |EntriesIn(v, more[d])| && Wanted(EntriesIn(v, more[d])[k])
      ensures At(d, k) in others
    {
      assert more[d] == live[d];
    }
  }

  class Inspection {
    const v: Volume
    var owners: set<nat>
    var directories: seq<nat>
    ghost var live: seq<Owned>
    /** The places that name the waiting directories. */
    ghost var waiting: seq<Place>

    ghost predicate Valid()
      reads this
    {
      && v.Valid() && owners <= v.Clusters()
      && Tree(v, live) && Covered(live, owners) && Queue(v, live, waiting, directories)
    }

    ghost function Claimed(): set<Place>
      reads this
    {
      Claims(live, waiting)
    }

    constructor (v: Volume)
      requires v.Valid()
      ensures Valid() && this.v == v && owners == {} && live == [] && directories == [v.root] && waiting == [Root]
    {
      this.v := v;
      owners, directories, live, waiting := {}, [v.root], [], [Root];
    }

    /** Walks one chain, taking possession of its clusters; the walk ends because each step owns a
        cluster that nobody owned. */
    method Chain(first: nat) returns (r: Result<seq<nat>>)
      requires v.Valid() && owners <= v.Clusters()
      modifies this`owners
      ensures owners <= v.Clusters() && old(owners) <= owners
      ensures r.Ok? ==>
        && IsChain(v, first, r.value) && NoRepeats(r.value)
        && Elements(r.value) !! old(owners) && owners == old(owners) + Elements(r.value)
      ensures r.Err? ==>
        forall chain :: IsChain(v, first, chain) && NoRepeats(chain) ==> Elements(chain) * old(owners) != {}
    {
      var chain: seq<nat> := [];
      var cluster: nat := first;
      while cluster < END
        invariant Leads(v, first, chain, cluster) && NoRepeats(chain)
        invariant owners <= v.Clusters() && Elements(chain) !! old(owners) && owners == old(owners) + Elements(chain)
        decreases v.Clusters() - owners
      {
        forall whole | IsChain(v, first, whole) && NoRepeats(whole)
          ensures v.Known(cluster) && (cluster in owners ==> Elements(whole) * old(owners) != {})
        {
          LeadsPrefix(v, first, chain, cluster, whole);
          assert cluster !in chain && cluster in Elements(whole);
          assert cluster in owners ==> cluster in Elements(whole) * old(owners);
        }
        if !v.IsCluster(cluster) || cluster in owners {
          return Err(CrossLink);
        }
        owners := owners + {cluster};
        if cluster >= |v.table| {
          return Err(OutOfTable);
        }
        LeadsAppend(v, first, chain, cluster);
        assert Elements(chain + [cluster]) == Elements(chain) + {cluster};
        chain := chain + [cluster];
        cluster := v.Next(cluster);
      }
      return Ok(chain);
    }

    /** Owns the chain of `o`, which is named at a new place; refuses only an untidy volume. */
    method Own(ghost o: Owned, first: nat) returns (r: Result<seq<nat>>)
      requires Valid() && o.first == first && Named(v, live, o, |live|) && o.at !in Claimed()
      modifies this`owners, this`live
      ensures r.Err? ==> !Tidy(v)
      ensures r.Ok? ==> IsChain(v, first, r.value) && NoRepeats(r.value)
      ensures r.Ok? ==> old(owners) <= owners && (if r.value == [] then owners == old(owners) else old(owners) < owners)
      ensures r.Ok? && Sound(v, o.(chain := r.value)) ==>
        Valid() && live == old(live) + [o.(chain := r.value)] && Claimed() == old(Claimed()) + {o.at}
      ensures r.Ok? && !Sound(v, o.(chain := r.value)) ==> !Tidy(v)
    {
      hide Tree, Covered, Queue, IsChain, NoRepeats, Elements, Named, Places, InQueue;
      r := Chain(first);
      if r.Err? {
        NoChain(v, o, old(owners));
        BlockedIsUntidy(v, live, old(owners), o);
        return;
      }
      NonEmpty(r.value);
      ghost var owned := o.(chain := r.value);
      if Sound(v, owned) {
        Renamed(v, live, o, r.value);
        TreeGrows(v, live, old(owners), owned);
        QueueStays(v, live, waiting, directories, owned);
        live := live + [owned];
      } else {
        WrongLength(v, o, r.value, old(owners));
        BlockedIsUntidy(v, live, old(owners), o);
      }
    }

    /** One entry of live directory `d`: a directory waits its turn, a file's chain is owned. */
    method Visit(e: Slot, ghost d: nat, ghost k: nat) returns (r: Result<nat>)
      requires Valid() && d < |live| && live[d].Dir? && k < |EntriesIn(v, live[d])| && e == EntriesIn(v, live[d])[k]
      requires At(d, k) !in Claimed()
      modifies this
      ensures r.Err? ==> !Tidy(v)
      ensures r.Ok? ==> Valid() && old(live) <= live && forall i :: |old(live)| <= i < |live| ==> live[i].File?
      ensures r.Ok? ==> Claimed() == old(Claimed()) + if Wanted(e) then {At(d, k)} else {}
      ensures r.Ok? ==> old(owners) <= owners
    {
      hide Tree, Covered, Queue, Claims, IsChain, NoRepeats, EntriesOf, SlotsOf;
      r := Ok(0);
      if e.Ignored() {
        return;
      }
      if e.Directory() {
        QueueGrows(v, live, waiting, directories, At(d, k), e.cluster);
        directories := directories + [e.cluster];
        waiting := waiting + [At(d, k)];
        return;
      }
      if e.EmptyFile() {
        return;
      }
      ghost var o := File(At(d, k), e.cluster, [], e.size);
      var chain := Own(o, e.cluster);
      if chain.Err? {
        return Err(chain.error);
      }
      if |chain.value| != (e.size + v.clusterBytes - 1) / v.clusterBytes {
        return Err(LengthDiffers);
      }
      assert Sound(v, o.(chain := chain.value));
    }

    /** The next waiting directory: its chain is owned and its entries are visited. */
    method VisitDirectory() returns (r: Result<nat>)
      requires Valid() && directories != [] && Closed(v, live, Claimed(), -1)
      modifies this
      ensures r.Err? ==> !Tidy(v)
      ensures r.Ok? ==> Valid() && Closed(v, live, Claimed(), -1) && old(Claimed()) <= Claimed()
      ensures r.Ok? ==> forall i :: 0 <= i < |live| && live[i].Dir? ==> i < |old(live)| || !TooLong(v, live[i].chain)
      ensures r.Ok? ==> old(live) <= live
      ensures r.Ok? ==> old(owners) < owners || (owners == old(owners) && |directories| < |old(directories)|)
    {
      hide Tree, Covered, Queue, Claims, IsChain, NoRepeats, EntriesOf, SlotsOf, Closed, Named, TooLong;
      var first := directories[0];
      QueueHead(v, live, waiting, directories);
      Dequeued(v, live, waiting, directories);
      ghost var claims := Claimed();
      forall k: nat ensures At(|live|, k) !in claims {
        ClaimsAreOld(v, live, waiting, directories, k);
      }
      SkipsNew(v, live, claims);
      ghost var o, d := Dir(waiting[0], first, []), |live|;
      directories, waiting := directories[1..], waiting[1..];
      var chain := Own(o, first);
      if chain.Err? {
        return Err(chain.error);
      }
      assert Sound(v, Dir(o.at, first, chain.value));
      assert live[d] == Dir(o.at, first, chain.value) && Claimed() == claims;
      ClosedStays(v, old(live), claims, d, live, claims);
      var slots := Slots(v, first);
      if slots.Err? {
        LongIsUntidy(v, live, d);
        return Err(slots.error);
      }
      ghost var walked :| IsChain(v, first, walked) && slots.value == SlotsOf(v, walked) && !TooLong(v, walked);
      ChainIsUnique(v, first, walked, chain.value);
      var entries := Entries(slots.value);
      EmptyDirectory(v, chain.value);
      r := VisitAll(entries, d);
    }

    method VisitAll(entries: seq<Slot>, ghost d: nat) returns (r: Result<nat>)
      requires Valid() && d < |live| && live[d].Dir? && entries == EntriesIn(v, live[d])
      requires Closed(v, live, Claimed(), d) && forall k: nat :: At(d, k) !in Claimed()
      modifies this
      ensures r.Err? ==> !Tidy(v)
      ensures r.Ok? ==> Valid() && Closed(v, live, Claimed(), -1) && old(Claimed()) <= Claimed()
      ensures r.Ok? ==> old(live) <= live && forall i :: |old(live)| <= i < |live| ==> live[i].File?
      ensures r.Ok? ==> old(owners) <= owners
      ensures r.Ok? && entries == [] ==> owners == old(owners) && directories == old(directories)
    {
      hide Tree, Covered, Queue, Claims, EntriesIn, Closed;
      var k := 0;
      while k < |entries|
        invariant k <= |entries| && Valid() && old(live) <= live && Closed(v, live, Claimed(), d)
        invariant forall i :: |old(live)| <= i < |live| ==> live[i].File?
        invariant old(Claimed()) <= Claimed() && forall i: nat :: i >= k ==> At(d, i) !in Claimed()
        invariant forall i: nat :: i < k && Wanted(entries[i]) ==> At(d, i) in Claimed()
        invariant old(owners) <= owners && (k == 0 ==> owners == old(owners) && directories == old(directories))
      {
        ghost var live0, claims0 := live, Claimed();
        r := Visit(entries[k], d, k);
        if r.Err? {
          return;
        }
        ClosedStays(v, live0, claims0, d, live, Claimed());
        k := k + 1;
      }
      CloseUp(v, live, Claimed(), d);
      r := Ok(0);
    }

    /** The last loop: counts the free clusters. An owned cluster is never free, so the source's
        exception for that case is never thrown. */
    method Census() returns (r: Result<nat>)
      requires Valid()
      ensures r.Ok? <==> forall c: nat :: v.IsCluster(c) ==> v.Known(c) && (v.Next(c) != 0 <==> c in owners)
      ensures r.Ok? ==> r.value + |owners| == v.clusterCount
    {
      hide Tree, Covered, Queue;
      var free := 0;
      ghost var seen: set<nat> := {};
      var cluster: nat := 2;
      while cluster < v.clusterCount + 2
        invariant 2 <= cluster <= v.clusterCount + 2
        invariant forall c: nat :: v.IsCluster(c) && c < cluster ==> v.Known(c) && (v.Next(c) != 0 <==> c in owners)
        invariant forall c :: c in seen <==> c in owners && c < cluster
        invariant free + |seen| == cluster - 2
      {
        if cluster in owners {
          OwnedIsAllocated(v, live, owners, cluster);
        }
        if cluster >= |v.table| {
          return Err(OutOfTable);
        }
        if v.Next(cluster) == 0 {
          free := free + 1;
        } else if cluster !in owners {
          return Err(Unreachable);
        } else {
          seen := seen + {cluster};
        }
        cluster := cluster + 1;
      }
      assert seen == owners;
      return Ok(free);
    }
  }

  lemma NoChain(v: Volume, o: Owned, owners: set<nat>)
    requires v.Valid()
    requires forall chain :: IsChain(v, o.first, chain) && NoRepeats(chain) ==> Elements(chain) * owners != {}
    ensures Blocked(v, o, owners)
  {
  }

  lemma WrongLength(v: Volume, o: Owned, chain: seq<nat>, owners: set<nat>)
    requires v.Valid() && IsChain(v, o.first, chain) && !Sound(v, o.(chain := chain))
    ensures Blocked(v, o, owners)
  {
    hide IsChain, NoRepeats;
    forall other | Sound(v, o.(chain := other)) ensures other == chain {
      ChainIsUnique(v, o.first, other, chain);
    }
  }

  lemma NonEmpty(chain: seq<nat>)
    ensures chain == [] <==> Elements(chain) == {}
  {
    if chain != [] {
      assert chain[0] in Elements(chain);
    }
  }

  lemma Renamed(v: Volume, live: seq<Owned>, o: Owned, chain: seq<nat>)
    requires Named(v, live, o, |live|)
    ensures Named(v, live, o.(chain := chain), |live|)
  {
  }

  lemma QueueHead(v: Volume, live: seq<Owned>, waiting: seq<Place>, directories: seq<nat>)
    requires Queue(v, live, waiting, directories) && directories != []
    ensures waiting != [] && Named(v, live, Dir(waiting[0], directories[0], []), |live|)
  {
  }

  lemma SkipsNew(v: Volume, live: seq<Owned>, claims: set<Place>)
    requires Closed(v, live, claims, -1)
    ensures Closed(v, live, claims, |live|)
  {
  }

  lemma EmptyDirectory(v: Volume, chain: seq<nat>)
    ensures chain == [] ==> EntriesOf(SlotsOf(v, chain)) == []
  {
  }

  lemma CloseUp(v: Volume, live: seq<Owned>, claims: set<Place>, d: nat)
    requires d < |live| && Closed(v, live, claims, d)
    requires forall k: nat :: k < |EntriesIn(v, live[d])| && Wanted(EntriesIn(v, live[d])[k]) ==> At(d, k) in claims
    ensures Closed(v, live, claims, -1)
  {
  }

  lemma OwnedIsAllocated(v: Volume, live: seq<Owned>, owners: set<nat>, c: nat)
    requires v.Valid() && Tree(v, live) && Covered(live, owners) && c in owners
    ensures v.Known(c) && v.Next(c) != 0
  {
    hide Leads, Named, Distinct, Disjoint;
    var i :| 0 <= i < |live| && c in Elements(live[i].chain);
    assert Sound(v, live[i]);
    var end: nat :| end >= END && Leads(v, live[i].first, live[i].chain, end);
    var k :| 0 <= k < |live[i].chain| && live[i].chain[k] == c;
    ChainIsAllocated(v, live[i].first, live[i].chain, end, k);
  }

  /** `Inspect`: whatever the volume holds, the walk ends, and it returns exactly for tidy volumes:
      those whose directory tree accounts for every cluster. */
  method Inspect(v: Volume) returns (r: Result<nat>)
    requires v.Valid()
    ensures r.Ok? <==> Tidy(v)
    ensures r.Ok? ==> r.value == v.freeSummary * v.clusterBytes
  {
    hide Tree, Covered, Queue, Closed, Balanced, TooLong;
    if v.table != v.mirror {
      return Err(MirrorsDiffer);
    }
    var walk := new Inspection(v);
    NothingYet(v);
    while walk.directories != []
      invariant walk.Valid() && walk.v == v && fresh(walk)
      invariant Closed(v, walk.live, walk.Claimed(), -1) && Root in walk.Claimed()
      invariant forall i :: 0 <= i < |walk.live| && walk.live[i].Dir? ==> !TooLong(v, walk.live[i].chain)
      decreases v.Clusters() - walk.owners, |walk.directories|
    {
      var step := walk.VisitDirectory();
      if step.Err? {
        return Err(step.error);
      }
    }
    NobodyWaits(v, walk.live, walk.waiting);
    var free := walk.Census();
    if free.Err? {
      Unbalanced(v, walk.owners);
      UnbalancedIsUntidy(v, walk.live, walk.owners);
      return Err(free.error);
    }
    BalancedIff(v, walk.owners, free.value);
    if free.value != v.freeSummary {
      UnbalancedIsUntidy(v, walk.live, walk.owners);
      return Err(SummaryDiffers);
    }
    assert Accounts(v, walk.live, walk.owners);
    return Ok(free.value * v.clusterBytes);
  }

  lemma NothingYet(v: Volume)
    ensures Closed(v, [], Claims([], [Root]), -1) && Root in Claims([], [Root])
  {
    assert [Root][0] == Root;
  }

  lemma NobodyWaits(v: Volume, live: seq<Owned>, waiting: seq<Place>)
    requires Queue(v, live, waiting, [])
    ensures Claims(live, waiting) == Places(live)
  {
  }

  lemma Unbalanced(v: Volume, owners: set<nat>)
    requires !forall c: nat :: v.IsCluster(c) ==> v.Known(c) && (v.Next(c) != 0 <==> c in owners)
    ensures !Balanced(v, owners)
  {
  }

  lemma BalancedIff(v: Volume, owners: set<nat>, free: nat)
    requires forall c: nat :: v.IsCluster(c) ==> v.Known(c) && (v.Next(c) != 0 <==> c in owners)
    requires free + |owners| == v.clusterCount
    ensures Balanced(v, owners) <==> free == v.freeSummary
  {
  }
}
