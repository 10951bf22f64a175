/** The FAT on its sectors, with the sector cache and the per-CPU cache of chain positions. */
module FatCache {
  import opened Bytes
  import opened FatTable
  import opened FatWalk
  import opened Options

  const NO_SECTOR: nat := U32 - 1
  const SLOTS: nat := 8

  type Sectors = seq<seq<Byte>>

  /** `rd16`. */
  function Word(s: seq<Byte>, off: nat): (r: nat)
    requires off + 1 < |s|
    ensures r < 0x1_0000
  {
    s[off] as nat + 256 * s[off + 1] as nat
  }

  /** `s` with the little-endian `v` at `off`. */
  function WithWord(s: seq<Byte>, off: nat, v: nat): (r: seq<Byte>)
    requires off + 1 < |s| && v < 0x1_0000
    ensures |r| == |s|
  {
    s[off := (v % 256) as Byte][off + 1 := (v / 256) as Byte]
  }

  ghost predicate Even(disk: Sectors) {
    forall l: nat :: l < |disk| ==> |disk[l]| == SECTOR
  }

  /** The sector of entry `c`, and its place there. */
  function SectorOf(start: nat, c: nat): nat {
    start + c * 2 / SECTOR
  }

  function OffsetOf(c: nat): (r: nat)
    ensures r + 1 < SECTOR && r % 2 == 0
  {
    c * 2 % SECTOR
  }

  /** Entry `c` is in its place. */
  ghost predicate EntryAt(disk: Sectors, start: nat, fat: Fat, c: nat) {
    && c < |fat| && SectorOf(start, c) < |disk| && |disk[SectorOf(start, c)]| == SECTOR
    && fat[c] == Word(disk[SectorOf(start, c)], OffsetOf(c))
  }

  /** The sectors from `start` on hold the table. */
  ghost predicate Laid(disk: Sectors, start: nat, fat: Fat) {
    Even(disk) && forall c: nat {:trigger EntryAt(disk, start, fat, c)} :: c < |fat| ==> EntryAt(disk, start, fat, c)
  }

  /** Two entries in one sector lie in different places. */
  lemma EntryPlace(start: nat, c: nat, d: nat)
    requires SectorOf(start, c) == SectorOf(start, d) && c != d
    ensures OffsetOf(c) != OffsetOf(d)
  {
  }

  /** Storing a word in its place changes that entry only, and none if it lies behind the table. */
  lemma StoreEntry(disk: Sectors, start: nat, fat: Fat, c: nat, v: nat)
    requires Laid(disk, start, fat) && SectorOf(start, c) < |disk| && v < 0x1_0000
    ensures var l := SectorOf(start, c);
      Laid(disk[l := WithWord(disk[l], OffsetOf(c), v)], start, if c < |fat| then fat[c := v] else fat)
  {
    var l := SectorOf(start, c);
    var disk', fat' := disk[l := WithWord(disk[l], OffsetOf(c), v)], if c < |fat| then fat[c := v] else fat;
    forall d: nat | d < |fat| ensures EntryAt(disk', start, fat', d) {
      assert EntryAt(disk, start, fat, d);
      if d != c && SectorOf(start, d) == l { EntryPlace(start, c, d); }
    }
  }

  /** One word of one sector changed. */
  predicate OneWord(disk: Sectors, disk': Sectors, l: nat, off: nat, v: nat) {
    l < |disk| && off + 1 < |disk[l]| && v < 0x1_0000 && disk' == disk[l := WithWord(disk[l], off, v)]
  }

  /** Sectors outside the table do not matter to it. */
  lemma StoreElsewhere(disk: Sectors, start: nat, fat: Fat, l: nat, buf: seq<Byte>)
    requires Laid(disk, start, fat) && l < |disk| && |buf| == SECTOR
    requires forall c: nat :: c < |fat| ==> SectorOf(start, c) != l
    ensures Laid(disk[l := buf], start, fat)
  {
    var disk' := disk[l := buf];
    forall c: nat | c < |fat| ensures EntryAt(disk', start, fat, c) { assert EntryAt(disk, start, fat, c); }
  }

  /** What a lookup knows of a file: where its node is, its directory entry, first cluster and size. */
  datatype File = File(node: nat, dirCluster: nat, dirIndex: nat, cluster: nat, size: nat)

  datatype Slot = Slot(file: File, index: nat, cluster: nat, generation: nat)

  datatype Key = Key(cpu: nat, slot: nat)

  function KeyOf(cpu: nat, f: File): Key {
    Key(cpu, (f.dirIndex * 2654435761 + f.dirCluster + f.cluster) % U32 % SLOTS)
  }

  /** `cluster_nth`. */
  function Lookup(fat: Fat, cluster: nat, target: nat): Option<nat> {
    if InVolume(fat, cluster) then Nth(fat, cluster, target) else None
  }

  lemma {:induction false} NthAdd(fat: Fat, c: nat, m: nat, n: nat)
    requires Nth(fat, c, m).Some?
    ensures Nth(fat, c, m + n) == Nth(fat, Nth(fat, c, m).value, n)
    decreases m
  {
    if m > 0 { NthAdd(fat, Next(fat, c).value, m - 1, n); }
  }

  lemma {:induction false} NthFrom(fat: Fat, c: nat, n: nat)
    requires c >= FIRST_CLUSTER && Nth(fat, c, n).Some?
    ensures Nth(fat, c, n).value >= FIRST_CLUSTER
    decreases n
  {
    if n > 0 { NthFrom(fat, Next(fat, c).value, n - 1); }
  }

  /** A walk can be taken up where an earlier one ended. */
  lemma SlotWalk(fat: Fat, first: nat, index: nat, cluster: nat, target: nat)
    requires InVolume(fat, first) && Nth(fat, first, index) == Some(cluster) && index <= target
    ensures Nth(fat, cluster, target - index) == Nth(fat, first, target) == Lookup(fat, first, target)
  {
    NthAdd(fat, first, index, target - index);
  }

  /** The 32-bit stamps agree exactly when the number of writes since is a multiple of 2^32. */
  lemma SameGeneration(stamp: nat, writes: nat)
    requires stamp <= writes
    ensures stamp % U32 == writes % U32 <==> (writes - stamp) % U32 == 0
    ensures writes < stamp + U32 ==> (stamp % U32 == writes % U32 <==> stamp == writes)
  {
  }

  lemma NextGeneration(writes: nat)
    ensures (writes % U32 + 1) % U32 == (writes + 1) % U32
  {
  }

  ghost predicate SlotTrue(fat: Fat, s: Slot) {
    InVolume(fat, s.file.cluster) && Nth(fat, s.file.cluster, s.index) == Some(s.cluster)
  }

  /** A slot filled since the table was last written leads to the right cluster. */
  ghost predicate SlotOk(slots: map<Key, Slot>, stamps: map<Key, nat>, writes: nat, fat: Fat, k: Key)
    requires k in slots
  {
    && k in stamps && stamps[k] <= writes && slots[k].generation == stamps[k] % U32 && slots[k].cluster >= FIRST_CLUSTER
    && (stamps[k] == writes ==> SlotTrue(fat, slots[k]))
  }

  ghost predicate SlotsOk(slots: map<Key, Slot>, stamps: map<Key, nat>, writes: nat, fat: Fat) {
    forall k {:trigger SlotOk(slots, stamps, writes, fat, k)} :: k in slots ==> SlotOk(slots, stamps, writes, fat, k)
  }

  lemma SlotsAge(slots: map<Key, Slot>, stamps: map<Key, nat>, writes: nat, fat: Fat, fat': Fat)
    requires SlotsOk(slots, stamps, writes, fat)
    ensures SlotsOk(slots, stamps, writes + 1, fat')
  {
    forall k | k in slots ensures SlotOk(slots, stamps, writes + 1, fat', k) { assert SlotOk(slots, stamps, writes, fat, k); }
  }

  lemma SlotFilled(slots: map<Key, Slot>, stamps: map<Key, nat>, writes: nat, fat: Fat, k: Key, s: Slot)
    requires SlotsOk(slots, stamps, writes, fat) && s.generation == writes % U32 && SlotTrue(fat, s)
    ensures SlotsOk(slots[k := s], stamps[k := writes], writes, fat)
  {
    NthFrom(fat, s.file.cluster, s.index);
    var slots', stamps' := slots[k := s], stamps[k := writes];
    forall j | j in slots' ensures SlotOk(slots', stamps', writes, fat, j) {
      if j != k { assert SlotOk(slots, stamps, writes, fat, j); }
    }
  }

  lemma SlotMoved(slots: map<Key, Slot>, stamps: map<Key, nat>, writes: nat, fat: Fat, k: Key, s: Slot)
    requires SlotsOk(slots, stamps, writes, fat) && k in slots && s.generation == slots[k].generation && s.cluster >= FIRST_CLUSTER
    requires k in stamps && stamps[k] == writes ==> SlotTrue(fat, s)
    ensures SlotsOk(slots[k := s], stamps, writes, fat)
  {
    var slots' := slots[k := s];
    forall j | j in slots' ensures SlotOk(slots', stamps, writes, fat, j) { assert SlotOk(slots, stamps, writes, fat, j); }
  }

  class Table {
    const fatStart: nat
    const limit: nat
    var disk: Sectors
    var cache: seq<Byte>
    var cacheLba: nat
    var cacheBase: nat
    var generation: nat
    var slots: map<Key, Slot>
    /** The table, how often it was written, and how often it had been when each slot was filled. */
    ghost var fat: Fat
    ghost var writes: nat
    ghost var stamps: map<Key, nat>

    constructor (disk: Sectors, fatStart: nat, limit: nat, ghost fat: Fat)
      requires Laid(disk, fatStart, fat) && |fat| == limit <= BAD_CLUSTER && |disk| <= NO_SECTOR
      ensures Valid() && this.disk == disk && this.fatStart == fatStart && this.fat == fat && slots == map[] && writes == 0
    {
      this.fatStart, this.limit, this.disk, this.fat := fatStart, limit, disk, fat;
      cache, cacheLba, cacheBase := [], NO_SECTOR, NO_SECTOR;
      generation, slots, writes, stamps := 0, map[], 0, map[];
    }

    ghost predicate OnDisk()
      reads this
    {
      Laid(disk, fatStart, fat) && |fat| == limit <= BAD_CLUSTER && |disk| <= NO_SECTOR
    }

    ghost predicate CacheTrue()
      reads this
    {
      cacheLba < |disk| && cacheBase == fatStart ==> cache == disk[cacheLba]
    }

    ghost predicate Valid()
      reads this
    {
      OnDisk() && CacheTrue() && generation == writes % U32 && SlotsOk(slots, stamps, writes, fat)
    }

    /** `fat_sector`. */
    method FatSector(lba: nat) returns (buf: seq<Byte>)
      requires OnDisk() && CacheTrue() && lba < |disk|
      modifies this`cache, this`cacheLba, this`cacheBase
      ensures CacheTrue() && buf == disk[lba] && cacheLba == lba && cacheBase == fatStart
    {
      if lba != cacheLba || fatStart != cacheBase {
        cache := disk[lba];
        cacheLba := lba;
        cacheBase := fatStart;
      }
      return cache;
    }

    /** `fat_entry`. */
    method FatEntry(cluster: nat) returns (r: Option<nat>)
      requires OnDisk() && CacheTrue()
      modifies this`cache, this`cacheLba, this`cacheBase
      ensures CacheTrue()
      ensures r == if InVolume(fat, cluster) then Some(fat[cluster]) else None
    {
      if !(FIRST_CLUSTER <= cluster < limit) { return None; }
      assert EntryAt(disk, fatStart, fat, cluster);
      var p := FatSector(SectorOf(fatStart, cluster));
      return Some(Word(p, OffsetOf(cluster)));
    }

    /** `fat_next`. */
    method FatNext(cluster: nat) returns (r: Option<nat>)
      requires OnDisk() && CacheTrue()
      modifies this`cache, this`cacheLba, this`cacheBase
      ensures CacheTrue() && r == Next(fat, cluster)
    {
      var v := FatEntry(cluster);
      if v == None || v.value >= EOC_MIN || v.value < FIRST_CLUSTER { return None; }
      return v;
    }

    /** `sector_write`. */
    method SectorWrite(lba: nat, buf: seq<Byte>)
      requires |disk| <= NO_SECTOR && lba < |disk| && |buf| == SECTOR
      modifies this`disk, this`cacheLba
      ensures disk == old(disk)[lba := buf] && CacheTrue()
    {
      cacheLba := NO_SECTOR;
      disk := disk[lba := buf];
    }

    /** A write to a sector that holds no entry keeps every cached fact. */
    method DataWrite(lba: nat, buf: seq<Byte>)
      requires Valid() && lba < |disk| && |buf| == SECTOR && forall c: nat :: c < limit ==> SectorOf(fatStart, c) != lba
      modifies this`disk, this`cacheLba
      ensures Valid() && disk == old(disk)[lba := buf]
    {
      StoreElsewhere(disk, fatStart, fat, lba, buf);
      SectorWrite(lba, buf);
    }

    /** `fat_set`; the sector can be read if the device has it. */
    method FatSet(cluster: nat, value: nat) returns (ok: bool)
      requires Valid() && value < 0x1_0000
      modifies this`disk, this`cacheLba, this`generation, this`writes, this`fat
      ensures Valid() && ok == (FIRST_CLUSTER <= cluster < BAD_CLUSTER && SectorOf(fatStart, cluster) < |disk|)
      ensures fat == if ok && cluster < limit then old(fat)[cluster := value] else old(fat)
      ensures if ok then OneWord(old(disk), disk, SectorOf(fatStart, cluster), OffsetOf(cluster), value) else disk == old(disk)
      ensures writes == old(writes) + if ok then 1 else 0
    {
      if cluster < FIRST_CLUSTER || cluster >= BAD_CLUSTER { return false; }
      var lba := SectorOf(fatStart, cluster);
      if lba >= |disk| { return false; }
      StoreEntry(disk, fatStart, fat, cluster, value);
      SectorWrite(lba, WithWord(disk[lba], OffsetOf(cluster), value));
      NextGeneration(writes);
      generation := (generation + 1) % U32;
      ghost var fat' := if cluster < limit then fat[cluster := value] else fat;
      SlotsAge(slots, stamps, writes, fat, fat');
      writes, fat := writes + 1, fat';
      return true;
    }

    /** The walk behind both ways of a lookup. */
    method Walk(cluster0: nat, skip: nat) returns (r: Option<nat>)
      requires OnDisk() && CacheTrue()
      modifies this`cache, this`cacheLba, this`cacheBase
      ensures CacheTrue() && r == Nth(fat, cluster0, skip)
    {
      var cluster := cluster0;
      for i := 0 to skip
        invariant CacheTrue() && Nth(fat, cluster0, skip) == Nth(fat, cluster, skip - i)
      {
        var next := FatNext(cluster);
        if next == None { return None; }
        cluster := next.value;
      }
      return Some(cluster);
    }

    /** The slot for `f`, if it is filled, was filled fewer than 2^32 table writes ago. */
    ghost predicate Recent(k: Key)
      reads this
    {
      k in slots && k in stamps ==> writes < stamps[k] + U32
    }

    /** The slot is used for a lookup. */
    predicate Hit(k: Key, f: File, target: nat)
      reads this
    {
      k in slots && slots[k].generation == generation && slots[k].file == f && slots[k].index <= target
    }

    /** The rest of the walk from where slot `k` left off. */
    method FromSlot(k: Key, target: nat) returns (r: Option<nat>)
      requires Valid() && k in slots && slots[k].generation == generation && slots[k].index <= target
      modifies this`cache, this`cacheLba, this`cacheBase, this`slots
      ensures Valid() && r == Nth(fat, old(slots)[k].cluster, target - old(slots)[k].index)
      ensures old(Recent(k)) ==> r == Lookup(fat, old(slots)[k].file.cluster, target)
      ensures r.Some? ==> r.value >= FIRST_CLUSTER && k in slots && slots[k] == old(slots)[k].(index := target, cluster := r.value)
    {
      var s := slots[k];
      assert SlotOk(slots, stamps, writes, fat, k);
      SameGeneration(stamps[k], writes);
      if stamps[k] == writes { SlotWalk(fat, s.file.cluster, s.index, s.cluster, target); }
      r := Walk(s.cluster, target - s.index);
      if r.Some? {
        NthFrom(fat, s.cluster, target - s.index);
        SlotMoved(slots, stamps, writes, fat, k, s.(index := target, cluster := r.value));
        slots := slots[k := s.(index := target, cluster := r.value)];
      }
    }

    /** A lookup with slot `k`. */
    method LookWith(k: Key, f: File, target: nat) returns (r: Option<nat>)
      requires Valid()
      modifies this`cache, this`cacheLba, this`cacheBase, this`slots, this`stamps
      ensures Valid()
      ensures old(Recent(k)) ==> r == Lookup(fat, f.cluster, target)
      ensures r == if old(Hit(k, f, target)) then var s := old(slots)[k]; Nth(fat, s.cluster, target - s.index)
                   else Lookup(fat, f.cluster, target)
      ensures r.Some? ==> r.value >= FIRST_CLUSTER
      ensures r.Some? ==> k in slots && slots[k] == Slot(f, target, r.value, generation)
    {
      if Hit(k, f, target) {
        r := FromSlot(k, target);
        return;
      }
      if !(FIRST_CLUSTER <= f.cluster < limit) { return None; }
      r := Walk(f.cluster, target);
      if r == None { return; }
      NthFrom(fat, f.cluster, target);
      SlotFilled(slots, stamps, writes, fat, k, Slot(f, target, r.value, generation));
      slots := slots[k := Slot(f, target, r.value, generation)];
      stamps := stamps[k := writes];
    }

    /** `fat_read_cluster`: the cache does not show, unless the slot is 2^32 table writes old. */
    method FatReadCluster(cpu: nat, f: File, target: nat) returns (r: Option<nat>)
      requires Valid()
      modifies this`cache, this`cacheLba, this`cacheBase, this`slots, this`stamps
      ensures Valid() && (r.Some? ==> r.value >= FIRST_CLUSTER)
      ensures old(Recent(KeyOf(cpu, f))) ==> r == Lookup(fat, f.cluster, target)
      ensures var k := KeyOf(cpu, f);
        r == if old(Hit(k, f, target)) then var s := old(slots)[k]; Nth(fat, s.cluster, target - s.index)
             else Lookup(fat, f.cluster, target)
      ensures var k := KeyOf(cpu, f); r.Some? ==> k in slots && slots[k] == Slot(f, target, r.value, generation)
    {
      r := LookWith(KeyOf(cpu, f), f, target);
    }
  }

  /** Links cluster `a` to `c`, over and over. */
  method Relink(t: Table, a: nat, c: nat, times: nat)
    requires t.Valid() && FIRST_CLUSTER <= a < t.limit && c < 0x1_0000 && times > 0
    modifies t`disk, t`cacheLba, t`generation, t`writes, t`fat
    ensures t.Valid() && t.fat == old(t.fat)[a := c] && t.writes == old(t.writes) + times
  {
    for i := 0 to times
      invariant t.Valid() && t.writes == old(t.writes) + i
      invariant t.fat == if i == 0 then old(t.fat) else old(t.fat)[a := c]
    {
      assert EntryAt(t.disk, t.fatStart, t.fat, a);
      var ok := t.FatSet(a, c);
    }
  }

  /** A slot that is 2^32 table writes old gives the cluster that the file had then, and so does every further read. */
  method StaleRead(t: Table, cpu: nat, f: File, b: nat, c: nat) returns (r: Option<nat>)
    requires t.Valid() && t.slots == map[] && b != c
    requires FIRST_CLUSTER <= f.cluster < t.limit && FIRST_CLUSTER <= b < EOC_MIN && FIRST_CLUSTER <= c < EOC_MIN && t.fat[f.cluster] == b
    modifies t
    ensures t.Valid() && r == Some(b) && Lookup(t.fat, f.cluster, 1) == Some(c) && t.writes == old(t.writes) + U32
    ensures t.Hit(KeyOf(cpu, f), f, 1) && t.slots[KeyOf(cpu, f)] == Slot(f, 1, b, t.generation)
  {
    r := t.FatReadCluster(cpu, f, 1);
    Relink(t, f.cluster, c, U32);
    SameGeneration(old(t.writes), t.writes);
    r := t.FatReadCluster(cpu, f, 1);
  }
}
