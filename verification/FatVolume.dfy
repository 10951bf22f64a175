/** Reading, writing and resizing files on the sectors of a mounted FAT16 volume, through the caches of its table. */
module FatVolume {
  import opened Bytes
  import opened FatTable
  import opened FatBytes
  import opened FatWalk
  import opened FatWrite
  import opened FatDisk
  import opened FatCache
  import opened Options

  /** A file: where its directory entry is, its first cluster, 0 if it has none, and its length in bytes. */
  class Node {
    const id: nat
    const dirCluster: nat
    const dirIndex: nat
    var cluster: nat
    var size: nat

    constructor (id: nat, dirCluster: nat, dirIndex: nat, cluster: nat, size: nat)
      ensures this.id == id && File() == FatCache.File(id, dirCluster, dirIndex, cluster, size)
    {
      this.id, this.dirCluster, this.dirIndex, this.cluster, this.size := id, dirCluster, dirIndex, cluster, size;
    }

    /** What the cache of chain positions compares. */
    function File(): FatCache.File
      reads this
    {
      FatCache.File(id, dirCluster, dirIndex, cluster, size)
    }
  }

  /** A walk that frees what it comes to has freed `freed` and stands at `cluster`, after `n` links. */
  ghost predicate Freeing(fat0: Fat, fat: Fat, cluster0: nat, cluster: nat, freed: set<nat>, n: nat) {
    && |fat| == |fat0|
    && (forall c: nat :: c < |fat| ==> fat[c] == if c in freed then 0 else fat0[c])
    && (forall c: nat :: c in freed ==> Reaches(fat0, cluster0, c))
    && (forall c: nat :: c in freed ==> var d := Next(fat0, c); d.None? || d.value in freed || d.value == cluster)
    && (cluster0 in freed || cluster0 == cluster)
    && (FIRST_CLUSTER <= cluster < BAD_CLUSTER ==> Nth(fat0, cluster0, n) == Some(cluster))
  }

  lemma FreeingStep(fat0: Fat, fat: Fat, cluster0: nat, cluster: nat, freed: set<nat>, n: nat)
    requires Freeing(fat0, fat, cluster0, cluster, freed, n) && InVolume(fat, cluster)
    ensures Freeing(fat0, fat[cluster := 0], cluster0, fat[cluster], freed + {cluster}, n + 1)
    ensures fat[cluster] != 0 ==> |NonZero(fat[cluster := 0])| < |NonZero(fat)|
    ensures fat[cluster] == 0 ==> fat[cluster := 0] == fat
  {
    if fat[cluster] != 0 { ClearLess(fat, cluster); }
    NthStep(fat0, cluster0, n);
  }

  lemma FreeingDone(fat0: Fat, fat: Fat, cluster0: nat, cluster: nat, freed: set<nat>, n: nat)
    requires Freeing(fat0, fat, cluster0, cluster, freed, n) && (cluster < FIRST_CLUSTER || cluster >= BAD_CLUSTER)
    ensures forall c: nat :: Reaches(fat0, cluster0, c) ==> fat[c] == 0
    ensures !Strays(fat0, cluster0)
  {
    forall c: nat | Reaches(fat0, cluster0, c) ensures fat[c] == 0 {
      var m: nat :| Nth(fat0, cluster0, m) == Some(c);
      ClosedReach(fat0, cluster0, freed, m);
    }
    forall m: nat ensures var v := Nth(fat0, cluster0, m); v.Some? ==> v.value in freed || v.value < FIRST_CLUSTER || v.value >= BAD_CLUSTER {
      ClosedStays(fat0, cluster0, freed, m);
    }
  }

  /** The entries lie in the sectors of the table. */
  lemma EntryBefore(fatStart: nat, sectors: nat, c: nat)
    requires c < sectors * ENTRIES_PER_SECTOR
    ensures SectorOf(fatStart, c) < fatStart + sectors
  {
  }

  lemma OffTable(fatStart: nat, sectors: nat, n: nat, lba: nat)
    requires n <= sectors * ENTRIES_PER_SECTOR && fatStart + sectors <= lba
    ensures forall c: nat :: c < n ==> SectorOf(fatStart, c) != lba
  {
    forall c: nat | c < n ensures SectorOf(fatStart, c) != lba { EntryBefore(fatStart, sectors, c); }
  }

  lemma EntrySector(fatStart: nat, s: nat, i: nat)
    requires i < ENTRIES_PER_SECTOR
    ensures SectorOf(fatStart, s * ENTRIES_PER_SECTOR + i) == fatStart + s && OffsetOf(s * ENTRIES_PER_SECTOR + i) == i * 2
  {
    var x := (s * ENTRIES_PER_SECTOR + i) * 2;
    assert x == s * SECTOR + i * 2;
    QuotientIs(x, s, i * 2);
  }

  lemma QuotientIs(x: nat, s: nat, r: nat)
    requires x == s * SECTOR + r && r < SECTOR
    ensures x / SECTOR == s && x % SECTOR == r
  {
  }

  class Volume {
    const t: Table
    const start: nat
    const spc: nat
    const sectorsPerFat: nat
    const cs: nat := spc * SECTOR
    /** The clusters' contents that the device holds, and the chains of the table. */
    ghost var data: Data
    ghost var forest: Forest

    constructor (t: Table, start: nat, spc: nat, sectorsPerFat: nat, ghost data: Data, ghost forest: Forest)
      requires t.Valid() && DataOn(t.disk, start, spc, data) && Sized(data, spc * SECTOR) && |data| == |t.fat| && spc <= 128
      requires t.fatStart + sectorsPerFat <= start <= |t.disk| && t.limit <= sectorsPerFat * ENTRIES_PER_SECTOR
      requires IsForest(t.fat, forest)
      ensures Valid() && this.t == t && this.start == start && this.spc == spc && this.data == data && this.forest == forest
    {
      this.t, this.start, this.spc, this.sectorsPerFat, this.data, this.forest := t, start, spc, sectorsPerFat, data, forest;
    }

    /** The device holds `data`, behind the table. */
    ghost predicate Backed()
      reads this, t
    {
      && t.Valid() && DataOn(t.disk, start, spc, data) && |data| == |t.fat| && Sized(data, cs)
      && t.fatStart + sectorsPerFat <= start <= |t.disk| && t.limit <= sectorsPerFat * ENTRIES_PER_SECTOR
    }

    ghost predicate Valid()
      reads this, t
    {
      Backed() && IsForest(t.fat, forest) && cs <= 128 * SECTOR
    }

    ghost function Chain(node: Node): seq<nat>
      reads this, node
    {
      if node.cluster in forest then forest[node.cluster] else []
    }

    /** The node stands for a file of this volume, long enough for its size. */
    ghost predicate NodeOk(node: Node)
      reads this, node
    {
      && (if node.cluster == 0 then node.size == 0 else node.cluster in forest)
      && node.size <= Off(|Chain(node)|, cs)
    }

    ghost function Bytes(node: Node): seq<Byte>
      reads this, node
      requires cs > 0
    {
      Content(data, Chain(node), cs, node.size)
    }

    /** Where each byte of a file lies on the device. */
    lemma BytesOnDevice(node: Node, p: nat)
      requires Valid() && NodeOk(node) && p < node.size
      ensures HeldAt(t.disk, start, spc, cs, Chain(node), p, Bytes(node)[p])
    {
      assert forall i :: 0 <= i < |Chain(node)| ==> InVolume(t.fat, Chain(node)[i]);
      ByteOnDisk(t.disk, start, spc, cs, data, Chain(node), p);
    }

    /** `fat_entry` */
    method Entry(cluster: nat) returns (r: Option<nat>)
      requires Backed()
      modifies t`cache, t`cacheLba, t`cacheBase
      ensures Backed() && r == if InVolume(t.fat, cluster) then Some(t.fat[cluster]) else None
    {
      r := t.FatEntry(cluster);
    }

    /** `fat_set` for a cluster of the volume. */
    method SetEntry(cluster: nat, value: nat)
      requires Backed() && InVolume(t.fat, cluster) && value < 0x1_0000
      modifies t`fat, t`disk, t`cacheLba, t`generation, t`writes
      ensures Backed() && t.fat == old(t.fat)[cluster := value]
    {
      EntryBefore(t.fatStart, sectorsPerFat, cluster);
      ghost var lba := SectorOf(t.fatStart, cluster);
      assert EntryAt(t.disk, t.fatStart, t.fat, cluster);
      StoreBefore(t.disk, start, spc, data, lba, WithWord(t.disk[lba], OffsetOf(cluster), value));
      var ok := t.FatSet(cluster, value);
    }

    /** The entry in place `i` of one of the table's sectors. */
    method Peek(s: nat, i: nat) returns (r: nat)
      requires Backed() && s < sectorsPerFat && i < ENTRIES_PER_SECTOR && s * ENTRIES_PER_SECTOR + i < |t.fat|
      ensures r == t.fat[s * ENTRIES_PER_SECTOR + i]
    {
      EntrySector(t.fatStart, s, i);
      assert EntryAt(t.disk, t.fatStart, t.fat, s * ENTRIES_PER_SECTOR + i);
      r := Word(t.disk[t.fatStart + s], i * 2);
    }

    /** `fat_alloc`: the first free cluster. */
    method FatAlloc() returns (r: Option<nat>)
      requires Backed()
      ensures r.Some? ==> InVolume(t.fat, r.value) && t.fat[r.value] == 0
      ensures r.Some? ==> forall c: nat :: c < r.value && InVolume(t.fat, c) ==> t.fat[c] != 0
      ensures r.None? <==> forall c: nat :: InVolume(t.fat, c) ==> t.fat[c] != 0
    {
      for s := 0 to sectorsPerFat
        invariant forall c: nat :: c < s * ENTRIES_PER_SECTOR && c < |t.fat| && InVolume(t.fat, c) ==> t.fat[c] != 0
      {
        for i := 0 to ENTRIES_PER_SECTOR
          invariant forall c: nat :: c < s * ENTRIES_PER_SECTOR + i && c < |t.fat| && InVolume(t.fat, c) ==> t.fat[c] != 0
        {
          var cluster := s * ENTRIES_PER_SECTOR + i;
          if cluster >= FIRST_CLUSTER {
            if cluster >= t.limit { return None; }
            var v := Peek(s, i);
            if v == 0 { return Some(cluster); }
          }
        }
      }
      return None;
    }

    /** `fat_extend`: the next cluster of the chain, linking in a free one at its end. */
    method FatExtend(cluster: nat, ghost h: nat, ghost i: nat) returns (r: Option<nat>)
      requires Valid() && Holds(forest, h, i, cluster)
      modifies this`forest, t`fat, t`disk, t`cache, t`cacheLba, t`cacheBase, t`generation, t`writes
      ensures Valid()
      ensures r.None? ==> t.fat == old(t.fat) && forest == old(forest) && Full(t.fat) && i + 1 == |forest[h]|
      ensures r.Some? ==> Grown(old(forest), forest, h) && Holds(forest, h, i + 1, r.value)
      ensures i + 1 < |old(forest)[h]| ==> r.Some? && forest == old(forest)
    {
      HeldInUse(t.fat, forest, h, i, cluster);
      var next := Entry(cluster);
      assert i + 1 < |forest[h]| ==> InVolume(t.fat, forest[h][i + 1]);
      if next.value < EOC_MIN { return next; }
      var c := FatAlloc();
      if c == None { return None; }
      Link(cluster, h, c.value);
      return c;
    }

    /** Links the free cluster `c` in at the end of a chain. */
    method Link(cluster: nat, ghost h: nat, c: nat)
      requires Valid() && h in forest && forest[h][|forest[h]| - 1] == cluster && InVolume(t.fat, c) && t.fat[c] == 0
      modifies this`forest, t`fat, t`disk, t`cacheLba, t`generation, t`writes
      ensures Valid() && forest == old(forest)[h := old(forest)[h] + [c]]
    {
      LongerChain(t.fat, forest, h, c);
      SetEntry(c, EOC_MIN);
      SetEntry(cluster, c);
      forest := forest[h := forest[h] + [c]];
    }

    /** One pass of the sector loop: read, overlay and write back one sector. */
    method WriteSector(cluster: nat, within: nat, chunk: seq<Byte>)
      requires Backed() && InVolume(t.fat, cluster) && within % SECTOR + |chunk| <= SECTOR && within < cs
      modifies this`data, t`disk, t`cacheLba
      ensures Backed() && within + |chunk| <= cs
      ensures data == old(data)[cluster := Splice(old(data)[cluster], within, chunk)]
    {
      var a, off := within / SECTOR, within % SECTOR;
      var lba := ClusterLba(start, spc, cluster) + a;
      OverlayIn(t.disk, start, spc, data, cluster, within, chunk);
      var sbuf := if off == 0 && |chunk| == SECTOR then chunk else Splice(t.disk[lba], off, chunk);
      assert sbuf == Splice(t.disk[lba], off, chunk);
      PutSector(lba, sbuf, cluster, a);
    }

    /** `sector_write` to sector `a` of a cluster, at `lba`. */
    method PutSector(lba: nat, sbuf: seq<Byte>, ghost cluster: nat, ghost a: nat)
      requires Backed() && InVolume(t.fat, cluster) && a < spc && lba == ClusterLba(start, spc, cluster) + a && |sbuf| == SECTOR
      modifies this`data, t`disk, t`cacheLba
      ensures Backed() && data == old(data)[cluster := Patched(old(data)[cluster], a, sbuf)]
    {
      StoreIn(t.disk, start, spc, data, cluster, a, sbuf);
      OffTable(t.fatStart, sectorsPerFat, t.limit, lba);
      t.DataWrite(lba, sbuf);
      data := data[cluster := Patched(data[cluster], a, sbuf)];
    }

    /** The first cluster of a file that has none yet. */
    method EnsureHead(node: Node) returns (ok: bool)
      requires Valid() && NodeOk(node)
      modifies this`forest, node`cluster, t`fat, t`disk, t`cache, t`cacheLba, t`cacheBase, t`generation, t`writes
      ensures Valid() && NodeOk(node)
      ensures ok <==> node.cluster != 0
      ensures !ok ==> Full(t.fat)
      ensures SameHead(old(forest), old(node.cluster), node.cluster)
      ensures !ok || old(node.cluster) != 0 ==> node.cluster == old(node.cluster) && forest == old(forest)
      ensures OthersSame(old(forest), data, forest, data, node.cluster) && Bytes(node) == old(Bytes(node))
    {
      HeadsInVolume(t.fat, forest);
      if node.cluster == 0 {
        var c := FatAlloc();
        if c == None { return false; }
        NewChain(t.fat, forest, c.value);
        SetEntry(c.value, EOC_MIN);
        forest := forest[c.value := [c.value]];
        node.cluster := c.value;
      }
      return true;
    }

    /** Follows the chain to its cluster number `k`, linking in clusters where it ends. */
    method WalkExtend(h: nat, k: nat) returns (r: Option<nat>)
      requires Valid() && h in forest && k <= |forest[h]|
      modifies this`forest, t`fat, t`disk, t`cache, t`cacheLba, t`cacheBase, t`generation, t`writes
      ensures Valid()
      ensures r.Some? ==> Grown(old(forest), forest, h) && Holds(forest, h, k, r.value)
      ensures r.None? ==> Full(t.fat) && forest == old(forest) && k == |forest[h]|
    {
      var cluster := h;
      for i := 0 to k
        invariant Valid() && Holds(forest, h, i, cluster)
        invariant if i < |old(forest)[h]| then forest == old(forest) else Grown(old(forest), forest, h)
      {
        var next := FatExtend(cluster, h, i);
        if next == None { return None; }
        cluster := next.value;
      }
      return Some(cluster);
    }

    /** One chunk of a write that has put the first `n` bytes of `buf` in place. */
    method WriteChunk(h: nat, cluster: nat, within: nat, buf: seq<Byte>, n: nat, ghost i: nat,
        ghost f0: Forest, ghost data0: Data, ghost ch0: seq<nat>, ghost at: nat)
        returns (chunk: nat)
      requires Writing(h, cluster, within, buf, n, i, f0, data0, ch0, at) && within < cs && n < |buf|
      modifies this`data, t`disk, t`cacheLba
      ensures 0 < chunk && within + chunk <= cs && Writing(h, cluster, within + chunk, buf, n + chunk, i, f0, data0, ch0, at)
    {
      chunk := SECTOR - within % SECTOR;
      if chunk > |buf| - n { chunk := |buf| - n; }
      HeldInUse(t.fat, forest, h, i, cluster);
      ghost var data1 := data;
      WriteSector(cluster, within, buf[n..n + chunk]);
      WrittenMore(data0, ch0, data1, data, forest[h], cs, at, buf, n, i, within, chunk);
      OthersWrite(t.fat, f0, data0, forest, data1, h, i, data[cluster]);
    }

    /** Moves a write on to the chain's next cluster. */
    method NextCluster(h: nat, cluster: nat, ghost i: nat,
        ghost f0: Forest, ghost data0: Data, ghost ch0: seq<nat>, ghost at: nat, ghost buf: seq<Byte>, ghost n: nat)
        returns (r: Option<nat>)
      requires Valid() && Holds(forest, h, i, cluster)
      requires OthersSame(f0, data0, forest, data, h) && Written(data0, ch0, data, forest[h], cs, at, buf, n)
      modifies this`forest, t`fat, t`disk, t`cache, t`cacheLba, t`cacheBase, t`generation, t`writes
      ensures Valid() && h in forest
      ensures OthersSame(f0, data0, forest, data, h) && Written(data0, ch0, data, forest[h], cs, at, buf, n)
      ensures r.Some? ==> Holds(forest, h, i + 1, r.value) && Off(i + 1, cs) == Off(i, cs) + cs
      ensures r.None? ==> Full(t.fat) && Off(|forest[h]|, cs) == Off(i, cs) + cs
    {
      ghost var f1 := forest;
      r := FatExtend(cluster, h, i);
      WrittenGrow(data0, ch0, data, f1[h], forest[h], cs, at, buf, n);
    }

    /** The first `n` bytes are in place, and the write stands `within` bytes into the chain's cluster number `i`. */
    ghost predicate Writing(h: nat, cluster: nat, within: nat, buf: seq<Byte>, n: nat, i: nat, f0: Forest, data0: Data, ch0: seq<nat>, at: nat)
      reads this, t
    {
      && Valid() && Holds(forest, h, i, cluster) && n <= |buf| && Off(i, cs) + within == at + n
      && OthersSame(f0, data0, forest, data, h) && Written(data0, ch0, data, forest[h], cs, at, buf, n)
    }

    /** Moves on to the next cluster if this one is full and there is more to write. */
    method Advance(h: nat, cluster: nat, within: nat, buf: seq<Byte>, n: nat, ghost i: nat,
        ghost f0: Forest, ghost data0: Data, ghost ch0: seq<nat>, ghost at: nat)
        returns (r: Option<nat>, within': nat, ghost i': nat)
      requires Writing(h, cluster, within, buf, n, i, f0, data0, ch0, at) && within <= cs
      modifies this`forest, t`fat, t`disk, t`cache, t`cacheLba, t`cacheBase, t`generation, t`writes
      ensures r.Some? ==> Writing(h, r.value, within', buf, n, i', f0, data0, ch0, at) && (n < |buf| ==> within' < cs)
      ensures r.None? ==> Valid() && h in forest && OthersSame(f0, data0, forest, data, h) && Written(data0, ch0, data, forest[h], cs, at, buf, n)
      ensures r.None? ==> n < |buf| && Full(t.fat) && Off(|forest[h]|, cs) == at + n
    {
      if n < |buf| && within == cs {
        r := NextCluster(h, cluster, i, f0, data0, ch0, at, buf, n);
        return r, 0, i + 1;
      }
      return Some(cluster), within, i;
    }

    /** The sector loop of a write that starts at `at`, in the chain's cluster number `i0`, `within0` bytes in. */
    method WriteSectors(h: nat, cluster0: nat, within0: nat, buf: seq<Byte>, ghost i0: nat, ghost at: nat) returns (done: nat)
      requires Valid() && Holds(forest, h, i0, cluster0) && within0 < cs && at == Off(i0, cs) + within0
      modifies this`forest, this`data, t`fat, t`disk, t`cache, t`cacheLba, t`cacheBase, t`generation, t`writes
      ensures Valid() && h in forest && OthersSame(old(forest), old(data), forest, data, h)
      ensures Written(old(data), old(forest)[h], data, forest[h], cs, at, buf, done)
      ensures done < |buf| ==> Full(t.fat) && Off(|forest[h]|, cs) == at + done
    {
      var cluster: nat, within: nat := cluster0, within0;
      ghost var i: nat, ch0 := i0, forest[h];
      done := 0;
      OffMono(i0, |ch0|, cs);
      while done < |buf|
        invariant Writing(h, cluster, within, buf, done, i, old(forest), old(data), ch0, at) && (done < |buf| ==> within < cs)
        decreases |buf| - done
      {
        var chunk := WriteChunk(h, cluster, within, buf, done, i, old(forest), old(data), ch0, at);
        done := done + chunk;
        var next;
        next, within, i := Advance(h, cluster, within + chunk, buf, done, i, old(forest), old(data), ch0, at);
        if next == None { return; }
        cluster := next.value;
      }
    }

    /** Writes into the chain at `offset`, which must not lie past the chain's end. */
    method WriteFrom(h: nat, offset: nat, buf: seq<Byte>) returns (done: nat)
      requires Valid() && h in forest && offset <= Off(|forest[h]|, cs) && buf != []
      modifies this`forest, this`data, t`fat, t`disk, t`cache, t`cacheLba, t`cacheBase, t`generation, t`writes
      ensures Valid() && h in forest && OthersSame(old(forest), old(data), forest, data, h)
      ensures Written(old(data), old(forest)[h], data, forest[h], cs, offset, buf, done)
      ensures done < |buf| ==> Full(t.fat) && Off(|forest[h]|, cs) == offset + done
    {
      var clIndex, within := offset / cs, offset % cs;
      Locate(offset, |forest[h]|, cs);
      var cluster := WalkExtend(h, clIndex);
      if cluster == None { return 0; }
      ghost var f1 := forest;
      done := WriteSectors(h, cluster.value, within, buf, clIndex, offset);
      WrittenBase(old(data), old(forest)[h], f1[h], data, forest[h], cs, offset, buf, done);
      OthersGrown(old(forest), f1, old(data), forest, data, h);
    }

    /** The first `k` bytes of `buf` are in place in a file that held `was`, and all of them unless the volume is full. */
    ghost predicate Landed(node: Node, was: seq<Byte>, offset: nat, buf: seq<Byte>, k: nat)
      reads this, t, node
      requires cs > 0 && offset <= |was| && k <= |buf|
    {
      if k == |buf| then Bytes(node) == Splice(was, offset, buf)
      else Full(t.fat) && Off(|Chain(node)|, cs) == offset + k && node.size == |was| && Bytes(node) == Splice(was, offset, buf[..k])[..|was|]
    }

    /** A write to a file that has a first cluster. */
    method WriteHeaded(node: Node, offset: nat, buf: seq<Byte>) returns (done: nat)
      requires Valid() && NodeOk(node) && node.cluster != 0 && buf != [] && offset <= node.size
      modifies this`forest, this`data, node`size, t`fat, t`disk, t`cache, t`cacheLba, t`cacheBase, t`generation, t`writes
      ensures Valid() && NodeOk(node) && OthersSame(old(forest), old(data), forest, data, node.cluster)
      ensures done <= |buf| && Landed(node, old(Bytes(node)), offset, buf, done)
    {
      ghost var h, ch0 := node.cluster, Chain(node);
      done := WriteFrom(node.cluster, offset, buf);
      if done < |buf| {
        WrittenSplice(old(data), ch0, data, forest[h], cs, offset, buf, done, node.size, node.size);
      } else {
        WrittenAll(t.fat, forest, h, old(data), ch0, data, cs, offset, buf, node.size);
        var end := Wrap(offset + done);
        if end > node.size { node.size := end; }
      }
    }

    /** A write that starts at or before the end of the file; `k` bytes are in place at the end. */
    method WriteInner(node: Node, offset: nat, buf: seq<Byte>) returns (r: Status, ghost k: nat)
      requires Valid() && NodeOk(node) && buf != [] && offset <= node.size
      modifies this`forest, this`data, node, t`fat, t`disk, t`cache, t`cacheLba, t`cacheBase, t`generation, t`writes
      ensures Valid() && NodeOk(node) && OthersSame(old(forest), old(data), forest, data, node.cluster)
      ensures SameHead(old(forest), old(node.cluster), node.cluster)
      ensures k <= |buf| && Landed(node, old(Bytes(node)), offset, buf, k)
      ensures r == if k < |buf| then NoSpace else Ok(ToInt(|buf|))
    {
      SpliceNone(Bytes(node), offset, buf);
      var ok := EnsureHead(node);
      if !ok { return NoSpace, 0; }
      ghost var f1 := forest;
      var done := WriteHeaded(node, offset, buf);
      OthersTrans(old(forest), old(data), f1, old(data), node.cluster, forest, data, node.cluster);
      k := done;
      r := if done < |buf| then NoSpace else Ok(ToInt(done));
    }

    /** The file stood for by `node` has grown from `was` by zeros, and the other files are as they were. */
    ghost predicate Zeroed(node: Node, f0: Forest, data0: Data, was: seq<Byte>, pos: nat)
      reads this, t, node
    {
      && Valid() && NodeOk(node) && OthersSame(f0, data0, forest, data, node.cluster)
      && pos == node.size && |was| <= pos && Bytes(node) == Padded(was, pos)
    }

    /** One pass of the loop that appends zeros. */
    method ZeroMore(node: Node, pos: nat, chunk: nat, ghost f0: Forest, ghost data0: Data, ghost was: seq<Byte>) returns (ok: bool)
      requires Zeroed(node, f0, data0, was, pos) && chunk > 0 && 0 !in f0
      modifies this`forest, this`data, node, t`fat, t`disk, t`cache, t`cacheLba, t`cacheBase, t`generation, t`writes
      ensures Zeroed(node, f0, data0, was, if ok then pos + chunk else pos)
      ensures SameHead(old(forest), old(node.cluster), node.cluster)
      ensures !ok ==> Full(t.fat) && Off(|Chain(node)|, cs) < pos + chunk
    {
      ghost var f1, data1, h1 := forest, data, node.cluster;
      PadMore(was, pos, chunk);
      var res, k := WriteInner(node, pos, Zeros(chunk));
      OthersTrans(f0, data0, f1, data1, h1, forest, data, node.cluster);
      ok := res.Ok?;
    }

    /** Lengthens the file with zeros, 512 bytes at a time. */
    method ZeroFill(node: Node, size: nat) returns (r: Status)
      requires Valid() && NodeOk(node) && node.size <= size
      modifies this`forest, this`data, node, t`fat, t`disk, t`cache, t`cacheLba, t`cacheBase, t`generation, t`writes
      ensures Zeroed(node, old(forest), old(data), old(Bytes(node)), node.size)
      ensures SameHead(old(forest), old(node.cluster), node.cluster)
      ensures r.Ok? ==> node.size == size
      ensures r.NoSpace? ==> Full(t.fat) && node.size <= Off(|Chain(node)|, cs) < size
    {
      HeadsInVolume(t.fat, forest);
      var pos := node.size;
      while pos < size
        invariant pos <= size && Zeroed(node, old(forest), old(data), old(Bytes(node)), pos)
        invariant SameHead(old(forest), old(node.cluster), node.cluster)
      {
        var chunk := size - pos;
        if chunk > 512 { chunk := 512; }
        var ok := ZeroMore(node, pos, chunk, old(forest), old(data), old(Bytes(node)));
        if !ok { return NoSpace; }
        pos := pos + chunk;
      }
      return Ok(0);
    }

    /** `fs_node_write_inner`: a splice, with any gap before it filled with zeros. */
    method Write(node: Node, offset: nat, buf: seq<Byte>) returns (r: Status, ghost k: nat)
      requires Valid() && NodeOk(node)
      modifies this`forest, this`data, node, t`fat, t`disk, t`cache, t`cacheLba, t`cacheBase, t`generation, t`writes
      ensures Valid() && NodeOk(node) && OthersSame(old(forest), old(data), forest, data, node.cluster)
      ensures SameHead(old(forest), old(node.cluster), node.cluster)
      ensures r.Ok? ==> r.ret == ToInt(|buf|) && (r.ret == |buf| <==> |buf| < 0x8000_0000)
      ensures r.Ok? ==> Bytes(node) == if buf == [] then old(Bytes(node)) else Splice(Padded(old(Bytes(node)), offset), offset, buf)
      ensures r.NoSpace? ==> Full(t.fat) && Off(|Chain(node)|, cs) < offset + |buf|
      ensures r.NoSpace? && node.size < offset ==> Bytes(node) == Padded(old(Bytes(node)), node.size)
      ensures r.NoSpace? && node.size >= offset ==>
        var was := Padded(old(Bytes(node)), offset);
        k < |buf| && node.size == |was| && Bytes(node) == Splice(was, offset, buf[..k])[..|was|]
    {
      HeadsInVolume(t.fat, forest);
      k := 0;
      if buf == [] { return Ok(0), 0; }
      if offset > node.size {
        var res := ZeroFill(node, offset);
        if res.NoSpace? { return NoSpace, 0; }
      }
      ghost var f1, data1, h1 := forest, data, node.cluster;
      r, k := WriteInner(node, offset, buf);
      OthersTrans(old(forest), old(data), f1, data1, h1, forest, data, node.cluster);
    }

    /** `fat_free_chain`: frees what is reached from `cluster0`, on any table, however its links run. */
    method FatFreeChain(cluster0: nat) returns (ok: bool)
      requires Backed()
      modifies t`fat, t`disk, t`cache, t`cacheLba, t`cacheBase, t`generation, t`writes
      ensures Backed() && |t.fat| == |old(t.fat)|
      ensures forall c: nat :: c < |t.fat| ==> t.fat[c] == old(t.fat)[c] || (t.fat[c] == 0 && Reaches(old(t.fat), cluster0, c))
      ensures ok ==> forall c: nat :: Reaches(old(t.fat), cluster0, c) ==> t.fat[c] == 0
      ensures ok <==> !Strays(old(t.fat), cluster0)
    {
      var cluster: nat := cluster0;
      ghost var freed: set<nat>, n: nat := {}, 0;
      while FIRST_CLUSTER <= cluster < BAD_CLUSTER
        invariant Backed() && Freeing(old(t.fat), t.fat, cluster0, cluster, freed, n)
        decreases |NonZero(t.fat)|, if FIRST_CLUSTER <= cluster < BAD_CLUSTER then 1 else 0
      {
        var next := Entry(cluster);
        if next == None { return false; }
        FreeingStep(old(t.fat), t.fat, cluster0, cluster, freed, n);
        SetEntry(cluster, 0);
        freed := freed + {cluster};
        if next.value >= EOC_MIN {
          FreeingDone(old(t.fat), t.fat, cluster0, next.value, freed, n + 1);
          return true;
        }
        cluster, n := next.value, n + 1;
      }
      FreeingDone(old(t.fat), t.fat, cluster0, cluster, freed, n);
      return true;
    }

    /** Freeing from cluster number `k` of a chain on frees the rest of that chain. */
    method FreeTail(cluster: nat, ghost h: nat, ghost k: nat)
      requires Valid() && Holds(forest, h, k, cluster)
      modifies t`fat, t`disk, t`cache, t`cacheLba, t`cacheBase, t`generation, t`writes
      ensures Backed() && t.fat == Freed(old(t.fat), forest[h][k..])
    {
      ghost var ch := forest[h];
      ChainReach(t.fat, ch, k);
      var ok := FatFreeChain(cluster);
    }

    /** The part of a shrink that finds the last cluster to keep and the first to free, 0 if there is none. */
    method FindCut(node: Node, keep: nat) returns (prev: nat, cluster: nat)
      requires Valid() && NodeOk(node) && node.cluster != 0
      modifies t`cache, t`cacheLba, t`cacheBase
      ensures Valid()
      ensures keep < |Chain(node)| ==> cluster != 0 && Holds(forest, node.cluster, keep, cluster)
      ensures keep < |Chain(node)| ==> if keep == 0 then prev == 0 else prev != 0 && Holds(forest, node.cluster, keep - 1, prev)
      ensures keep >= |Chain(node)| ==> cluster == 0
    {
      ghost var ch := Chain(node);
      cluster, prev := node.cluster, 0;
      var i := 0;
      while i < keep && cluster != 0
        invariant Backed() && i <= keep && i < |ch| && cluster != 0 && Holds(forest, node.cluster, i, cluster)
        invariant if i == 0 then prev == 0 else prev != 0 && Holds(forest, node.cluster, i - 1, prev)
      {
        assert InVolume(t.fat, ch[i]) && (i + 1 < |ch| ==> InVolume(t.fat, ch[i + 1]));
        var next := Entry(cluster);
        prev := cluster;
        if next.value >= EOC_MIN { return prev, 0; }
        cluster := next.value;
        i := i + 1;
      }
      assert InVolume(t.fat, ch[i]);
    }

    /** Cuts a file's chain down to its first `keep` clusters. */
    method Cut(node: Node, keep: nat)
      requires Valid() && NodeOk(node) && node.cluster != 0
      modifies this`forest, node`cluster, t`fat, t`disk, t`cache, t`cacheLba, t`cacheBase, t`generation, t`writes
      ensures Valid()
      ensures keep >= |old(Chain(node))| ==> forest == old(forest) && node.cluster == old(node.cluster)
      ensures 0 < keep < |old(Chain(node))| ==>
        node.cluster == old(node.cluster) && forest == old(forest)[node.cluster := old(Chain(node))[..keep]]
      ensures keep == 0 ==> node.cluster == 0 && forest == old(forest) - {old(node.cluster)}
    {
      ghost var h, ch := node.cluster, Chain(node);
      var prev, cluster := FindCut(node, keep);
      if cluster != 0 {
        if keep == 0 { FreeWhole(t.fat, forest, h); } else { CutChain(t.fat, forest, h, keep); }
        FreeTail(cluster, h, keep);
        if prev != 0 {
          SetEntry(prev, EOC_MIN);
          forest := forest[h := ch[..keep]];
        } else {
          assert ch[0..] == ch;
          forest := forest - {h};
          node.cluster := 0;
        }
      }
    }

    /** The cut as the other files see it, and what is left of this one's chain. */
    method CutTo(node: Node, keep: nat, ghost ch: seq<nat>) returns (ghost k: nat)
      requires Valid() && NodeOk(node) && node.cluster != 0 && ch == Chain(node)
      modifies this`forest, node`cluster, t`fat, t`disk, t`cache, t`cacheLba, t`cacheBase, t`generation, t`writes
      ensures Valid() && OthersSame(old(forest), data, forest, data, old(node.cluster))
      ensures k <= |ch| && k <= keep && (k == keep || k == |ch|) && |Chain(node)| == k && Chain(node) == ch[..k] <= ch
      ensures if k == 0 then node.cluster == 0 else node.cluster in forest
    {
      HeadsInVolume(t.fat, forest);
      k := if keep < |Chain(node)| then keep else |Chain(node)|;
      Cut(node, keep);
    }

    /** How many clusters a shrunk file keeps, in 32-bit arithmetic. */
    method KeepCount(node: Node, size: nat) returns (keep: nat)
      requires Valid() && node.cluster in forest && size <= Off(|Chain(node)|, cs)
      ensures size <= Off(keep, cs) && (keep > 0 ==> Off(keep - 1, cs) < size)
    {
      NoWrap(t.fat, forest, node.cluster, cs, size + cs - 1);
      CeilDiv(size, cs);
      return Wrap(size + cs - 1) / cs;
    }

    /** Shrinks a file: frees the clusters that no byte is left on. */
    method Shrink(node: Node, size: nat)
      requires Valid() && NodeOk(node) && size < node.size
      modifies this`forest, node, t`fat, t`disk, t`cache, t`cacheLba, t`cacheBase, t`generation, t`writes
      ensures Valid() && NodeOk(node) && OthersSame(old(forest), data, forest, data, old(node.cluster))
      ensures Bytes(node) == old(Bytes(node))[..size]
      ensures Chain(node) <= old(Chain(node)) && (|Chain(node)| > 0 ==> Off(|Chain(node)| - 1, cs) < size)
    {
      var keep := KeepCount(node, size);
      ghost var ch := Chain(node);
      ghost var k := CutTo(node, keep, ch);
      CutContent(data, ch, k, keep, cs, size, node.size);
      node.size := size;
      assert Chain(node) == ch[..k] && |Chain(node)| == k;
    }

    /** `fs_node_resize_inner`: cuts the file or extends it with zeros. */
    method Resize(node: Node, size: nat) returns (r: Status)
      requires Valid() && NodeOk(node)
      modifies this`forest, this`data, node, t`fat, t`disk, t`cache, t`cacheLba, t`cacheBase, t`generation, t`writes
      ensures Valid() && NodeOk(node)
      ensures OthersSame(old(forest), old(data), forest, data, if old(node.cluster) != 0 then old(node.cluster) else node.cluster)
      ensures old(node.cluster) == 0 ==> node.cluster !in old(forest)
      ensures r.Ok? ==> Bytes(node) == if size <= old(node.size) then old(Bytes(node))[..size] else Padded(old(Bytes(node)), size)
      ensures r.NoSpace? ==> Full(t.fat) && old(node.size) < size && Off(|Chain(node)|, cs) < size
      ensures r.NoSpace? ==> Bytes(node) == Padded(old(Bytes(node)), node.size)
    {
      HeadsInVolume(t.fat, forest);
      if size == node.size {
        assert Bytes(node)[..size] == Bytes(node);
        return Ok(0);
      }
      if size < node.size {
        Shrink(node, size);
        return Ok(0);
      }
      r := ZeroFill(node, size);
    }

    /** Frees a whole chain. */
    method FreeAll(h: nat)
      requires Valid() && h in forest
      modifies this`forest, t`fat, t`disk, t`cache, t`cacheLba, t`cacheBase, t`generation, t`writes
      ensures Valid() && forest == old(forest) - {h} && t.fat == Freed(old(t.fat), old(forest)[h])
    {
      ghost var ch := forest[h];
      FreeWhole(t.fat, forest, h);
      FreeTail(h, h, 0);
      assert ch[0..] == ch;
      forest := forest - {h};
    }

    /** The same where there may be no chain. */
    method FreeFile(h: nat)
      requires Valid() && (h == 0 || h in forest)
      modifies this`forest, t`fat, t`disk, t`cache, t`cacheLba, t`cacheBase, t`generation, t`writes
      ensures Valid() && OthersSame(old(forest), data, forest, data, h)
      ensures forall c: nat :: c < |t.fat| ==> t.fat[c] == if h in old(forest) && c in old(forest)[h] then 0 else old(t.fat)[c]
    {
      HeadsInVolume(t.fat, forest);
      if h != 0 { FreeAll(h); }
    }

    /** `fs_node_truncate_inner`: an empty file without clusters. */
    method Truncate(node: Node)
      requires Valid() && NodeOk(node)
      modifies this`forest, node, t`fat, t`disk, t`cache, t`cacheLba, t`cacheBase, t`generation, t`writes
      ensures Valid() && NodeOk(node) && OthersSame(old(forest), data, forest, data, old(node.cluster))
      ensures Bytes(node) == [] && node.cluster == 0
      ensures forall c: nat :: c < |t.fat| ==> t.fat[c] == if c in old(Chain(node)) then 0 else old(t.fat)[c]
    {
      HeadsInVolume(t.fat, forest);
      FreeFile(node.cluster);
      HeadsInVolume(t.fat, forest);
      node.cluster := 0;
      node.size := 0;
    }

    /** The next bytes of a cluster for a read that wants `left` more, into a buffer at address `addr`. */
    method Piece(cluster: nat, within: nat, left: nat, addr: nat) returns (r: Option<seq<Byte>>)
      requires Backed() && cluster >= FIRST_CLUSTER && within < cs && left > 0
      ensures r.Some? ==> 0 < |r.value| <= left && within + |r.value| <= cs
      ensures cluster < |data| ==> r.Some? && r.value == data[cluster][within..within + |r.value|]
    {
      assert cluster < |data| ==> ClusterAt(t.disk, start, spc, data, cluster);
      r := ReadChunk(t.disk, ClusterLba(start, spc, cluster), spc, within, left, addr);
    }

    /** The read stands `n` bytes after `at`, `within` bytes into the chain's cluster number `i`. */
    ghost predicate Reading(ch: seq<nat>, i: nat, cluster: nat, within: nat, at: nat, out: seq<Byte>, len: nat)
      reads this, t
      requires cs > 0
    {
      && IsChain(t.fat, ch) && i < |ch| && ch[i] == cluster && Off(i, cs) + within == at + |out| && at + len <= Off(|ch|, cs)
      && out == Range(data, ch, cs, at, |out|)
    }

    /** One pass of the sector loop of a read; `good` says that it is on a chain. */
    method ReadMore(cluster: nat, within: nat, len: nat, addr: nat, out: seq<Byte>, ghost good: bool, ghost ch: seq<nat>, ghost i: nat, ghost at: nat)
        returns (r: Option<seq<Byte>>)
      requires Backed() && cluster >= FIRST_CLUSTER && within < cs && |out| < len
      requires good ==> Reading(ch, i, cluster, within, at, out, len)
      ensures r.Some? ==> 0 < |r.value| <= len - |out| && within + |r.value| <= cs
      ensures good ==> r.Some? && Reading(ch, i, cluster, within + |r.value|, at, out + r.value, len)
    {
      assert good ==> InVolume(t.fat, ch[i]);
      r := Piece(cluster, within, len - |out|, addr + |out|);
      if good { RangeMore(data, ch, cs, at, |out|, i, within, |r.value|); }
    }

    /** The sector loop of a read of `len` bytes; `good` says that it starts on a chain, at position `at` of the file. */
    method ReadSectors(cluster0: nat, within0: nat, len: nat, addr: nat, ghost good: bool, ghost ch: seq<nat>, ghost i0: nat, ghost at: nat)
        returns (r: Option<seq<Byte>>)
      requires Backed() && cluster0 >= FIRST_CLUSTER && within0 < cs
      requires good ==> Reading(ch, i0, cluster0, within0, at, [], len)
      modifies t`cache, t`cacheLba, t`cacheBase
      ensures Backed() && (good ==> r == Some(Range(data, ch, cs, at, len)))
    {
      var cluster: nat, within: nat, out := cluster0, within0, [];
      ghost var i: nat := i0;
      while len > |out|
        invariant Backed() && cluster >= FIRST_CLUSTER && |out| <= len && within <= cs && (|out| < len ==> within < cs)
        invariant good ==> Reading(ch, i, cluster, within, at, out, len)
        decreases len - |out|
      {
        var chunk := ReadMore(cluster, within, len, addr, out, good, ch, i, at);
        if chunk == None { return None; }
        out := out + chunk.value;
        within := within + |chunk.value|;
        if |out| < len && within == cs {
          within := 0;
          if good { ReadOn(t.fat, ch, cs, i, at + |out|); }
          var next := t.FatNext(cluster);
          if next == None { return None; }
          cluster, i := next.value, i + 1;
        }
      }
      return Some(out);
    }

    /** A read that lies within the file. */
    method ReadWithin(cpu: nat, node: Node, offset: nat, len: nat, addr: nat) returns (r: Option<seq<Byte>>)
      requires Valid() && NodeOk(node) && len > 0 && offset + len <= node.size
      modifies t`cache, t`cacheLba, t`cacheBase, t`slots, t`stamps
      ensures Valid() && (old(t.Recent(KeyOf(cpu, node.File()))) ==> r == Some(Range(data, Chain(node), cs, offset, len)))
    {
      ghost var ch, good := Chain(node), t.Recent(KeyOf(cpu, node.File()));
      ReadStart(t.fat, ch, cs, offset);
      var clIndex, within := offset / cs, offset % cs;
      var cluster := t.FatReadCluster(cpu, node.File(), clIndex);
      if cluster == None { return None; }
      r := ReadSectors(cluster.value, within, len, addr, good, ch, clIndex, offset);
    }

    /** `fat_read` into a buffer at address `addr`: the bytes asked for, as far as the file goes. */
    method Read(cpu: nat, node: Node, offset: nat, len0: nat, addr: nat) returns (r: Option<seq<Byte>>)
      requires Valid() && NodeOk(node)
      modifies t`cache, t`cacheLba, t`cacheBase, t`slots, t`stamps
      ensures Valid() && (old(t.Recent(KeyOf(cpu, node.File()))) ==> r == Slice(Bytes(node), offset, len0))
      ensures old(t.Recent(KeyOf(cpu, node.File()))) && r.Some? ==> forall k: nat :: k < |r.value| ==> HeldAt(t.disk, start, spc, cs, Chain(node), offset + k, r.value[k])
    {
      ghost var good := t.Recent(KeyOf(cpu, node.File()));
      if len0 == 0 { return Some([]); }
      if offset >= node.size { return None; }
      var len := if len0 > node.size - offset then node.size - offset else len0;
      RangeIsSlice(data, Chain(node), cs, offset, len0, len, node.size);
      r := ReadWithin(cpu, node, offset, len, addr);
      if good {
        forall k: nat | k < |r.value| ensures HeldAt(t.disk, start, spc, cs, Chain(node), offset + k, r.value[k]) { BytesOnDevice(node, offset + k); }
      }
    }

    /** A write leaves any other file's bytes as they were. */
    method WriteBeside(node: Node, other: Node, offset: nat, buf: seq<Byte>) returns (r: Status)
      requires Valid() && NodeOk(node) && NodeOk(other) && other != node && (other.cluster == 0 || other.cluster != node.cluster)
      modifies this`forest, this`data, node, t`fat, t`disk, t`cache, t`cacheLba, t`cacheBase, t`generation, t`writes
      ensures Valid() && NodeOk(other) && Bytes(other) == old(Bytes(other))
    {
      ghost var k;
      r, k := Write(node, offset, buf);
      if other.cluster != 0 { OtherFile(old(forest), old(data), forest, data, node.cluster, other.cluster, cs, other.size); }
    }

    /** After a write that succeeds the file holds what was written. */
    method WriteIn(node: Node, offset: nat, buf: seq<Byte>) returns (ok: bool)
      requires Valid() && NodeOk(node)
      modifies this`forest, this`data, node, t`fat, t`disk, t`cache, t`cacheLba, t`cacheBase, t`generation, t`writes
      ensures Valid() && NodeOk(node) && (ok ==> Slice(Bytes(node), offset, |buf|) == Some(buf))
    {
      ReadBack(Bytes(node), offset, buf);
      var r, k := Write(node, offset, buf);
      ok := r.Ok?;
    }

    /** A write that succeeds is read back, wherever the file ended before, unless the reader's slot is 2^32 table writes old. */
    method WriteThenRead(cpu: nat, node: Node, offset: nat, buf: seq<Byte>, addr: nat) returns (ok: bool, got: Option<seq<Byte>>)
      requires Valid() && NodeOk(node)
      modifies this`forest, this`data, node, t
      ensures Valid() && NodeOk(node)
      ensures var k := KeyOf(cpu, node.File());
        ok && (k in old(t.slots) && k in old(t.stamps) ==> t.writes < old(t.stamps)[k] + U32) ==> got == Some(buf)
    {
      ok := WriteIn(node, offset, buf);
      got := Read(cpu, node, offset, |buf|, addr);
    }
  }
}
