/** The clusters' contents on the sectors of the device. */
module FatDisk {
  import opened Bytes
  import opened FatBytes
  import opened FatTable
  import opened FatWrite
  import opened FatCache
  import opened Options

  /** The `n` sectors from `lba` on, end to end. */
  ghost function Joined(disk: Sectors, lba: nat, n: nat): (r: seq<Byte>)
    requires Even(disk) && lba + n <= |disk|
    ensures |r| == n * SECTOR && forall p: nat :: p < |r| ==> r[p] == disk[lba + p / SECTOR][p % SECTOR]
  {
    seq(n * SECTOR, p requires 0 <= p < n * SECTOR => disk[lba + p / SECTOR][p % SECTOR])
  }

  /** `cluster_lba`, with clusters of `spc` sectors. */
  function ClusterLba(start: nat, spc: nat, c: nat): (r: nat)
    requires c >= FIRST_CLUSTER
    ensures r >= start
  {
    start + (c - FIRST_CLUSTER) * spc
  }

  /** Cluster `c` is in its place. */
  ghost predicate ClusterAt(disk: Sectors, start: nat, spc: nat, data: Data, c: nat)
    requires Even(disk) && FIRST_CLUSTER <= c < |data|
  {
    ClusterLba(start, spc, c) + spc <= |disk| && data[c] == Joined(disk, ClusterLba(start, spc, c), spc)
  }

  /** The sectors from `start` on hold the clusters' contents. */
  ghost predicate DataOn(disk: Sectors, start: nat, spc: nat, data: Data) {
    && Even(disk) && spc > 0
    && forall c: nat {:trigger ClusterAt(disk, start, spc, data, c)} :: FIRST_CLUSTER <= c < |data| ==> ClusterAt(disk, start, spc, data, c)
  }

  /** A part of one sector is a part of the cluster. */
  lemma PartOfOne(disk: Sectors, lba: nat, spc: nat, within: nat, n: nat)
    requires Even(disk) && lba + spc <= |disk| && within < spc * SECTOR && within % SECTOR + n <= SECTOR
    ensures lba + within / SECTOR < |disk| && within + n <= spc * SECTOR
    ensures var off := within % SECTOR;
      disk[lba + within / SECTOR][off..off + n] == Joined(disk, lba, spc)[within..within + n]
  {
    var off, a := within % SECTOR, within / SECTOR;
    var part, whole := disk[lba + a][off..off + n], Joined(disk, lba, spc)[within..within + n];
    forall k: nat | k < n ensures part[k] == whole[k] {
      assert (within + k) / SECTOR == a && (within + k) % SECTOR == off + k;
    }
  }

  /** Whole sectors are a part of the cluster. */
  lemma PartOfMany(disk: Sectors, lba: nat, spc: nat, a: nat, n: nat)
    requires Even(disk) && lba + spc <= |disk| && a + n <= spc
    ensures Joined(disk, lba + a, n) == Joined(disk, lba, spc)[a * SECTOR..a * SECTOR + n * SECTOR]
  {
    var part, whole := Joined(disk, lba + a, n), Joined(disk, lba, spc)[a * SECTOR..a * SECTOR + n * SECTOR];
    forall k: nat | k < n * SECTOR ensures part[k] == whole[k] {
      assert (a * SECTOR + k) / SECTOR == a + k / SECTOR && (a * SECTOR + k) % SECTOR == k % SECTOR;
    }
  }

  /** `block_read` of `n` sectors. */
  method BlockRead(disk: Sectors, lba: nat, n: nat) returns (r: Option<seq<Byte>>)
    requires Even(disk)
    ensures r == if lba + n <= |disk| then Some(Joined(disk, lba, n)) else None
  {
    if lba + n > |disk| { return None; }
    var out := [];
    for i := 0 to n
      invariant out == Joined(disk, lba, i)
    {
      var more := out + disk[lba + i];
      assert |more| == (i + 1) * SECTOR;
      forall p: nat | p < |more| ensures more[p] == Joined(disk, lba, i + 1)[p] {
        if p >= i * SECTOR { assert p / SECTOR == i && p % SECTOR == p - i * SECTOR; }
      }
      out := more;
    }
    return Some(out);
  }

  /** Whole sectors at once, from a sector boundary on. */
  method ReadBurst(disk: Sectors, lba: nat, spc: nat, a: nat, left: nat) returns (r: Option<seq<Byte>>)
    requires Even(disk) && a < spc && left >= SECTOR
    ensures r.Some? ==> 0 < |r.value| <= left && a * SECTOR + |r.value| <= spc * SECTOR
    ensures lba + spc <= |disk| ==> r.Some? && r.value == Joined(disk, lba, spc)[a * SECTOR..a * SECTOR + |r.value|]
  {
    var n := BurstSectors(left, spc - a);
    if lba + spc <= |disk| { PartOfMany(disk, lba, spc, a, n); }
    r := BlockRead(disk, lba + a, n);
  }

  /** The next bytes of a cluster at `lba` for a read that wants `left` more, into a buffer at address `addr`. */
  method ReadChunk(disk: Sectors, lba: nat, spc: nat, within: nat, left: nat, addr: nat) returns (r: Option<seq<Byte>>)
    requires Even(disk) && within < spc * SECTOR && left > 0
    ensures r.Some? ==> 0 < |r.value| <= left && within + |r.value| <= spc * SECTOR
    ensures lba + spc <= |disk| ==> r.Some? && r.value == Joined(disk, lba, spc)[within..within + |r.value|]
  {
    var a, off := within / SECTOR, within % SECTOR;
    if off == 0 && left >= SECTOR && addr % 2 == 0 {
      r := ReadBurst(disk, lba, spc, a, left);
      return;
    }
    var n := if SECTOR - off > left then left else SECTOR - off;
    if lba + a >= |disk| { return None; }
    if lba + spc <= |disk| { PartOfOne(disk, lba, spc, within, n); }
    return Some(disk[lba + a][off..off + n]);
  }

  /** How many sectors are read at once. */
  function BurstSectors(left: nat, avail: nat): (n: nat)
    requires left >= SECTOR && avail > 0
    ensures 0 < n <= avail && n * SECTOR <= left && n <= 256
    ensures n < avail && n < 256 ==> left < (n + 1) * SECTOR
  {
    var n := if left / SECTOR > avail then avail else left / SECTOR;
    if n > 256 then 256 else n
  }

  /** Clusters do not overlap. */
  lemma ClustersApart(start: nat, spc: nat, c: nat, d: nat)
    requires FIRST_CLUSTER <= c < d
    ensures ClusterLba(start, spc, c) + spc <= ClusterLba(start, spc, d)
  {
    var m, k := c - FIRST_CLUSTER, d - c;
    assert (m + k) * spc == m * spc + spc + (k - 1) * spc;
  }

  /** The clusters follow each other without a gap, and the first one lies at the start of the data area. */
  lemma ClustersFollow(start: nat, spc: nat, c: nat)
    requires c >= FIRST_CLUSTER
    ensures ClusterLba(start, spc, FIRST_CLUSTER) == start
    ensures ClusterLba(start, spc, c + 1) == ClusterLba(start, spc, c) + spc
  {
    var m := c - FIRST_CLUSTER;
    assert (m + 1) * spc == m * spc + spc;
  }

  /** Sector `l` is one of cluster `c`. */
  predicate SectorIn(start: nat, spc: nat, c: nat, l: nat) {
    c >= FIRST_CLUSTER && ClusterLba(start, spc, c) <= l < ClusterLba(start, spc, c) + spc
  }

  /** So every sector of the data area belongs to exactly one cluster. */
  lemma {:induction false} ClusterOfSector(start: nat, spc: nat, l: nat) returns (c: nat)
    requires spc > 0 && l >= start
    ensures SectorIn(start, spc, c, l) && forall d: nat :: SectorIn(start, spc, d, l) ==> d == c
    decreases l
  {
    ClustersFollow(start, spc, FIRST_CLUSTER);
    if l < start + spc {
      c := FIRST_CLUSTER;
    } else {
      c := ClusterOfSector(start, spc, l - spc);
      ClustersFollow(start, spc, c);
      c := c + 1;
    }
    forall d: nat | SectorIn(start, spc, d, l) ensures d == c {
      if d < c { ClustersApart(start, spc, d, c); }
      if c < d { ClustersApart(start, spc, c, d); }
    }
  }

  /** The sector on which byte `p` of a file on chain `ch` lies, with clusters of `spc` sectors and `cs` bytes. */
  function SectorOfByte(start: nat, spc: nat, cs: nat, ch: seq<nat>, p: nat): int
    requires cs > 0 && p / cs < |ch|
  {
    start + (ch[p / cs] - 2) * spc + p % cs / 512
  }

  /** The device holds `b` where byte `p` of a file on chain `ch` belongs. */
  ghost predicate HeldAt(disk: Sectors, start: nat, spc: nat, cs: nat, ch: seq<nat>, p: nat, b: Byte) {
    && cs > 0 && p / cs < |ch| && 0 <= SectorOfByte(start, spc, cs, ch, p) < |disk|
    && |disk[SectorOfByte(start, spc, cs, ch, p)]| == 512 && b == disk[SectorOfByte(start, spc, cs, ch, p)][p % 512]
  }

  lemma ByteOnDisk(disk: Sectors, start: nat, spc: nat, cs: nat, data: Data, ch: seq<nat>, p: nat)
    requires DataOn(disk, start, spc, data) && cs == spc * SECTOR && p < Off(|ch|, cs)
    requires forall i :: 0 <= i < |ch| ==> FIRST_CLUSTER <= ch[i] < |data|
    ensures HeldAt(disk, start, spc, cs, ch, p, ByteAt(data, ch, cs, p))
  {
    OffBelow(p, |ch|, cs);
    var c, w := ch[p / cs], p % cs;
    assert ClusterAt(disk, start, spc, data, c);
    WithinSector(p, spc, cs, p / cs, w);
    assert data[c][w] == disk[ClusterLba(start, spc, c) + w / SECTOR][w % SECTOR];
  }

  lemma WithinSector(p: nat, spc: nat, cs: nat, q: nat, w: nat)
    requires cs == spc * SECTOR && p == q * cs + w && w < cs
    ensures w / SECTOR < spc && w % SECTOR == p % SECTOR
  {
    assert q * cs == (q * spc) * SECTOR;
    RestOf(w, q * spc, p);
  }

  lemma RestOf(w: nat, k: nat, p: nat)
    requires p == k * SECTOR + w
    ensures p % SECTOR == w % SECTOR
  {
  }

  lemma JoinedSame(disk: Sectors, disk': Sectors, lba: nat, n: nat)
    requires Even(disk) && Even(disk') && lba + n <= |disk| == |disk'|
    requires forall l: nat :: lba <= l < lba + n ==> disk'[l] == disk[l]
    ensures Joined(disk', lba, n) == Joined(disk, lba, n)
  {
  }

  /** Sectors before the clusters do not matter to them. */
  lemma StoreBefore(disk: Sectors, start: nat, spc: nat, data: Data, l: nat, buf: seq<Byte>)
    requires DataOn(disk, start, spc, data) && l < start && l < |disk| && |buf| == SECTOR
    ensures DataOn(disk[l := buf], start, spc, data)
  {
    var disk' := disk[l := buf];
    forall c: nat | FIRST_CLUSTER <= c < |data| ensures ClusterAt(disk', start, spc, data, c) {
      assert ClusterAt(disk, start, spc, data, c);
      JoinedSame(disk, disk', ClusterLba(start, spc, c), spc);
    }
  }

  /** A cluster's contents with sector `a` replaced. */
  function Patched(s: seq<Byte>, a: nat, buf: seq<Byte>): seq<Byte>
    requires (a + 1) * SECTOR <= |s|
  {
    s[..a * SECTOR] + buf + s[(a + 1) * SECTOR..]
  }

  /** Storing sector `a` of cluster `c` changes that part of the cluster's contents only. */
  lemma StoreIn(disk: Sectors, start: nat, spc: nat, data: Data, c: nat, a: nat, buf: seq<Byte>)
    requires DataOn(disk, start, spc, data) && FIRST_CLUSTER <= c < |data| && a < spc && |buf| == SECTOR
    ensures ClusterLba(start, spc, c) + a < |disk| && |data[c]| == spc * SECTOR
    ensures DataOn(disk[ClusterLba(start, spc, c) + a := buf], start, spc, data[c := Patched(data[c], a, buf)])
  {
    assert ClusterAt(disk, start, spc, data, c);
    var lba := ClusterLba(start, spc, c);
    var disk', data' := disk[lba + a := buf], data[c := Patched(data[c], a, buf)];
    forall d: nat | FIRST_CLUSTER <= d < |data| ensures ClusterAt(disk', start, spc, data', d) {
      assert ClusterAt(disk, start, spc, data, d);
      if d == c {
        StoreJoined(disk, lba, spc, a, buf);
      } else {
        if d < c { ClustersApart(start, spc, d, c); } else { ClustersApart(start, spc, c, d); }
        JoinedSame(disk, disk', ClusterLba(start, spc, d), spc);
      }
    }
  }

  /** Overlaying a part of one sector and writing the sector back replaces those bytes of the cluster. */
  lemma OverlayIn(disk: Sectors, start: nat, spc: nat, data: Data, c: nat, within: nat, chunk: seq<Byte>)
    requires DataOn(disk, start, spc, data) && FIRST_CLUSTER <= c < |data|
    requires within < spc * SECTOR && within % SECTOR + |chunk| <= SECTOR
    ensures var a, was := within / SECTOR, data[c];
      && a < spc && ClusterLba(start, spc, c) + a < |disk| && |was| == spc * SECTOR && within + |chunk| <= |was|
      && Patched(was, a, Splice(disk[ClusterLba(start, spc, c) + a], within % SECTOR, chunk)) == Splice(was, within, chunk)
  {
    assert ClusterAt(disk, start, spc, data, c);
    var a, lba := within / SECTOR, ClusterLba(start, spc, c);
    assert (a * SECTOR) / SECTOR == a && (a * SECTOR) % SECTOR == 0;
    PartOfOne(disk, lba, spc, a * SECTOR, SECTOR);
    assert disk[lba + a] == data[c][a * SECTOR..a * SECTOR + SECTOR];
    SectorSplice(data[c], a * SECTOR, within % SECTOR, chunk);
  }

  lemma StoreJoined(disk: Sectors, lba: nat, spc: nat, a: nat, buf: seq<Byte>)
    requires Even(disk) && lba + spc <= |disk| && a < spc && |buf| == SECTOR
    ensures Joined(disk[lba + a := buf], lba, spc) == Patched(Joined(disk, lba, spc), a, buf)
  {
    var now, want := Joined(disk[lba + a := buf], lba, spc), Patched(Joined(disk, lba, spc), a, buf);
    forall p: nat | p < spc * SECTOR ensures now[p] == want[p] {
      if p / SECTOR == a { assert want[p] == buf[p - a * SECTOR]; }
    }
  }
}
