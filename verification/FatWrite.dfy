/** What a run of sector writes does to the files of a volume. */
module FatWrite {
  import opened Bytes
  import opened Counting
  import opened Options
  import opened FatTable
  import opened FatWalk
  import opened FatBytes

  /** How a write ends: with the `int` it returns, or for want of a free cluster. */
  datatype Status = Ok(ret: int) | NoSpace

  /** No cluster is free. */
  predicate Full(fat: Fat) {
    forall c: nat :: c < |fat| && InVolume(fat, c) ==> fat[c] != 0
  }

  /** Only chain `h` changed, and it only got longer. */
  ghost predicate Grown(f: Forest, f': Forest, h: nat) {
    h in f && h in f' && f[h] <= f'[h] && f' == f[h := f'[h]]
  }

  /** Every file but `h` kept its chain and the contents of its clusters. */
  ghost predicate OthersSame(f: Forest, data: Data, f': Forest, data': Data, h: nat) {
    && |data'| == |data|
    && forall g: nat {:trigger g in f'} :: g in f && g != h ==>
      g in f' && f'[g] == f[g] && forall k :: 0 <= k < |f[g]| && f[g][k] < |data| ==> data'[f[g][k]] == data[f[g][k]]
  }

  /** A file keeps its first cluster, and one that had none may have got a cluster that was no file's. */
  predicate SameHead(f: Forest, h: nat, h': nat) {
    if h != 0 then h' == h else h' !in f
  }

  lemma OthersWrite(fat: Fat, f0: Forest, data0: Data, f: Forest, data: Data, h: nat, i: nat, x: seq<Byte>)
    requires IsForest(fat, f) && h in f && i < |f[h]| && f[h][i] < |data| && OthersSame(f0, data0, f, data, h)
    ensures OthersSame(f0, data0, f, data[f[h][i] := x], h)
  {
    var data' := data[f[h][i] := x];
    forall g: nat, k: nat | g in f0 && g != h && k < |f0[g]| && f0[g][k] < |data0| ensures data'[f0[g][k]] == data0[f0[g][k]] {
      assert g in f;
      NotShared(fat, f, g, k, h);
    }
  }

  /** `ch` on `data` is `ch0` on `data0` with the bytes from `at` on replaced by the first `n` of `b`. */
  ghost predicate Written(data0: Data, ch0: seq<nat>, data: Data, ch: seq<nat>, cs: nat, at: nat, b: seq<Byte>, n: nat) {
    && cs > 0 && ch0 <= ch && n <= |b| && at + n <= Off(|ch|, cs)
    && forall p: nat {:trigger ByteAt(data, ch, cs, p)} ::
      && (at <= p < at + n ==> ByteAt(data, ch, cs, p) == b[p - at])
      && (p < Off(|ch0|, cs) && !(at <= p < at + n) ==> ByteAt(data, ch, cs, p) == ByteAt(data0, ch0, cs, p))
  }

  lemma WrittenGrow(data0: Data, ch0: seq<nat>, data: Data, ch: seq<nat>, ch': seq<nat>, cs: nat, at: nat, b: seq<Byte>, n: nat)
    requires Written(data0, ch0, data, ch, cs, at, b, n) && ch <= ch'
    ensures Written(data0, ch0, data, ch', cs, at, b, n)
  {
    if |ch| < |ch'| { OffMono(|ch|, |ch'|, cs); }
    if |ch0| < |ch| { OffMono(|ch0|, |ch|, cs); }
    forall p: nat | p < Off(|ch|, cs) ensures ByteAt(data, ch', cs, p) == ByteAt(data, ch, cs, p) { PrefixAt(data, ch, ch', cs, p); }
  }

  /** The chain may have grown before the write too. */
  lemma WrittenBase(data0: Data, ch0: seq<nat>, ch1: seq<nat>, data: Data, ch: seq<nat>, cs: nat, at: nat, b: seq<Byte>, n: nat)
    requires Written(data0, ch1, data, ch, cs, at, b, n) && ch0 <= ch1
    ensures Written(data0, ch0, data, ch, cs, at, b, n)
  {
    if |ch0| < |ch1| { OffMono(|ch0|, |ch1|, cs); }
    forall p: nat | p < Off(|ch0|, cs) ensures ByteAt(data0, ch1, cs, p) == ByteAt(data0, ch0, cs, p) { PrefixAt(data0, ch0, ch1, cs, p); }
  }

  lemma WrittenMore(data0: Data, ch0: seq<nat>, data: Data, data': Data, ch: seq<nat>, cs: nat, at: nat, b: seq<Byte>, n: nat, i: nat, w: nat, k: nat)
    requires Written(data0, ch0, data, ch, cs, at, b, n) && Sized(data, cs) && Distinct(ch) && n + k <= |b|
    requires OneCluster(data, data', ch, i, w, b[n..n + k]) && Off(i, cs) + w == at + n
    ensures Written(data0, ch0, data', ch, cs, at, b, n + k)
  {
    OffMono(i, |ch|, cs);
    forall p: nat
      ensures at <= p < at + n + k ==> ByteAt(data', ch, cs, p) == b[p - at]
      ensures p < Off(|ch0|, cs) && !(at <= p < at + n + k) ==> ByteAt(data', ch, cs, p) == ByteAt(data0, ch0, cs, p)
    {
      WriteAt(data, data', ch, cs, i, w, b[n..n + k], p);
      assert at <= p < at + n ==> ByteAt(data, ch, cs, p) == b[p - at];
    }
  }

  /** The first `m` bytes of the file after the write are those of a splice. */
  lemma WrittenSplice(data0: Data, ch0: seq<nat>, data: Data, ch: seq<nat>, cs: nat, at: nat, b: seq<Byte>, n: nat, size: nat, m: nat)
    requires Written(data0, ch0, data, ch, cs, at, b, n) && at <= size <= Off(|ch0|, cs)
    requires m <= size || m <= at + n
    ensures Off(|ch0|, cs) <= Off(|ch|, cs)
    ensures Content(data, ch, cs, m) == Splice(Content(data0, ch0, cs, size), at, b[..n])[..m]
  {
    if |ch0| < |ch| { OffMono(|ch0|, |ch|, cs); }
    var was, now := Content(data0, ch0, cs, size), Content(data, ch, cs, m);
    forall p: nat | p < m ensures now[p] == Splice(was, at, b[..n])[p] {
      assert now[p] == ByteAt(data, ch, cs, p);
    }
  }

  function Zeros(n: nat): (r: seq<Byte>)
    ensures |r| == n && forall i :: 0 <= i < n ==> r[i] == 0
  {
    seq(n, _ => 0)
  }

  /** `s`, zero-filled up to length `n` if it is shorter. */
  function Padded(s: seq<Byte>, n: nat): (r: seq<Byte>)
    ensures |r| == if n > |s| then n else |s|
    ensures forall p: nat :: p < |r| ==> r[p] == if p < |s| then s[p] else 0
  {
    if n > |s| then s + Zeros(n - |s|) else s
  }

  lemma PadMore(s: seq<Byte>, m: nat, k: nat)
    requires |s| <= m
    ensures Splice(Padded(s, m), m, Zeros(k)) == Padded(s, m + k)
  {
  }

  lemma SpliceNone(s: seq<Byte>, at: nat, b: seq<Byte>)
    requires at <= |s|
    ensures Splice(s, at, b[..0])[..|s|] == s
  {
  }

  lemma OthersGrown(f: Forest, f': Forest, d: Data, f'': Forest, d'': Data, h: nat)
    requires Grown(f, f', h) && OthersSame(f', d, f'', d'', h)
    ensures OthersSame(f, d, f'', d'', h)
  {
  }

  lemma OthersTrans(f: Forest, d: Data, f': Forest, d': Data, h': nat, f'': Forest, d'': Data, h: nat)
    requires OthersSame(f, d, f', d', h') && OthersSame(f', d', f'', d'', h) && (h' == h || h' !in f)
    ensures OthersSame(f, d, f'', d'', h)
  {
    forall g: nat | g in f && g != h
      ensures g in f'' && f''[g] == f[g] && forall k :: 0 <= k < |f[g]| && f[g][k] < |d| ==> d''[f[g][k]] == d[f[g][k]]
    {
      assert g in f' && f'[g] == f[g];
      assert g in f'';
    }
  }

  /** A file other than the one written to reads the same. */
  lemma OtherFile(f: Forest, data: Data, f': Forest, data': Data, h: nat, g: nat, cs: nat, size: nat)
    requires OthersSame(f, data, f', data', h) && g in f && g != h && cs > 0
    ensures g in f' && Content(data', f'[g], cs, size) == Content(data, f[g], cs, size)
  {
    assert g in f';
    forall p: nat | p < size ensures ByteAt(data', f'[g], cs, p) == ByteAt(data, f[g], cs, p) {}
  }

  /** The 32-bit unsigned value a sum is truncated to. */
  function Wrap(n: nat): (r: nat)
    ensures r < U32 && (n - r) % U32 == 0
  {
    if n < U32 then n else Wrap(n - U32)
  }

  /** The C conversion of an unsigned 32-bit count to `int`. */
  function ToInt(n: nat): (r: int)
    ensures -0x8000_0000 <= r < 0x8000_0000 && (n - r) % U32 == 0
    ensures r == n <==> n < 0x8000_0000
  {
    if Wrap(n) < U32 / 2 then Wrap(n) else Wrap(n) - U32
  }

  lemma ChainBound(fat: Fat, ch: seq<nat>)
    requires IsChain(fat, ch)
    ensures |ch| + FIRST_CLUSTER <= |fat|
  {
    assert InVolume(fat, ch[0]);
    var all := UpTo(|fat|);
    assert 0 in all && 1 in all - {0};
    Pigeonhole(ch, all - {0} - {1});
  }

  /** A file never outgrows 32 bits, not even rounded up by one more cluster. */
  lemma FileBound(fat: Fat, forest: Forest, h: nat, cs: nat)
    requires IsForest(fat, forest) && h in forest && cs <= 128 * SECTOR
    ensures Off(|forest[h]|, cs) + cs < U32
  {
    ChainBound(fat, forest[h]);
    OffIsProduct(|forest[h]|, cs);
    var n := |forest[h]|;
    assert n * cs <= n * (128 * SECTOR) by { MulMono(cs, 128 * SECTOR, n); }
  }

  /** So the 32-bit arithmetic on offsets into it is exact. */
  lemma NoWrap(fat: Fat, forest: Forest, h: nat, cs: nat, p: nat)
    requires IsForest(fat, forest) && h in forest && cs <= 128 * SECTOR && p < Off(|forest[h]|, cs) + cs
    ensures Wrap(p) == p
  {
    FileBound(fat, forest, h, cs);
  }

  /** The file once the whole of `b` is written, with its length taken from 32-bit arithmetic. */
  lemma WrittenAll(fat: Fat, forest: Forest, h: nat, data0: Data, ch0: seq<nat>, data: Data, cs: nat, at: nat, b: seq<Byte>, size: nat)
    requires IsForest(fat, forest) && h in forest && cs <= 128 * SECTOR
    requires Written(data0, ch0, data, forest[h], cs, at, b, |b|) && at <= size <= Off(|ch0|, cs)
    ensures var end := Wrap(at + |b|);
      var m := if end > size then end else size;
      m <= Off(|forest[h]|, cs) && Content(data, forest[h], cs, m) == Splice(Content(data0, ch0, cs, size), at, b)
  {
    NoWrap(fat, forest, h, cs, at + |b|);
    var m := if at + |b| > size then at + |b| else size;
    WrittenSplice(data0, ch0, data, forest[h], cs, at, b, |b|, size, m);
    assert b[..|b|] == b;
    var r := Splice(Content(data0, ch0, cs, size), at, b);
    assert r[..m] == r;
  }

  /** Rounding up: the fewest clusters that hold `size` bytes. */
  lemma CeilDiv(size: nat, cs: nat)
    requires cs > 0
    ensures var k := (size + cs - 1) / cs; size <= Off(k, cs) && (k > 0 ==> Off(k - 1, cs) < size) && (size == 0 <==> k == 0)
  {
    OffDiv(size + cs - 1, cs);
  }

  /** A shorter file on a cut chain is a prefix of the longer file. */
  lemma CutContent(data: Data, ch: seq<nat>, k: nat, keep: nat, cs: nat, size: nat, size0: nat)
    requires cs > 0 && k <= |ch| && k <= keep && (k == keep || k == |ch|) && size <= size0 <= Off(|ch|, cs)
    requires size <= Off(keep, cs) && (keep > 0 ==> Off(keep - 1, cs) < size)
    ensures size <= Off(k, cs) && (k > 0 ==> Off(k - 1, cs) < size)
    ensures Content(data, ch[..k], cs, size) == Content(data, ch, cs, size0)[..size]
  {
    if 0 < k < keep { OffMono(k - 1, keep - 1, cs); }
    forall p: nat | p < size ensures ByteAt(data, ch[..k], cs, p) == ByteAt(data, ch, cs, p) { PrefixAt(data, ch[..k], ch, cs, p); }
  }

  /** What reading `len` bytes at `offset` from `s` gives: nothing at or past the end, and less than asked across it. */
  function Slice(s: seq<Byte>, offset: nat, len: nat): Option<seq<Byte>> {
    if len == 0 then Some([])
    else if offset >= |s| then None
    else if len > |s| - offset then Some(s[offset..])
    else Some(s[offset..offset + len])
  }

  /** Reading where a write went gives back what was written. */
  lemma ReadBack(s: seq<Byte>, offset: nat, buf: seq<Byte>)
    ensures Slice(Splice(Padded(s, offset), offset, buf), offset, |buf|) == Some(buf)
  {
    var r := Splice(Padded(s, offset), offset, buf);
    if buf != [] { assert r[offset..offset + |buf|] == buf; }
  }

  /** The `n` bytes of the file from `at` on. */
  function Range(data: Data, ch: seq<nat>, cs: nat, at: nat, n: nat): (r: seq<Byte>)
    requires cs > 0
    ensures |r| == n && forall k: nat :: k < n ==> r[k] == ByteAt(data, ch, cs, at + k)
  {
    seq(n, k requires 0 <= k => ByteAt(data, ch, cs, at + k))
  }

  lemma RangeMore(data: Data, ch: seq<nat>, cs: nat, at: nat, m: nat, i: nat, w: nat, n: nat)
    requires Sized(data, cs) && i < |ch| && ch[i] < |data| && w + n <= cs && at + m == Off(i, cs) + w
    ensures Range(data, ch, cs, at, m) + data[ch[i]][w..w + n] == Range(data, ch, cs, at, m + n)
  {
    var was, part, now := Range(data, ch, cs, at, m), data[ch[i]][w..w + n], Range(data, ch, cs, at, m + n);
    forall k: nat | k < m + n ensures now[k] == (was + part)[k] {
      if k < m {
        assert (was + part)[k] == was[k];
      } else {
        OffUnique(at + k, i, w + (k - m), cs);
        assert (was + part)[k] == part[k - m] == data[ch[i]][w + (k - m)];
      }
    }
  }

  lemma RangeIsSlice(data: Data, ch: seq<nat>, cs: nat, at: nat, len: nat, n: nat, size: nat)
    requires cs > 0 && len > 0 && at < size && n == if len > size - at then size - at else len
    ensures Slice(Content(data, ch, cs, size), at, len) == Some(Range(data, ch, cs, at, n))
  {
    assert Slice(Content(data, ch, cs, size), at, len).value == Range(data, ch, cs, at, n);
  }

  /** Where a read starts. */
  lemma ReadStart(fat: Fat, ch: seq<nat>, cs: nat, offset: nat)
    requires IsChain(fat, ch) && cs > 0 && offset < Off(|ch|, cs)
    ensures InVolume(fat, ch[0]) && offset / cs < |ch| && offset % cs < cs && Off(offset / cs, cs) + offset % cs == offset
    ensures Nth(fat, ch[0], offset / cs) == Some(ch[offset / cs])
  {
    Locate(offset, |ch|, cs);
    NthInChain(fat, ch, 0, offset / cs);
  }

  /** A read that has not come to the end of the chain finds its next cluster. */
  lemma ReadOn(fat: Fat, ch: seq<nat>, cs: nat, i: nat, at: nat)
    requires IsChain(fat, ch) && i < |ch| && at == Off(i, cs) + cs < Off(|ch|, cs)
    ensures i + 1 < |ch| && Off(i + 1, cs) == at && Next(fat, ch[i]) == Some(ch[i + 1])
  {
    assert i + 1 < |ch| by { assert Off(i + 1, cs) == at; }
    assert InVolume(fat, ch[i]) && InVolume(fat, ch[i + 1]);
  }

  lemma MulMono(a: nat, b: nat, n: nat)
    requires a <= b
    ensures n * a <= n * b
  {
  }

  /** Overlaying part of one sector and writing the sector back replaces those bytes of the cluster. */
  lemma SectorSplice(c: seq<Byte>, s: nat, off: nat, chunk: seq<Byte>)
    requires s + SECTOR <= |c| && off + |chunk| <= SECTOR
    ensures c[..s] + Splice(c[s..s + SECTOR], off, chunk) + c[s + SECTOR..] == Splice(c, s + off, chunk)
  {
  }
}
