/** File contents as byte sequences laid out over a chain of clusters. */
module FatBytes {
  import opened Bytes
  import opened Counting

  /** Cluster contents, by cluster number. */
  type Data = seq<seq<Byte>>

  ghost predicate Sized(data: Data, cs: nat) {
    cs > 0 && forall c: nat :: c < |data| ==> |data[c]| == cs
  }

  /** The byte of cluster `c` at `w`. */
  function In(data: Data, c: nat, w: nat): Byte {
    if c < |data| && w < |data[c]| then data[c][w] else 0
  }

  /** The byte at position `p` of the file that lies on chain `ch`, with clusters of `cs` bytes. */
  function ByteAt(data: Data, ch: seq<nat>, cs: nat, p: nat): Byte
    requires cs > 0
  {
    if p / cs < |ch| then In(data, ch[p / cs], p % cs) else 0
  }

  /** The first `size` bytes of the file. */
  function Content(data: Data, ch: seq<nat>, cs: nat, size: nat): (r: seq<Byte>)
    requires cs > 0
    ensures |r| == size && forall p: nat :: p < size ==> r[p] == ByteAt(data, ch, cs, p)
  {
    seq(size, p requires 0 <= p => ByteAt(data, ch, cs, p))
  }

  /** `s` with the bytes from `at` on replaced by `b`, lengthened if `b` reaches past the end. */
  function Splice(s: seq<Byte>, at: nat, b: seq<Byte>): (r: seq<Byte>)
    requires at <= |s|
    ensures |r| == if at + |b| > |s| then at + |b| else |s|
    ensures forall p: nat :: p < |r| ==> r[p] == if at <= p < at + |b| then b[p - at] else s[p]
  {
    s[..at] + b + if at + |b| < |s| then s[at + |b|..] else []
  }

  /** Where cluster number `i` of a chain starts within the file. */
  function Off(i: nat, cs: nat): nat {
    if i == 0 then 0 else Off(i - 1, cs) + cs
  }

  lemma {:induction false} OffIsProduct(i: nat, cs: nat)
    ensures Off(i, cs) == i * cs
  {
    if i > 0 { OffIsProduct(i - 1, cs); }
  }

  /** Dividing an offset by the cluster size gives cluster and place within it. */
  lemma OffDiv(p: nat, cs: nat)
    requires cs > 0
    ensures Off(p / cs, cs) + p % cs == p && p % cs < cs
  {
    OffIsProduct(p / cs, cs);
  }

  lemma {:induction false} OffMono(i: nat, n: nat, cs: nat)
    requires i < n
    ensures Off(i, cs) + cs <= Off(n, cs)
  {
    if i + 1 < n { OffMono(i, n - 1, cs); }
  }

  /** Cluster and place are the only ones for their offset. */
  lemma OffUnique(p: nat, i: nat, w: nat, cs: nat)
    requires w < cs && p == Off(i, cs) + w
    ensures p / cs == i && p % cs == w
  {
    OffDiv(p, cs);
    if p / cs < i { OffMono(p / cs, i, cs); }
    if p / cs > i { OffMono(i, p / cs, cs); }
  }

  lemma OffBelow(p: nat, n: nat, cs: nat)
    requires cs > 0
    ensures p < Off(n, cs) <==> p / cs < n
  {
    OffDiv(p, cs);
    if p / cs < n { OffMono(p / cs, n, cs); }
    if n < p / cs { OffMono(n, p / cs, cs); }
  }

  /** An offset within a chain of `n` clusters, or at its end. */
  lemma Locate(p: nat, n: nat, cs: nat)
    requires cs > 0 && p <= Off(n, cs)
    ensures p / cs <= n && p % cs < cs && Off(p / cs, cs) + p % cs == p
    ensures p / cs == n ==> p == Off(n, cs)
  {
    OffDiv(p, cs);
    OffBelow(p, n, cs);
    if n < p / cs { OffMono(n, p / cs, cs); }
  }

  /** `data'` is `data` with bytes replaced within cluster number `i` of the chain, and nowhere else. */
  predicate OneCluster(data: Data, data': Data, ch: seq<nat>, i: nat, w: nat, b: seq<Byte>) {
    && i < |ch| && ch[i] < |data| && w + |b| <= |data[ch[i]]|
    && data' == data[ch[i] := Splice(data[ch[i]], w, b)]
  }

  /** Replacing bytes within one cluster replaces the same bytes of the file. */
  lemma WriteAt(data: Data, data': Data, ch: seq<nat>, cs: nat, i: nat, w: nat, b: seq<Byte>, p: nat)
    requires Sized(data, cs) && Distinct(ch) && OneCluster(data, data', ch, i, w, b)
    ensures ByteAt(data', ch, cs, p) == if Off(i, cs) + w <= p < Off(i, cs) + w + |b| then b[p - (Off(i, cs) + w)] else ByteAt(data, ch, cs, p)
  {
    OffDiv(p, cs);
    if Off(i, cs) + w <= p < Off(i, cs) + w + |b| { OffUnique(p, i, p - Off(i, cs), cs); }
  }

  /** Longer chains read the same where the shorter one reached. */
  lemma PrefixAt(data: Data, ch: seq<nat>, ch': seq<nat>, cs: nat, p: nat)
    requires cs > 0 && ch <= ch' && p < Off(|ch|, cs)
    ensures ByteAt(data, ch', cs, p) == ByteAt(data, ch, cs, p)
  {
    OffBelow(p, |ch|, cs);
  }
}
