/** The kernel heap: size bins over the block list, freeing with coalescing and trimming, splitting and growing. */
module Heap {
  import opened Blocks
  import opened Counting
  import opened HeapList
  import opened Options

  const BINS: nat := 64
  const MAX_SEGMENTS: nat := 256
  const GROW_MIN_PAGES: nat := 32

  /** `bin_for`: the base-two logarithm, with sizes below 16 counted as 16. */
  function BinFor(size: nat): (i: nat)
    ensures i < BINS
  {
    var b := BitLen(if size < 16 then 16 else size) - 1;
    if b < BINS then b else BINS - 1
  }

  /** The first bin that `kmalloc` looks into: the logarithm rounded up. */
  function StartBin(size: nat): nat
    requires size > 0
  {
    BitLen(size - 1)
  }

  lemma BinBelow(size: nat)
    requires size >= 16
    ensures Pow2(BinFor(size)) <= size
  {
    BitLenBounds(size);
    Pow2Mono(BinFor(size), BitLen(size) - 1);
  }

  lemma BitLen16()
    ensures BitLen(15) == 4 && BitLen(16) == 5
  {
  }

  lemma {:induction false} BitLenMono(a: nat, b: nat)
    requires a <= b
    ensures BitLen(a) <= BitLen(b)
  {
    if a > 0 { BitLenMono(a / 2, b / 2); }
  }

  /** A block in a bin that `kmalloc` takes from is long enough exactly when it has at least 16 bytes. */
  lemma BinFits(size: nat, n: nat)
    requires n > 0 && n % 16 == 0 && BinFor(size) >= StartBin(n)
    ensures size >= n <==> size >= 16
  {
    if size >= 16 {
      BitLenBounds(n - 1);
      BinBelow(size);
      Pow2Mono(StartBin(n), BinFor(size));
    }
  }

  /** `ALIGN_UP` to whole pages, in 64 bits. */
  function PagesUp(n: nat): nat {
    var up := (n + PAGE_SIZE - 1) / PAGE_SIZE * PAGE_SIZE;
    if up < WORD then up else up - WORD
  }

  /** The bytes that growing for `size` maps, headers included. */
  function GrowBytes(size: nat): nat {
    var needed := PagesUp(size + HDR);
    if needed < GROW_MIN_PAGES * PAGE_SIZE then GROW_MIN_PAGES * PAGE_SIZE else needed
  }

  /** Unless the rounding wraps, these are the fewest whole pages that hold the request and its header, but at least 32. */
  lemma GrowFits(size: nat)
    requires size + HDR <= WORD - PAGE_SIZE
    ensures GrowBytes(size) % PAGE_SIZE == 0 && GrowBytes(size) >= size + HDR && GrowBytes(size) >= 32 * PAGE_SIZE
    ensures GrowBytes(size) == 32 * PAGE_SIZE || GrowBytes(size) < size + HDR + PAGE_SIZE
  {
    var n := size + HDR;
    var q := (n + PAGE_SIZE - 1) / PAGE_SIZE;
    assert q * PAGE_SIZE <= n + PAGE_SIZE - 1 < (q + 1) * PAGE_SIZE;
    WholePages(q);
    WholePages(32);
  }

  lemma WholePages(q: nat)
    ensures (q * PAGE_SIZE) % PAGE_SIZE == 0
  {
  }

  /** A block grown for the request goes into a bin that the request looks into. */
  predicate Helps(size: nat)
    requires size > 0
  {
    BinFor(GrowBytes(size) - HDR) >= StartBin(size)
  }

  /** Growing gives `kmalloc` a block it will take exactly when a power of two lies between the request and that block's size. */
  lemma GrowHelps(size: nat, got: nat)
    requires size > 0 && 16 <= got && BitLen(got) <= BINS
    ensures BinFor(got) >= StartBin(size) <==> Pow2(StartBin(size)) <= got
  {
    var s, l := StartBin(size), BitLen(got);
    BitLenBounds(got);
    if l - 1 >= s { Pow2Mono(s, l - 1); } else { Pow2Mono(l, s); }
  }

  /** The powers of two around a number give its bit length. */
  lemma BitLenIs(n: nat, l: nat)
    requires l > 0 && Pow2(l - 1) <= n < Pow2(l)
    ensures BitLen(n) == l
  {
    var m := BitLen(n);
    BitLenBounds(n);
    if m < l { Pow2Mono(m, l - 1); }
    if l < m { Pow2Mono(l, m - 1); }
  }

  lemma Powers(e: nat)
    requires e == 16
    ensures Pow2(e - 1) == 32768 && Pow2(e) == 65536 && Pow2(e + 1) == 131072
  {
    var d: nat := 8;
    assert Pow2(d) == 256;
    Pow2Add(d, d);
  }

  /** Sizes from 65536 on are in bin 16, and requests above 65536 start at bin 17. */
  lemma BinSixteen(size: nat)
    requires 65536 <= size < 131072
    ensures BinFor(size) == 16 && StartBin(size + 1) == 17
  {
    var e: nat := 16;
    Powers(e);
    BitLenIs(size, e + 1);
  }

  /** Requests from 65537 to 131072 - 56 bytes: the segment grown for them is never used for them. */
  lemma GrowMisses(size: nat)
    requires 65536 < size <= 131072 - HDR
    ensures GrowBytes(size) == 131072 && !Helps(size)
  {
    BinSixteen(131072 - HDR);
    BinSixteen(size - 1);
  }

  /** For requests within a page of 2^64 the rounding wraps: 32 pages are mapped, and not used. */
  lemma GrowWraps(size: nat)
    requires WORD - PAGE_SIZE < size + HDR < WORD
    ensures GrowBytes(size) == 131072 && !Helps(size)
  {
    var n: nat := 64;
    WordPower(n);
    assert Pow2(n) == 2 * Pow2(n - 1);
    BitLenIs(size - 1, n);
    BinSixteen(131072 - HDR);
    WrapsToZero(size + HDR);
  }

  lemma WrapsToZero(n: nat)
    requires WORD - PAGE_SIZE < n < WORD
    ensures PagesUp(n) == 0
  {
    var q := (n + PAGE_SIZE - 1) / PAGE_SIZE;
    assert WORD == 0x10_0000_0000_0000 * PAGE_SIZE;
    assert q == 0x10_0000_0000_0000;
  }

  function NoBlocks(): (bins: seq<seq<nat>>)
    ensures |bins| == BINS && forall i: nat :: i < BINS ==> bins[i] == []
  {
    seq(BINS, _ => [])
  }

  /** Bin `i` holds, once each, the free blocks whose size belongs there; blocks in `off` are in none. */
  ghost predicate BinsOk(h: Headers, bins: seq<seq<nat>>, off: set<nat>) {
    && |bins| == BINS
    && (forall i: nat :: i < BINS ==> Distinct(bins[i]))
    && forall i: nat, b: nat {:trigger b in bins[i]} :: i < BINS ==>
      (b in bins[i] <==> b in h && h[b].free && b !in off && BinFor(h[b].size) == i)
  }

  /** Block `b` is allocated, with `size` bytes. */
  ghost predicate Live(h: Headers, b: nat, size: nat) {
    b in h && !h[b].free && h[b].size == size
  }

  ghost predicate SameLive(h: Headers, h': Headers) {
    forall b: nat, size: nat {:trigger Live(h', b, size)} :: Live(h, b, size) <==> Live(h', b, size)
  }

  lemma BinTake(h: Headers, bins: seq<seq<nat>>, off: set<nat>, b: nat)
    requires BinsOk(h, bins, off) && b in h
    ensures BinsOk(h, bins[BinFor(h[b].size) := Remove(bins[BinFor(h[b].size)], b)], off + {b})
  {
    var k := BinFor(h[b].size);
    RemoveDistinct(bins[k], b);
    var bins' := bins[k := Remove(bins[k], b)];
    forall i: nat, x: nat | i < BINS ensures x in bins'[i] <==> x in h && h[x].free && x !in off + {b} && BinFor(h[x].size) == i {
      assert x in bins[i] <==> x in h && h[x].free && x !in off && BinFor(h[x].size) == i;
    }
  }

  lemma BinPut(h: Headers, bins: seq<seq<nat>>, off: set<nat>, b: nat)
    requires BinsOk(h, bins, off + {b}) && b in h && h[b].free && b !in off
    ensures BinsOk(h, bins[BinFor(h[b].size) := [b] + bins[BinFor(h[b].size)]], off)
  {
    var k := BinFor(h[b].size);
    assert b !in bins[k];
    var bins' := bins[k := [b] + bins[k]];
    forall i: nat, x: nat | i < BINS ensures x in bins'[i] <==> x in h && h[x].free && x !in off && BinFor(h[x].size) == i {
      assert x in bins[i] <==> x in h && h[x].free && x !in off + {b} && BinFor(h[x].size) == i;
    }
  }

  /** Headers of blocks that are off the bins may change or go. */
  lemma BinsKept(h: Headers, h': Headers, bins: seq<seq<nat>>, off: set<nat>, off': set<nat>)
    requires BinsOk(h, bins, off) && off' <= off
    requires forall b: nat :: b in h && b !in off ==> b in h' && h'[b].free == h[b].free && h'[b].size == h[b].size
    requires forall b: nat :: b in h' && b !in off ==> b in h
    requires forall b: nat :: b in off && b !in off' ==> b !in h' || !h'[b].free
    ensures BinsOk(h', bins, off')
  {
    forall i: nat, x: nat | i < BINS ensures x in bins[i] <==> x in h' && h'[x].free && x !in off' && BinFor(h'[x].size) == i {
      assert x in bins[i] <==> x in h && h[x].free && x !in off && BinFor(h[x].size) == i;
    }
  }

  /** The header writes of one merge: `a` grows by the next block `n`, and the one after, `m`, points back to `a`. */
  function Absorbed(h: Headers, a: nat, n: nat, m: nat): Headers
    requires a in h && n in h && (m != 0 ==> m in h)
  {
    var h1 := h[a := h[a].(size := h[a].size + HDR + h[n].size, next := m)];
    (if m != 0 then h1[m := h1[m].(prev := a)] else h1) - {n}
  }

  lemma AbsorbMerged(h: Headers, ord: seq<nat>, segs: seq<Segment>, i: nat)
    requires Tiled(h, ord, segs) && i + 1 < |ord|
    ensures var a, n, m := ord[i], ord[i + 1], Nth(ord, i + 2);
      && a in h && n in h && (m != 0 ==> m in h) && h[a].next == n && h[n].next == m
      && Merged(h, Absorbed(h, a, n, m), a, n, m)
  {
    assert BlockOk(h, ord, segs, i) && BlockOk(h, ord, segs, i + 1);
    assert Place(ord, i) && Place(ord, i + 1) && (i + 2 < |ord| ==> Place(ord, i + 2));
    if i + 2 < |ord| { assert BlockOk(h, ord, segs, i + 2); }
    assert 0 in h ==> 0 in ord;
    forall k: nat | k < |ord| ensures ord[k] > 0 { assert BlockOk(h, ord, segs, k); }
  }

  /** The last block is the merged one if it swallowed the last, and the same otherwise; so is the first. */
  lemma TailAfter(ord: seq<nat>, i: nat)
    requires i + 1 < |ord| && Once(ord)
    ensures var r := Without(ord, i + 1);
      && Nth(r, 0) == Nth(ord, 0)
      && Nth(r, |r| - 1) == if ord[i + 1] == Nth(ord, |ord| - 1) then ord[i] else Nth(ord, |ord| - 1)
  {
    assert Place(ord, i + 1) && Place(ord, |ord| - 1);
  }

  lemma AbsorbInv(h: Headers, bins: seq<seq<nat>>, ord: seq<nat>, segs: seq<Segment>, i: nat)
    requires Tiled(h, ord, segs) && i + 1 < |ord| && BinsOk(h, bins, {ord[i], ord[i + 1]})
    requires ord[i] in h && ord[i + 1] in h && h[ord[i]].seg == h[ord[i + 1]].seg
    ensures var a, n, m := ord[i], ord[i + 1], Nth(ord, i + 2);
      && (m != 0 ==> m in h) && h[a].next == n && h[n].next == m
      && Merged(h, Absorbed(h, a, n, m), a, n, m)
      && Tiled(Absorbed(h, a, n, m), Without(ord, i + 1), segs)
      && BinsOk(Absorbed(h, a, n, m), bins, {a})
    ensures var r := Without(ord, i + 1);
      && Nth(r, 0) == Nth(ord, 0)
      && Nth(r, |r| - 1) == if ord[i + 1] == Nth(ord, |ord| - 1) then ord[i] else Nth(ord, |ord| - 1)
  {
    var a, n, m := ord[i], ord[i + 1], Nth(ord, i + 2);
    AbsorbMerged(h, ord, segs, i);
    var h' := Absorbed(h, a, n, m);
    MergeTiled(h, h', ord, segs, i);
    BinsKept(h, h', bins, {a, n}, {a});
    TailAfter(ord, i);
  }

  /** Block `r` of `h'` is made up of free blocks of `h`, and everything else is as in `h`. */
  ghost predicate Run(h: Headers, h': Headers, r: nat) {
    && r in h && h[r].free && r in h' && h'[r].free && End(h, r) <= End(h', r)
    && (forall x: nat :: x in h' && x != r ==> x in h && h'[x].size == h[x].size && h'[x].free == h[x].free && h'[x].seg == h[x].seg)
    && forall x: nat :: x in h && x !in h' ==> h[x].free && r < x && End(h, x) <= End(h', r)
  }

  lemma RunOn(h: Headers, h1: Headers, h2: Headers, r: nat, n: nat, m: nat)
    requires Run(h, h1, r) && Merged(h1, h2, r, n, m) && h1[n].free && End(h1, r) == n
    ensures Run(h, h2, r)
  {
  }

  lemma RunBack(h: Headers, h1: Headers, h2: Headers, p: nat, r: nat, m: nat)
    requires Run(h, h1, r) && Merged(h1, h2, p, r, m) && h1[p].free && End(h1, p) == r
    ensures Run(h, h2, p)
  {
  }

  /** No allocated block is touched. */
  lemma RunLive(h: Headers, h': Headers, r: nat)
    requires Run(h, h', r)
    ensures SameLive(h, h')
  {
    forall b: nat, size: nat ensures Live(h, b, size) <==> Live(h', b, size) {}
  }

  /** The neighbour `x` of block `b`, if there is one, is free and in the same segment. */
  predicate Mergeable(h: Headers, b: nat, x: nat) {
    b in h && x != 0 && x in h && h[x].free && h[x].seg == h[b].seg
  }

  lemma NextPlace(h: Headers, ord: seq<nat>, segs: seq<Segment>, i: nat)
    requires Tiled(h, ord, segs) && i < |ord|
    ensures ord[i] in h && h[ord[i]].next == Nth(ord, i + 1)
    ensures Mergeable(h, ord[i], h[ord[i]].next) ==> i + 1 < |ord| && ord[i + 1] == h[ord[i]].next == End(h, ord[i])
  {
    assert BlockOk(h, ord, segs, i);
    if i + 1 < |ord| { assert JoinOk(h, ord, segs, i + 1); }
  }

  lemma PrevPlace(h: Headers, ord: seq<nat>, segs: seq<Segment>, i: nat)
    requires Tiled(h, ord, segs) && i < |ord|
    ensures ord[i] in h && h[ord[i]].prev == Nth(ord, i - 1)
    ensures Mergeable(h, ord[i], h[ord[i]].prev) ==> i > 0 && ord[i - 1] == h[ord[i]].prev && End(h, ord[i - 1]) == ord[i]
  {
    assert BlockOk(h, ord, segs, i);
    if i > 0 { assert JoinOk(h, ord, segs, i); }
  }

  /** What follows a merged pair follows the second of the two. */
  lemma SameNext(h: Headers, h': Headers, p: nat, b: nat, m: nat)
    requires Merged(h, h', p, b, m) && h[b].next == m && h[p].seg == h[b].seg
    ensures Mergeable(h', p, h'[p].next) <==> Mergeable(h, b, h[b].next)
  {
  }

  /** The header writes of dropping the last block. */
  function Dropped(h: Headers, b: nat): Headers
    requires b in h && (h[b].prev != 0 ==> h[b].prev in h)
  {
    (if h[b].prev != 0 then h[h[b].prev := h[h[b].prev].(next := 0)] else h) - {b}
  }

  lemma LastPlace(h: Headers, ord: seq<nat>, segs: seq<Segment>)
    requires Tiled(h, ord, segs) && |ord| > 0
    ensures var n := |ord| - 1; ord[n] in h && ord[n] > 0 && h[ord[n]].prev == Nth(ord, n - 1) && (n > 0 ==> ord[n - 1] in h && ord[n - 1] > 0)
    ensures 0 !in h
  {
    var n := |ord| - 1;
    assert BlockOk(h, ord, segs, n) && (n > 0 ==> BlockOk(h, ord, segs, n - 1));
    forall k: nat | k < |ord| ensures ord[k] > 0 { assert BlockOk(h, ord, segs, k); }
  }

  /** The last segment is one free block. */
  ghost predicate LastFree(h: Headers, segs: seq<Segment>) {
    && |segs| > 0
    && var s := segs[|segs| - 1]; s.vaddr in h && h[s.vaddr].free && End(h, s.vaddr) == SegEnd(s)
  }

  /** The last segment holds an allocation. */
  ghost predicate LastUsed(h: Headers, segs: seq<Segment>) {
    exists b: nat :: b in h && !h[b].free && h[b].seg + 1 == |segs|
  }

  /** If so, that block is the last of the list. */
  lemma LastIsTail(h: Headers, ord: seq<nat>, segs: seq<Segment>, tail: nat)
    requires Tiled(h, ord, segs) && tail == Nth(ord, |ord| - 1)
    ensures LastFree(h, segs) <==>
      && |segs| > 0 && tail != 0 && tail in h && h[tail].free
      && End(h, tail) == SegEnd(segs[|segs| - 1]) && tail == segs[|segs| - 1].vaddr && h[tail].seg == |segs| - 1
  {
    if segs != [] {
      LastPlace(h, ord, segs);
      assert JoinOk(h, ord, segs, |ord|);
      var b := segs[|segs| - 1].vaddr;
      assert b in h && b != tail ==> Apart(h, b, tail);
    }
  }

  /** Where no two neighbours are free and the last segment is not one free block, it holds an allocation. */
  lemma LastHasUsed(h: Headers, ord: seq<nat>, segs: seq<Segment>)
    requires Tiled(h, ord, segs) && NoPairs(h) && segs != [] && !LastFree(h, segs)
    ensures LastUsed(h, segs)
  {
    var n := |ord| - 1;
    var tail := ord[n];
    LastIsTail(h, ord, segs, tail);
    LastPlace(h, ord, segs);
    assert JoinOk(h, ord, segs, |ord|) && JoinOk(h, ord, segs, n);
    if h[tail].free && n > 0 {
      assert BlockOk(h, ord, segs, n - 1);
      var p := ord[n - 1];
      assert h[p].next == tail;
      assert h[p].seg == h[tail].seg && h[p].free ==> Mergeable(h, p, h[p].next);
    }
  }

  lemma DropInv(h: Headers, bins: seq<seq<nat>>, ord: seq<nat>, segs: seq<Segment>)
    requires Tiled(h, ord, segs) && WholeLast(h, ord, segs) && BinsOk(h, bins, {ord[|ord| - 1]}) && h[ord[|ord| - 1]].free
    ensures var b := ord[|ord| - 1]; h[b].prev != 0 ==> h[b].prev in h
    ensures var h' := Dropped(h, ord[|ord| - 1]);
      Tiled(h', ord[..|ord| - 1], segs[..|segs| - 1]) && BinsOk(h', bins, {}) && SameLive(h, h')
  {
    var n := |ord| - 1;
    var b := ord[n];
    LastPlace(h, ord, segs);
    assert n > 0 ==> Place(ord, n) && Place(ord, n - 1);
    var h' := Dropped(h, b);
    DropTiled(h, h', ord, segs, ord[..n], segs[..|segs| - 1]);
    BinsKept(h, h', bins, {b}, {});
    forall x: nat, size: nat ensures Live(h, x, size) <==> Live(h', x, size) {}
  }

  /** Exactly the allocation of `size` bytes at `b` is gone, or new. */
  ghost predicate LiveMinus(h: Headers, h': Headers, b: nat) {
    forall x: nat, size: nat {:trigger Live(h', x, size)} :: Live(h', x, size) <==> Live(h, x, size) && x != b
  }

  ghost predicate LivePlus(h: Headers, h': Headers, b: nat, n: nat) {
    && (forall size: nat :: !Live(h, b, size))
    && forall x: nat, size: nat {:trigger Live(h', x, size)} :: Live(h', x, size) <==> Live(h, x, size) || (x == b && size == n)
  }

  function Flagged(h: Headers, b: nat, free: bool): Headers
    requires b in h
  {
    h[b := h[b].(free := free)]
  }

  /** Marking an allocated block free leaves it off the bins. */
  lemma FreeInv(h: Headers, bins: seq<seq<nat>>, ord: seq<nat>, segs: seq<Segment>, b: nat)
    requires Tiled(h, ord, segs) && BinsOk(h, bins, {}) && b in h && !h[b].free
    ensures var h' := Flagged(h, b, true); Tiled(h', ord, segs) && BinsOk(h', bins, {b}) && LiveMinus(h, h', b)
  {
    var h' := Flagged(h, b, true);
    ShapeTiled(h, h', ord, segs);
    forall i: nat, x: nat | i < BINS ensures x in bins[i] <==> x in h' && h'[x].free && x !in {b} && BinFor(h'[x].size) == i {
      assert x in bins[i] <==> x in h && h[x].free && BinFor(h[x].size) == i;
    }
  }

  /** Marking a block that is off the bins as used puts everything right. */
  lemma UseInv(h: Headers, bins: seq<seq<nat>>, ord: seq<nat>, segs: seq<Segment>, b: nat)
    requires Tiled(h, ord, segs) && BinsOk(h, bins, {b}) && b in h && h[b].free
    ensures var h' := Flagged(h, b, false); Tiled(h', ord, segs) && BinsOk(h', bins, {}) && LivePlus(h, h', b, h[b].size)
  {
    var h' := Flagged(h, b, false);
    ShapeTiled(h, h', ord, segs);
    BinsKept(h, h', bins, {b}, {});
  }

  lemma InSegment(h: Headers, ord: seq<nat>, segs: seq<Segment>, b: nat)
    requires Tiled(h, ord, segs)
    ensures b in h ==> exists i: nat :: i < |segs| && segs[i].vaddr <= b < SegEnd(segs[i])
  {
    if b in h {
      var k: nat :| k < |ord| && ord[k] == b;
      assert BlockOk(h, ord, segs, k);
      assert segs[h[b].seg].vaddr <= b < SegEnd(segs[h[b].seg]);
    }
  }

  lemma NextKnown(h: Headers, ord: seq<nat>, segs: seq<Segment>, i: nat)
    requires Tiled(h, ord, segs) && i < |ord| && ord[i] in h
    ensures h[ord[i]].next != 0 ==> h[ord[i]].next in h
  {
    assert BlockOk(h, ord, segs, i) && (i + 1 < |ord| ==> BlockOk(h, ord, segs, i + 1));
  }

  /** The header writes of `split_block`, for a remainder that holds more than a header. */
  function Halved(h: Headers, b: nat, size: nat): Headers
    requires b in h && h[b].size > size + HDR && (h[b].next != 0 ==> h[b].next in h)
  {
    var c, m := b + HDR + size, h[b].next;
    var h1 := h[c := Header(h[b].size - size - HDR, true, h[b].seg, m, b)];
    var h2 := if m != 0 then h1[m := h1[m].(prev := c)] else h1;
    h2[b := h2[b].(next := c, size := size)]
  }

  lemma HalvedSplits(h: Headers, ord: seq<nat>, segs: seq<Segment>, i: nat, size: nat)
    requires Tiled(h, ord, segs) && i < |ord| && ord[i] in h && h[ord[i]].size > size + HDR
    ensures var b := ord[i]; h[b].next == Nth(ord, i + 1) && (h[b].next != 0 ==> h[b].next in h)
    ensures var b := ord[i]; MaySplit(h, Halved(h, b, size), ord, segs, i, size, b + HDR + size)
  {
    var b, c := ord[i], ord[i] + HDR + size;
    assert BlockOk(h, ord, segs, i) && (i + 1 < |ord| ==> BlockOk(h, ord, segs, i + 1) && Place(ord, i) && Place(ord, i + 1));
    InsideFresh(h, ord, segs, b, c);
    assert 0 in h ==> 0 in ord;
    forall k: nat | k < |ord| ensures ord[k] > 0 { assert BlockOk(h, ord, segs, k); }
  }

  /** Block `b` is allocated with `size` bytes instead. */
  ghost predicate Resized(h: Headers, h': Headers, b: nat, size: nat) {
    forall x: nat, n: nat {:trigger Live(h', x, n)} :: Live(h', x, n) <==> if x == b then n == size else Live(h, x, n)
  }

  /** Splitting a block that is off the bins leaves both parts off the bins. */
  lemma HalvedInv(h: Headers, bins: seq<seq<nat>>, ord: seq<nat>, segs: seq<Segment>, i: nat, size: nat, b: nat, c: nat, h': Headers)
    requires Tiled(h, ord, segs) && i < |ord| && ord[i] == b && b in h && h[b].size > size + HDR && c == b + HDR + size
    requires (h[b].next != 0 ==> h[b].next in h) && h' == Halved(h, b, size) && BinsOk(h, bins, {b})
    ensures Tiled(h', With(ord, i + 1, c), segs) && BinsOk(h', bins, {b, c})
    ensures if h[b].free then SameLive(h, h') else Resized(h, h', b, size)
    ensures b in h' && c in h' && h'[b].free == h[b].free && h'[c].free && h'[b].size == size
  {
    HalvedSplits(h, ord, segs, i, size);
    SplitTiled(h, h', ord, segs, i, size, c);
    forall k: nat, x: nat | k < BINS ensures x in bins[k] <==> x in h' && h'[x].free && x !in {b, c} && BinFor(h'[x].size) == k {
      assert x in bins[k] <==> x in h && h[x].free && x !in {b} && BinFor(h[x].size) == k;
    }
    assert h[b].free ==> forall x: nat, n: nat :: Live(h, x, n) <==> Live(h', x, n);
  }

  lemma EndsAfter(ord: seq<nat>, i: nat, c: nat)
    requires i < |ord| && Once(ord)
    ensures var r := With(ord, i + 1, c);
      Nth(r, 0) == Nth(ord, 0) && Nth(r, |r| - 1) == if ord[i] == Nth(ord, |ord| - 1) then c else Nth(ord, |ord| - 1)
  {
    assert Place(ord, i) && Place(ord, |ord| - 1);
  }

  /** The writes of a split, and what they do to the list. */
  method WriteHalves(h: Headers, b: nat, size: nat,
      ghost bins: seq<seq<nat>>, ghost ord: seq<nat>, ghost segs: seq<Segment>, ghost i: nat)
      returns (h': Headers, c: nat, ghost r: seq<nat>)
    requires Tiled(h, ord, segs) && i < |ord| && ord[i] == b && b in h && h[b].size > size + HDR && BinsOk(h, bins, {b})
    ensures (h[b].next != 0 ==> h[b].next in h) && h' == Halved(h, b, size) && c == b + HDR + size
    ensures Tiled(h', r, segs) && BinsOk(h', bins, {b, c})
    ensures if h[b].free then SameLive(h, h') else Resized(h, h', b, size)
    ensures b != c && b in h' && c in h' && h'[b].free == h[b].free && h'[c].free && h'[b].size == size
    ensures Nth(r, 0) == Nth(ord, 0) && Nth(r, |r| - 1) == if b == Nth(ord, |ord| - 1) then c else Nth(ord, |ord| - 1)
  {
    c := b + HDR + size;
    r := With(ord, i + 1, c);
    NextKnown(h, ord, segs, i);
    EndsAfter(ord, i, c);
    h' := Halved(h, b, size);
    HalvedInv(h, bins, ord, segs, i, size, b, c, h');
  }

  /** `a - b` in 64 bits. */
  function Minus(a: nat, b: nat): (r: nat)
    requires b <= a + WORD
    ensures if a >= b then r + b == a else r + b == a + WORD
  {
    if a >= b then a - b else a + WORD - b
  }

  /**
   The header writes of `split_block` when 16 bytes are asked of a shorter block: the difference wraps, and
   the new header starts inside the next one, if that is where the block ends; `wreck` is what is left there.
   */
  function Overrun(h: Headers, b: nat, wreck: Header): Headers
    requires b in h && h[b].size < 16 && (h[b].next != 0 ==> h[b].next in h)
  {
    var c, n := b + HDR + 16, h[b].next;
    var h1 := h[c := Header(Minus(h[b].size, 16) - HDR, true, h[b].seg, n, b)];
    var h2 := if n == 0 then h1 else if n == End(h, b) then h1[n := wreck] else h1[n := h1[n].(prev := c)];
    h2[b := h2[b].(next := c, size := 16)]
  }

  /** What these writes leave: the block with 16 bytes, and behind it a free one of almost 2^64. */
  lemma OverrunLeaves(h: Headers, b: nat, wreck: Header)
    requires b in h && h[b].size < 16 && (h[b].next != 0 ==> h[b].next in h) && h[b].next != b && h[b].next != b + HDR + 16
    ensures var h', c, n := Overrun(h, b, wreck), b + HDR + 16, h[b].next;
      && h'.Keys == h.Keys + {c} && h'[b] == Header(16, h[b].free, h[b].seg, c, h[b].prev)
      && h'[c] == Header(0x1_0000_0000_0000_0000 - 16 + h[b].size - 56, true, h[b].seg, n, b)
      && (n != 0 ==> h'[n] == if n == b + 56 + h[b].size then wreck else h[n].(prev := c))
      && forall x: nat :: x in h && x != b && x != c && x != n ==> h'[x] == h[x]
  {
  }

  /** No order of the blocks tiles the segments then. */
  lemma OverrunBreaks(h: Headers, ord: seq<nat>, segs: seq<Segment>, i: nat, wreck: Header, ord': seq<nat>)
    requires Tiled(h, ord, segs) && i < |ord| && ord[i] in h && h[ord[i]].size < 16
    ensures var b := ord[i]; (h[b].next != 0 ==> h[b].next in h) && !Tiled(Flagged(Overrun(h, b, wreck), b, false), ord', segs)
  {
    var b := ord[i];
    NextKnown(h, ord, segs, i);
    var h', c, n := Flagged(Overrun(h, b, wreck), b, false), b + HDR + 16, h[b].next;
    assert BlockOk(h, ord, segs, i) && JoinOk(h, ord, segs, i + 1) && c in h';
    if n != 0 && n == End(h, b) {
      assert n in h' && !Apart(h', n, c);
    } else {
      assert forall j: nat :: j < |ord'| && ord'[j] == c ==> !BlockOk(h', ord', segs, j);
    }
  }

  /** The headers and the bins after `size` bytes are taken from the free block `b`. */
  function SplitHeaders(h: Headers, b: nat, size: nat, wreck: Header): (r: Headers)
    requires b in h && (h[b].next != 0 ==> h[b].next in h) && (h[b].size >= size || size == 16)
    ensures b in r
  {
    if h[b].size < size then Overrun(h, b, wreck)
    else if h[b].size - size <= HDR then h
    else Halved(h, b, size)
  }

  function SplitBins(bins: seq<seq<nat>>, b: nat, had: nat, size: nat): seq<seq<nat>>
    requires |bins| == BINS && (had >= size || size == 16)
  {
    if Minus(had, size) <= HDR then bins
    else
      var k := BinFor(Minus(had, size) - HDR);
      bins[k := [b + HDR + size] + bins[k]]
  }

  function BinsWithout(bins: seq<seq<nat>>, b: nat, had: nat): (r: seq<seq<nat>>)
    requires |bins| == BINS
    ensures |r| == BINS
  {
    bins[BinFor(had) := Remove(bins[BinFor(had)], b)]
  }

  /** The header writes of `heap_grow`. */
  function Extended(h: Headers, tail: nat, v: nat, pages: nat, seg: nat): Headers
    requires pages * PAGE_SIZE > HDR && (tail != 0 ==> tail in h)
  {
    (if tail != 0 then h[tail := h[tail].(next := v)] else h)[v := Header(pages * PAGE_SIZE - HDR, true, seg, 0, tail)]
  }

  lemma GrowPages(size: nat)
    ensures GrowBytes(size) / PAGE_SIZE * PAGE_SIZE == GrowBytes(size) && GrowBytes(size) / PAGE_SIZE >= GROW_MIN_PAGES
  {
    assert WORD == 0x10_0000_0000_0000 * PAGE_SIZE;
  }

  lemma GrowInv(h: Headers, bins: seq<seq<nat>>, ord: seq<nat>, segs: seq<Segment>, v: nat, pages: nat, tail: nat)
    requires Tiled(h, ord, segs) && BinsOk(h, bins, {}) && tail == Nth(ord, |ord| - 1) && v > 0 && pages > 0 && Unused(segs, v, pages)
    ensures (tail != 0 ==> tail in h) && (tail == 0 <==> ord == []) && v !in h
    ensures var h' := Extended(h, tail, v, pages, |segs|);
      Tiled(h', ord + [v], segs + [Segment(v, pages)]) && BinsOk(h', bins, {v}) && SameLive(h, h')
  {
    if |ord| > 0 { LastPlace(h, ord, segs); }
    assert v !in h by { if v in h { UnusedFresh(h, ord, segs, v, pages, v); } }
    assert 0 in h ==> 0 in ord;
    var h' := Extended(h, tail, v, pages, |segs|);
    AppendTiled(h, h', ord, segs, v, pages, ord + [v], segs + [Segment(v, pages)]);
    forall k: nat, x: nat | k < BINS ensures x in bins[k] <==> x in h' && h'[x].free && x !in {v} && BinFor(h'[x].size) == k {
      assert x in bins[k] <==> x in h && h[x].free && BinFor(h[x].size) == k;
    }
    forall x: nat, n: nat ensures Live(h, x, n) <==> Live(h', x, n) {}
  }

  lemma BinFive(size: nat)
    ensures size < 16 ==> BinFor(size) == 4
    ensures size >= 32 ==> BinFor(size) >= 5
  {
    BitLen16();
    if size >= 32 {
      assert BitLen(32) == 6;
      BitLenMono(32, size);
    }
  }

  /** The request is for 16 bytes and the first block of its bin is shorter. */
  predicate ShortFirst(h: Headers, bins: seq<seq<nat>>, size: nat) {
    size == 16 && |bins| == BINS && bins[4] != [] && bins[4][0] in h && h[bins[4][0]].size < 16
  }

  /** The first block of a bin that `kmalloc` takes from is free, and long enough unless it is that one. */
  lemma TakeFits(h: Headers, bins: seq<seq<nat>>, size: nat, i: nat)
    requires BinsOk(h, bins, {}) && size > 0 && size % 16 == 0 && StartBin(size) <= i < BINS && bins[i] != []
    requires forall j: nat :: StartBin(size) <= j < i ==> bins[j] == []
    ensures var b := bins[i][0]; b in h && h[b].free && (h[b].size >= size <==> !ShortFirst(h, bins, size))
  {
    var b := bins[i][0];
    assert b in bins[i];
    BinFits(h[b].size, size);
    BinFive(h[b].size);
    BitLen16();
    if size > 16 {
      BitLenMono(16, size - 1);
    }
  }

  lemma LiveTrans(h: Headers, h1: Headers, h2: Headers, b: nat)
    requires SameLive(h, h1) && b in h2 && LivePlus(h1, h2, b, h2[b].size)
    ensures LivePlus(h, h2, b, h2[b].size)
  {
    forall n: nat ensures !Live(h, b, n) { assert Live(h, b, n) <==> Live(h1, b, n); }
    forall x: nat, n: nat ensures Live(h2, x, n) <==> Live(h, x, n) || (x == b && n == h2[b].size) {
      assert Live(h, x, n) <==> Live(h1, x, n);
    }
  }

  /** No free block is followed by a free block of its segment. */
  ghost predicate NoPairs(h: Headers) {
    forall x: nat {:trigger h[x]} :: x in h && h[x].free ==> !Mergeable(h, x, h[x].next)
  }

  /** The same, but for block `r` and the one in front of it. */
  ghost predicate PairsBut(h: Headers, r: nat) {
    forall x: nat {:trigger h[x]} :: x in h && h[x].free && x != r && h[x].next != r ==> !Mergeable(h, x, h[x].next)
  }

  /** Only one block is in front of another. */
  lemma OnePrev(h: Headers, ord: seq<nat>, segs: seq<Segment>, i: nat, x: nat)
    requires Tiled(h, ord, segs) && i + 1 < |ord| && x in h && h[x].next == ord[i + 1]
    ensures x == ord[i]
  {
    var j: nat :| j < |ord| && ord[j] == x;
    assert BlockOk(h, ord, segs, j) && BlockOk(h, ord, segs, i + 1);
    assert Place(ord, i + 1) && (j + 1 < |ord| ==> Place(ord, j + 1));
  }

  lemma MergedPairs(h: Headers, h': Headers, ord: seq<nat>, segs: seq<Segment>, i: nat, r: nat)
    requires MayMerge(h, h', ord, segs, i) && (r == ord[i] || r == ord[i + 1]) && PairsBut(h, r)
    ensures PairsBut(h', ord[i])
  {
    var a, n := ord[i], ord[i + 1];
    forall x: nat | x in h' && h'[x].free && x != a && h'[x].next != a ensures !Mergeable(h', x, h'[x].next) {
      assert h[x].next == h'[x].next && h[x].free;
      if h[x].next == n { OnePrev(h, ord, segs, i, x); }
      assert !Mergeable(h, x, h[x].next);
    }
  }

  /** With no free neighbour of its segment left, there is no pair. */
  lemma NoPairLeft(h: Headers, ord: seq<nat>, segs: seq<Segment>, r: nat)
    requires Tiled(h, ord, segs) && r in h && h[r].free && PairsBut(h, r)
    requires !Mergeable(h, r, h[r].next) && !Mergeable(h, r, h[r].prev)
    ensures NoPairs(h)
  {
    forall x: nat | x in h && h[x].free ensures !Mergeable(h, x, h[x].next) {
      if x != r && h[x].next == r {
        var j: nat :| j < |ord| && ord[j] == x;
        assert BlockOk(h, ord, segs, j);
        var k: nat :| k < |ord| && ord[k] == r;
        assert BlockOk(h, ord, segs, k) && Place(ord, k) && (j + 1 < |ord| ==> Place(ord, j + 1));
      }
    }
  }

  lemma NextIn(h: Headers, ord: seq<nat>, segs: seq<Segment>, x: nat)
    requires Tiled(h, ord, segs) && x in h
    ensures h[x].next != 0 ==> h[x].next in h
  {
    var j: nat :| j < |ord| && ord[j] == x;
    NextKnown(h, ord, segs, j);
  }

  lemma HalvedPairs(h: Headers, ord: seq<nat>, segs: seq<Segment>, i: nat, size: nat)
    requires Tiled(h, ord, segs) && i < |ord| && ord[i] in h && h[ord[i]].size > size + HDR && h[ord[i]].free && NoPairs(h)
    ensures var b := ord[i]; (h[b].next != 0 ==> h[b].next in h) && NoPairs(Flagged(Halved(h, b, size), b, false))
  {
    var b, c := ord[i], ord[i] + HDR + size;
    HalvedSplits(h, ord, segs, i, size);
    var h' := Flagged(Halved(h, b, size), b, false);
    assert c !in h;
    forall x: nat | x in h' && h'[x].free ensures !Mergeable(h', x, h'[x].next) {
      assert !Mergeable(h, b, h[b].next);
      if x != c {
        assert x in h && h[x].next == h'[x].next && !Mergeable(h, x, h[x].next);
        NextIn(h, ord, segs, x);
      }
    }
  }

  /** Taking from a free block leaves no pair. */
  lemma TakePairs(h: Headers, ord: seq<nat>, segs: seq<Segment>, i: nat, size: nat, wreck: Header)
    requires Tiled(h, ord, segs) && i < |ord| && ord[i] in h && h[ord[i]].size >= size && h[ord[i]].free && NoPairs(h)
    ensures var b := ord[i]; (h[b].next != 0 ==> h[b].next in h) && NoPairs(Flagged(SplitHeaders(h, b, size, wreck), b, false))
  {
    var b := ord[i];
    NextKnown(h, ord, segs, i);
    if h[b].size - size > HDR {
      HalvedPairs(h, ord, segs, i, size);
    } else {
      var h' := Flagged(h, b, false);
      forall x: nat | x in h' && h'[x].free ensures !Mergeable(h', x, h'[x].next) { assert !Mergeable(h, x, h[x].next); }
    }
  }

  /** What taking `size` bytes from the free block `ord[i]` makes of the headers. */
  lemma TakenHeaders(h: Headers, ord: seq<nat>, segs: seq<Segment>, i: nat, size: nat, wreck: Header, h': Headers)
    requires Tiled(h, ord, segs) && i < |ord| && ord[i] in h && h[ord[i]].free && (h[ord[i]].size >= size || size == 16)
    requires (h[ord[i]].next != 0 ==> h[ord[i]].next in h) && h' == Flagged(SplitHeaders(h, ord[i], size, wreck), ord[i], false)
    ensures h[ord[i]].size > size + HDR ==> var c := ord[i] + HDR + size; c in h' && h'[c].size == h[ord[i]].size - size - HDR
    ensures h[ord[i]].size >= size ==> size <= h'[ord[i]].size <= size + HDR
    ensures h[ord[i]].size >= size && NoPairs(h) ==> NoPairs(h')
    ensures h[ord[i]].size < size ==> forall ord' :: !Tiled(h', ord', segs)
  {
    if h[ord[i]].size < size {
      forall ord' ensures !Tiled(h', ord', segs) { OverrunBreaks(h, ord, segs, i, wreck, ord'); }
    } else {
      if NoPairs(h) { TakePairs(h, ord, segs, i, size, wreck); }
      if h[ord[i]].size > size + HDR { HalvedSplits(h, ord, segs, i, size); }
    }
  }

  lemma UseLive(h: Headers, h1: Headers, h': Headers, b: nat, n: nat)
    requires SameLive(h, h1) && LivePlus(h1, h', b, n)
    ensures LivePlus(h, h', b, n)
  {
    forall m: nat ensures !Live(h, b, m) { assert !Live(h1, b, m); }
  }

  /** Splitting a block in use leaves a pair exactly when a free block of its segment follows. */
  lemma ShrinkPairs(h: Headers, ord: seq<nat>, segs: seq<Segment>, i: nat, size: nat)
    requires Tiled(h, ord, segs) && i < |ord| && ord[i] in h && h[ord[i]].size > size + HDR && !h[ord[i]].free && NoPairs(h)
    ensures var b := ord[i]; (h[b].next != 0 ==> h[b].next in h) && (NoPairs(Halved(h, b, size)) <==> !Mergeable(h, b, h[b].next))
  {
    var b, c := ord[i], ord[i] + HDR + size;
    HalvedSplits(h, ord, segs, i, size);
    var h' := Halved(h, b, size);
    assert c !in h && c in h' && h'[c].next == h[b].next;
    assert Mergeable(h', c, h'[c].next) <==> Mergeable(h, b, h[b].next);
    forall x: nat | x in h' && h'[x].free && x != c ensures !Mergeable(h', x, h'[x].next) {
      assert x in h && h[x].next == h'[x].next && !Mergeable(h, x, h[x].next);
      NextIn(h, ord, segs, x);
    }
  }

  /** Blocks in use are in no bin anyway. */
  lemma UsedOff(h: Headers, bins: seq<seq<nat>>, b: nat)
    requires b in h && !h[b].free
    ensures BinsOk(h, bins, {b}) <==> BinsOk(h, bins, {})
  {
  }

  lemma FreePairs(h: Headers, b: nat)
    requires NoPairs(h) && b in h
    ensures PairsBut(Flagged(h, b, true), b)
  {
    var h' := Flagged(h, b, true);
    forall x: nat | x in h' && h'[x].free && x != b && h'[x].next != b ensures !Mergeable(h', x, h'[x].next) {
      assert !Mergeable(h, x, h[x].next);
    }
  }

  lemma DropPairs(h: Headers, ord: seq<nat>, segs: seq<Segment>)
    requires Tiled(h, ord, segs) && |ord| > 0 && NoPairs(h)
    ensures var b := ord[|ord| - 1]; b in h && (h[b].prev != 0 ==> h[b].prev in h) && NoPairs(Dropped(h, b))
  {
    LastPlace(h, ord, segs);
    var b := ord[|ord| - 1];
    var h' := Dropped(h, b);
    forall x: nat | x in h' && h'[x].free ensures !Mergeable(h', x, h'[x].next) {
      assert x in h && !Mergeable(h, x, h[x].next);
    }
  }

  lemma GrowPairs(h: Headers, ord: seq<nat>, segs: seq<Segment>, tail: nat, v: nat, pages: nat)
    requires Tiled(h, ord, segs) && NoPairs(h) && tail == Nth(ord, |ord| - 1) && v !in h && pages * PAGE_SIZE > HDR
    ensures (tail != 0 ==> tail in h) && NoPairs(Extended(h, tail, v, pages, |segs|))
  {
    if |ord| > 0 { LastPlace(h, ord, segs); assert BlockOk(h, ord, segs, |ord| - 1); }
    var h' := Extended(h, tail, v, pages, |segs|);
    forall x: nat | x in h' && h'[x].free ensures !Mergeable(h', x, h'[x].next) {
      if x != v {
        assert x in h && !Mergeable(h, x, h[x].next);
        var j: nat :| j < |ord| && ord[j] == x;
        assert BlockOk(h, ord, segs, j);
      }
    }
  }

  /** No bin from `start` on has a block. */
  predicate NoneFrom(bins: seq<seq<nat>>, start: nat) {
    forall i: nat :: start <= i < |bins| ==> bins[i] == []
  }

  /** Addresses for `pages` pages each that are apart from the segments and from each other. */
  ghost predicate Offered(segs: seq<Segment>, places: seq<nat>, pages: nat) {
    && (forall j: nat :: j < |places| ==> places[j] > 0 && Unused(segs, places[j], pages))
    && forall j: nat, k: nat :: j < k < |places| ==> Unused([Segment(places[j], pages)], places[k], pages)
  }

  lemma NextOffer(segs: seq<Segment>, places: seq<nat>, pages: nat)
    requires Offered(segs, places, pages) && places != []
    ensures places[0] > 0 && Unused(segs, places[0], pages) && Offered(segs + [Segment(places[0], pages)], places[1..], pages)
  {
    var segs' := segs + [Segment(places[0], pages)];
    forall j: nat | j < |places| - 1 ensures places[1..][j] > 0 && Unused(segs', places[1..][j], pages) {
      assert Unused([Segment(places[0], pages)], places[j + 1], pages) && Unused(segs, places[j + 1], pages);
      assert [Segment(places[0], pages)][0] == Segment(places[0], pages);
    }
  }

  /** A grown block goes into one bin, which is not that of 16-byte requests. */
  lemma AfterGrow(h: Headers, bins: seq<seq<nat>>, bins': seq<seq<nat>>, size: nat, v: nat)
    requires size > 0 && |bins| == BINS && NoneFrom(bins, StartBin(size))
    requires var k := BinFor(GrowBytes(size) - HDR); bins' == bins[k := [v] + bins[k]]
    ensures !ShortFirst(h, bins', size) && (NoneFrom(bins', StartBin(size)) <==> !Helps(size))
  {
    var k := BinFor(GrowBytes(size) - HDR);
    GrowPages(size);
    BinFive(GrowBytes(size) - HDR);
    BitLen16();
    assert bins'[k] != [] && k != 4;
    if Helps(size) { assert StartBin(size) <= k < |bins'|; }
  }

  /** What taking `size` bytes from block `b` does to headers and bins. */
  ghost predicate Taken(h: Headers, bins: seq<seq<nat>>, h': Headers, bins': seq<seq<nat>>, b: nat, size: nat, wreck: Header)
    requires b in h
  {
    && (h[b].next != 0 ==> h[b].next in h) && (h[b].size >= size || size == 16) && |bins| == BINS
    && h' == Flagged(SplitHeaders(h, b, size, wreck), b, false)
    && bins' == SplitBins(BinsWithout(bins, b, h[b].size), b, h[b].size, size)
    && (h[b].size > size + HDR ==> var c := b + HDR + size; c in h' && h'[c].size == h[b].size - size - HDR)
  }

  /** The first block of the first bin from `start` on that has one. */
  ghost predicate IsFirst(bins: seq<seq<nat>>, start: nat, b: nat) {
    exists i: nat :: start <= i < |bins| && bins[i] != [] && bins[i][0] == b && forall j: nat :: start <= j < i ==> bins[j] == []
  }

  /** Block `a` is allocated in place of block `b`. */
  ghost predicate Moved(h: Headers, h': Headers, b: nat, a: nat, n: nat) {
    forall x: nat, size: nat {:trigger Live(h', x, size)} :: Live(h', x, size) <==> (Live(h, x, size) && x != b) || (x == a && size == n)
  }

  lemma MoveLive(h: Headers, h1: Headers, h2: Headers, b: nat, a: nat, n: nat, m: nat)
    requires LivePlus(h, h1, a, n) && LiveMinus(h1, h2, b) && Live(h, b, m)
    ensures a != b && Moved(h, h2, b, a, n)
  {
    assert !Live(h, a, m);
    forall x: nat, size: nat ensures Live(h2, x, size) <==> (Live(h, x, size) && x != b) || (x == a && size == n) {
      assert Live(h1, x, size) <==> Live(h, x, size) || (x == a && size == n);
    }
  }

  /** Every allocated block has at least 16 bytes. */
  ghost predicate UsedLong(h: Headers) {
    forall x: nat, n: nat {:trigger Live(h, x, n)} :: Live(h, x, n) ==> n >= 16
  }

  /** `ALIGN_UP` to 16 bytes. */
  function Up16(size: nat): nat {
    (size + 15) / 16 * 16
  }

  /** The largest request that `kmalloc` and `krealloc` do not turn down. */
  const MAX_REQUEST: nat := WORD - 1 - 16 - HDR

  lemma Rounded(size: nat)
    requires 0 < size <= MAX_REQUEST
    ensures size <= Up16(size) < size + 16 && Up16(size) % 16 == 0 && Up16(size) >= 16 && Up16(size) + HDR < WORD
  {
    assert WORD == 0x1000_0000_0000_0000 * 16;
  }

  datatype FreeResult = Freed | Outside | NotBoundary | DoubleFree

  class Allocator {
    var hdr: Headers
    var head: nat
    var tail: nat
    var bins: seq<seq<nat>>
    var segs: seq<Segment>
    ghost var ord: seq<nat>

    constructor ()
      ensures Valid() && NoPairs(hdr) && hdr == map[] && segs == [] && bins == NoBlocks()
    {
      hdr, head, tail, segs, ord := map[], 0, 0, [], [];
      bins := NoBlocks();
    }

    /** All is well but that the blocks in `off` are not in the bins. */
    ghost predicate ValidBut(off: set<nat>)
      reads this
    {
      && Tiled(hdr, ord, segs) && BinsOk(hdr, bins, off)
      && head == Nth(ord, 0) && tail == Nth(ord, |ord| - 1)
    }

    ghost predicate Valid()
      reads this
    {
      ValidBut({})
    }

    /** `bin_remove`. */
    method BinRemove(b: nat, ghost off: set<nat>)
      requires ValidBut(off) && b in hdr
      modifies this`bins
      ensures ValidBut(off + {b}) && |old(bins)| == BINS && bins == BinsWithout(old(bins), b, hdr[b].size)
    {
      BinTake(hdr, bins, off, b);
      var k := BinFor(hdr[b].size);
      bins := bins[k := Remove(bins[k], b)];
    }

    /** `bin_insert`. */
    method BinInsert(b: nat, ghost off: set<nat>)
      requires ValidBut(off + {b}) && b in hdr && hdr[b].free && b !in off
      modifies this`bins
      ensures ValidBut(off) && bins == old(bins)[BinFor(hdr[b].size) := [b] + old(bins)[BinFor(hdr[b].size)]]
    {
      BinPut(hdr, bins, off, b);
      var k := BinFor(hdr[b].size);
      bins := bins[k := [b] + bins[k]];
    }

    /** Makes the block at place `i` and the next one; both are off the bins. */
    method Absorb(a: nat, ghost i: nat)
      requires i + 1 < |ord| && ord[i] == a && ValidBut({a, ord[i + 1]}) && a in hdr && ord[i + 1] in hdr
      requires hdr[a].seg == hdr[ord[i + 1]].seg
      modifies this`hdr, this`tail, this`ord
      ensures ord == Without(old(ord), i + 1) && ValidBut({a})
      ensures Merged(old(hdr), hdr, a, old(ord)[i + 1], Nth(old(ord), i + 2))
    {
      AbsorbInv(hdr, bins, ord, segs, i);
      var n := hdr[a].next;
      var m := hdr[n].next;
      hdr := Absorbed(hdr, a, n, m);
      if n == tail { tail := a; }
      ord := Without(ord, i + 1);
    }

    /** One pass of the forward loop of `coalesce`: takes in the free block behind. */
    method TakeNext(b: nat, ghost i: nat, ghost h0: Headers)
      requires i < |ord| && ord[i] == b && ValidBut({b}) && Run(h0, hdr, b) && Mergeable(hdr, b, hdr[b].next)
      modifies this`hdr, this`tail, this`ord, this`bins
      ensures i < |ord| == old(|ord|) - 1 && ord[i] == b && ValidBut({b}) && Run(h0, hdr, b)
      ensures old(PairsBut(hdr, b)) ==> PairsBut(hdr, b)
    {
      NextPlace(hdr, ord, segs, i);
      var n := hdr[b].next;
      ghost var h1, ord1, m := hdr, ord, Nth(ord, i + 2);
      BinRemove(n, {b});
      assert {b} + {n} == {b, n};
      Absorb(b, i);
      RunOn(h0, h1, hdr, b, n, m);
      if PairsBut(h1, b) { MergedPairs(h1, hdr, ord1, segs, i, b); }
    }

    /** One pass of its backward loop: the free block in front takes this one in. */
    method TakePrev(b: nat, ghost i: nat, ghost h0: Headers) returns (p: nat)
      requires i < |ord| && ord[i] == b && ValidBut({b}) && Run(h0, hdr, b) && Mergeable(hdr, b, hdr[b].prev)
      modifies this`hdr, this`tail, this`ord, this`bins
      ensures 0 < i <= |ord| == old(|ord|) - 1 && ord[i - 1] == p && ValidBut({p}) && Run(h0, hdr, p)
      ensures p < b && End(hdr, p) == End(old(hdr), b) && (old(PairsBut(hdr, b)) ==> PairsBut(hdr, p))
      ensures Mergeable(hdr, p, hdr[p].next) <==> Mergeable(old(hdr), b, old(hdr)[b].next)
    {
      PrevPlace(hdr, ord, segs, i);
      NextPlace(hdr, ord, segs, i);
      p := hdr[b].prev;
      ghost var h1, ord1, m := hdr, ord, Nth(ord, i + 1);
      BinRemove(p, {b});
      assert {b} + {p} == {p, b};
      Absorb(p, i - 1);
      RunBack(h0, h1, hdr, p, b, m);
      SameNext(h1, hdr, p, b, m);
      if PairsBut(h1, b) { MergedPairs(h1, hdr, ord1, segs, i - 1, b); }
    }

    /** The backward loop of `coalesce`. */
    method MergeBackward(b: nat, ghost i0: nat, ghost h0: Headers) returns (r: nat)
      requires i0 < |ord| && ord[i0] == b && ValidBut({b}) && Run(h0, hdr, b) && !Mergeable(hdr, b, hdr[b].next)
      modifies this`hdr, this`tail, this`ord, this`bins
      ensures ValidBut({r}) && Run(h0, hdr, r) && r <= b && End(hdr, r) == End(old(hdr), b)
      ensures !Mergeable(hdr, r, hdr[r].next) && !Mergeable(hdr, r, hdr[r].prev)
      ensures old(PairsBut(hdr, b)) ==> PairsBut(hdr, r)
    {
      r := b;
      ghost var i: nat := i0;
      while Mergeable(hdr, r, hdr[r].prev)
        invariant i < |ord| && ord[i] == r && ValidBut({r}) && Run(h0, hdr, r)
        invariant r <= b && End(hdr, r) == End(old(hdr), b) && !Mergeable(hdr, r, hdr[r].next)
        invariant old(PairsBut(hdr, b)) ==> PairsBut(hdr, r)
        decreases |ord|
      {
        r := TakePrev(r, i, h0);
        i := i - 1;
      }
    }

    /** `coalesce`: block `b`, off the bins, becomes part of the whole run of free blocks around it. */
    method Coalesce(b: nat, ghost i: nat) returns (r: nat)
      requires i < |ord| && ord[i] == b && ValidBut({b}) && b in hdr && hdr[b].free
      modifies this`hdr, this`tail, this`ord, this`bins
      ensures ValidBut({r}) && Run(old(hdr), hdr, r) && r <= b && End(old(hdr), b) <= End(hdr, r)
      ensures !Mergeable(hdr, r, hdr[r].next) && !Mergeable(hdr, r, hdr[r].prev)
      ensures old(PairsBut(hdr, b)) ==> NoPairs(hdr)
    {
      while Mergeable(hdr, b, hdr[b].next)
        invariant i < |ord| && ord[i] == b && ValidBut({b}) && Run(old(hdr), hdr, b)
        invariant old(PairsBut(hdr, b)) ==> PairsBut(hdr, b)
        decreases |ord|
      {
        TakeNext(b, i, old(hdr));
      }
      r := MergeBackward(b, i, old(hdr));
      if PairsBut(hdr, r) { NoPairLeft(hdr, ord, segs, r); }
    }

    /** The last segment is one free block, so that `heap_trim` gives it back. */
    predicate Trimmable()
      reads this
    {
      && |segs| > 0 && tail != 0 && tail in hdr && hdr[tail].free
      && End(hdr, tail) == SegEnd(segs[|segs| - 1]) && tail == segs[|segs| - 1].vaddr && hdr[tail].seg == |segs| - 1
    }

    /** One pass of the loop of `heap_trim`. */
    method TrimOne()
      requires Valid() && Trimmable()
      modifies this`hdr, this`head, this`tail, this`bins, this`segs, this`ord
      ensures Valid() && SameLive(old(hdr), hdr) && segs == old(segs)[..|old(segs)| - 1]
      ensures old(NoPairs(hdr)) ==> NoPairs(hdr)
    {
      LastPlace(hdr, ord, segs);
      BinRemove(tail, {});
      assert {} + {tail} == {tail};
      DropInv(hdr, bins, ord, segs);
      if NoPairs(hdr) { DropPairs(hdr, ord, segs); }
      var b := tail;
      var p := hdr[b].prev;
      hdr := Dropped(hdr, b);
      ord := ord[..|ord| - 1];
      if p != 0 { tail := p; } else { head := 0; tail := 0; }
      segs := segs[..|segs| - 1];
    }

    /** `heap_trim`: gives back last segments while they are wholly free. */
    method Trim()
      requires Valid()
      modifies this`hdr, this`head, this`tail, this`bins, this`segs, this`ord
      ensures Valid() && SameLive(old(hdr), hdr) && segs <= old(segs) && !LastFree(hdr, segs)
      ensures old(NoPairs(hdr)) ==> NoPairs(hdr)
    {
      while Trimmable()
        invariant Valid() && SameLive(old(hdr), hdr) && segs <= old(segs)
        invariant old(NoPairs(hdr)) ==> NoPairs(hdr)
        decreases |segs|
      {
        TrimOne();
      }
      LastIsTail(hdr, ord, segs, tail);
    }

    /** `heap_contains`. */
    method Contains(addr: nat) returns (r: bool)
      ensures r <==> exists i: nat :: i < |segs| && segs[i].vaddr <= addr < SegEnd(segs[i])
    {
      for i := 0 to |segs|
        invariant forall j: nat :: j < i ==> !(segs[j].vaddr <= addr < SegEnd(segs[j]))
      {
        if segs[i].vaddr <= addr < SegEnd(segs[i]) { return true; }
      }
      return false;
    }

    /** The part of `kfree_locked` after its checks. */
    method FreeBlock(b: nat)
      requires Valid() && b in hdr && !hdr[b].free
      modifies this`hdr, this`head, this`tail, this`bins, this`segs, this`ord
      ensures Valid() && LiveMinus(old(hdr), hdr, b) && segs <= old(segs) && !LastFree(hdr, segs)
      ensures old(NoPairs(hdr)) ==> NoPairs(hdr)
    {
      ghost var i: nat :| i < |ord| && ord[i] == b;
      FreeInv(hdr, bins, ord, segs, b);
      if NoPairs(hdr) { FreePairs(hdr, b); }
      hdr := Flagged(hdr, b, true);
      ghost var h1 := hdr;
      var r := Coalesce(b, i);
      RunLive(h1, hdr, r);
      assert {} + {r} == {r};
      BinInsert(r, {});
      Trim();
    }

    /** `kfree_locked`. `found` is what memory holds where the header should be, if that is no header of the list:
        nothing like one, or a header that was merged away, which is still marked free. */
    method Kfree(ptr: nat, found: Option<bool>) returns (r: FreeResult)
      requires Valid() && (ptr >= HDR && ptr - HDR !in hdr ==> found != Some(false))
      modifies this`hdr, this`head, this`tail, this`bins, this`segs, this`ord
      ensures Valid() && segs <= old(segs) && (old(NoPairs(hdr)) ==> NoPairs(hdr)) && (old(UsedLong(hdr)) ==> UsedLong(hdr))
      ensures r.Freed? <==> ptr >= HDR && ptr - HDR in old(hdr) && !old(hdr)[ptr - HDR].free
      ensures r.Freed? ==> LiveMinus(old(hdr), hdr, ptr - HDR)
      ensures r.Freed? ==> !LastFree(hdr, segs) && (NoPairs(hdr) && segs != [] ==> LastUsed(hdr, segs))
      ensures r.Outside? <==> ptr < HDR || forall i: nat :: i < |old(segs)| ==> !(old(segs)[i].vaddr <= ptr - HDR < SegEnd(old(segs)[i]))
      ensures ptr >= HDR && ptr - HDR in old(hdr) && old(hdr)[ptr - HDR].free ==> r.DoubleFree?
      ensures ptr >= HDR && ptr - HDR !in old(hdr) && !r.Outside? ==> r == if found.None? then NotBoundary else DoubleFree
      ensures !r.Freed? ==> hdr == old(hdr) && segs == old(segs)
    {
      if ptr < HDR { return Outside; }
      var b := ptr - HDR;
      InSegment(hdr, ord, segs, b);
      var inside := Contains(b);
      if !inside { return Outside; }
      if b !in hdr { return if found == None then NotBoundary else DoubleFree; }
      if hdr[b].free { return DoubleFree; }
      FreeBlock(b);
      if NoPairs(hdr) && segs != [] { LastHasUsed(hdr, ord, segs); }
      return Freed;
    }

    /** Makes a free block of what is behind the first `size` bytes of block `b`; both are off the bins then. */
    method Halve(b: nat, size: nat, ghost i: nat) returns (c: nat)
      requires i < |ord| && ord[i] == b && ValidBut({b}) && b in hdr && hdr[b].size > size + HDR
      modifies this`hdr, this`tail, this`ord
      ensures var h := old(hdr); (h[b].next != 0 ==> h[b].next in h) && hdr == Halved(h, b, size) && c == b + HDR + size
      ensures ValidBut({b, c}) && b != c && b in hdr && c in hdr && hdr[b].free == old(hdr)[b].free && hdr[c].free
      ensures if old(hdr)[b].free then SameLive(old(hdr), hdr) else Resized(old(hdr), hdr, b, size)
    {
      hdr, c, ord := WriteHalves(hdr, b, size, bins, ord, segs, i);
      if b == tail { tail := c; }
    }

    /** The same writes when 16 bytes are asked of a shorter block. */
    method WrapSplit(b: nat, wreck: Header)
      requires b in hdr && hdr[b].size < 16 && (hdr[b].next != 0 ==> hdr[b].next in hdr) && |bins| == BINS
      modifies this`hdr, this`tail, this`bins
      ensures hdr == Overrun(old(hdr), b, wreck) && bins == SplitBins(old(bins), b, old(hdr)[b].size, 16)
      ensures tail == if b == old(tail) then b + HDR + 16 else old(tail)
    {
      var c, k := b + HDR + 16, BinFor(Minus(hdr[b].size, 16) - HDR);
      hdr := Overrun(hdr, b, wreck);
      if b == tail { tail := c; }
      bins := bins[k := [c] + bins[k]];
    }

    /**
     `split_block` of a block that is off the bins: the rest becomes a free block if it holds more than
     a header. If the block is shorter than asked, the difference wraps.
     */
    method Split(b: nat, size: nat, wreck: Header, ghost i: nat)
      requires i < |ord| && ord[i] == b && ValidBut({b}) && b in hdr && (hdr[b].size >= size || size == 16)
      modifies this`hdr, this`tail, this`bins, this`ord
      ensures var h := old(hdr); (h[b].next != 0 ==> h[b].next in h) && hdr == SplitHeaders(h, b, size, wreck)
      ensures |old(bins)| == BINS && bins == SplitBins(old(bins), b, old(hdr)[b].size, size)
      ensures old(hdr)[b].size >= size ==> ValidBut({b}) && hdr[b].free == old(hdr)[b].free
      ensures old(hdr)[b].size >= size ==> if old(hdr)[b].free then SameLive(old(hdr), hdr) else Resized(old(hdr), hdr, b, hdr[b].size)
    {
      NextKnown(hdr, ord, segs, i);
      if Minus(hdr[b].size, size) <= HDR { return; }
      if hdr[b].size >= size {
        var c := Halve(b, size, i);
        assert {b} + {c} == {b, c};
        BinInsert(c, {b});
      } else {
        WrapSplit(b, wreck);
      }
    }

    /** Takes `size` bytes from the free block `b`. */
    method Take(b: nat, size: nat, wreck: Header)
      requires Valid() && b in hdr && hdr[b].free && (hdr[b].size >= size || size == 16)
      modifies this`hdr, this`tail, this`bins, this`ord
      ensures var h := old(hdr); (h[b].next != 0 ==> h[b].next in h) && hdr == Flagged(SplitHeaders(h, b, size, wreck), b, false)
      ensures |old(bins)| == BINS && bins == SplitBins(BinsWithout(old(bins), b, old(hdr)[b].size), b, old(hdr)[b].size, size)
      ensures old(hdr)[b].size > size + HDR ==> var c := b + HDR + size; c in hdr && hdr[c].size == old(hdr)[b].size - size - HDR
      ensures old(hdr)[b].size >= size ==> Valid() && size <= hdr[b].size <= size + HDR && LivePlus(old(hdr), hdr, b, hdr[b].size)
      ensures old(hdr)[b].size >= size && old(NoPairs(hdr)) ==> NoPairs(hdr)
      ensures old(hdr)[b].size < size ==> forall ord' :: !Tiled(hdr, ord', segs)
    {
      ghost var i: nat :| i < |ord| && ord[i] == b;
      ghost var ord0 := ord;
      BinRemove(b, {});
      assert {} + {b} == {b};
      Split(b, size, wreck, i);
      ghost var h1 := hdr;
      hdr := Flagged(hdr, b, false);
      TakenHeaders(old(hdr), ord0, segs, i, size, wreck, hdr);
      if old(hdr)[b].size >= size {
        UseInv(h1, bins, ord, segs, b);
        UseLive(old(hdr), h1, hdr, b, h1[b].size);
      }
    }

    /** `heap_grow`; `place` is the address of the pages that were found and mapped, if there were any. */
    method Grow(size: nat, place: Option<nat>) returns (ok: bool)
      requires Valid() && (place.Some? ==> place.value > 0 && Unused(segs, place.value, GrowBytes(size) / PAGE_SIZE))
      modifies this`hdr, this`head, this`tail, this`bins, this`segs, this`ord
      ensures Valid() && SameLive(old(hdr), hdr) && ok == (|old(segs)| < MAX_SEGMENTS && place.Some?)
      ensures old(NoPairs(hdr)) ==> NoPairs(hdr)
      ensures segs == if ok then old(segs) + [Segment(place.value, GrowBytes(size) / PAGE_SIZE)] else old(segs)
      ensures ok ==> place.value in hdr && hdr[place.value].free && hdr[place.value].size == GrowBytes(size) - HDR
      ensures !ok ==> bins == old(bins) && hdr == old(hdr)
      ensures ok ==> var k := BinFor(GrowBytes(size) - HDR); |old(bins)| == BINS && bins == old(bins)[k := [place.value] + old(bins)[k]]
    {
      if |segs| >= MAX_SEGMENTS || place == None { return false; }
      var v, pages := place.value, GrowBytes(size) / PAGE_SIZE;
      GrowInv(hdr, bins, ord, segs, v, pages, tail);
      GrowPages(size);
      if NoPairs(hdr) { GrowPairs(hdr, ord, segs, tail, v, pages); }
      hdr := Extended(hdr, tail, v, pages, |segs|);
      segs := segs + [Segment(v, pages)];
      ord := ord + [v];
      if tail == 0 { head := v; }
      tail := v;
      assert {} + {v} == {v};
      BinInsert(v, {});
      return true;
    }

    /** The first bin from `start` on that is not empty. */
    method FindBin(start: nat) returns (i: nat)
      requires |bins| == BINS
      ensures start <= i && (i < BINS ==> bins[i] != []) && forall j: nat :: start <= j < i && j < BINS ==> bins[j] == []
    {
      i := start;
      while i < BINS && bins[i] == []
        invariant start <= i && forall j: nat :: start <= j < i && j < BINS ==> bins[j] == []
      {
        i := i + 1;
      }
    }

    /** The search of `kmalloc_locked` through the bins. */
    method TakeFitting(size: nat, wreck: Header) returns (r: Option<nat>)
      requires Valid() && size > 0 && size % 16 == 0
      modifies this`hdr, this`tail, this`bins, this`ord
      ensures r.None? <==> NoneFrom(old(bins), StartBin(size))
      ensures r.None? ==> Valid() && hdr == old(hdr) && bins == old(bins) && tail == old(tail) && ord == old(ord)
      ensures r.Some? ==> IsFirst(old(bins), StartBin(size), r.value)
      ensures r.Some? ==> r.value in old(hdr) && Taken(old(hdr), old(bins), hdr, bins, r.value, size, wreck)
      ensures r.Some? && !ShortFirst(old(hdr), old(bins), size) ==>
        && Valid() && size <= hdr[r.value].size <= size + HDR && LivePlus(old(hdr), hdr, r.value, hdr[r.value].size)
        && (old(NoPairs(hdr)) ==> NoPairs(hdr))
      ensures ShortFirst(old(hdr), old(bins), size) ==> r == Some(old(bins)[4][0]) && forall ord' :: !Tiled(hdr, ord', segs)
    {
      var i := FindBin(StartBin(size));
      if i >= BINS { return None; }
      TakeFits(hdr, bins, size, i);
      var b := bins[i][0];
      Take(b, size, wreck);
      return Some(b);
    }

    /** Growing and searching in turn, once no bin that the request looks into has a block. */
    method GrowAndTake(size: nat, places: seq<nat>, wreck: Header) returns (r: Option<nat>)
      requires Valid() && size > 0 && size % 16 == 0 && NoneFrom(bins, StartBin(size)) && Offered(segs, places, GrowBytes(size) / PAGE_SIZE)
      modifies this`hdr, this`head, this`tail, this`bins, this`segs, this`ord
      ensures Valid() && (old(NoPairs(hdr)) ==> NoPairs(hdr))
      ensures r.None? <==> |old(segs)| >= MAX_SEGMENTS || places == [] || !Helps(size)
      ensures r.Some? ==> r.value in hdr && size <= hdr[r.value].size <= size + HDR && LivePlus(old(hdr), hdr, r.value, hdr[r.value].size)
      ensures r.None? ==> SameLive(old(hdr), hdr) && (|segs| >= MAX_SEGMENTS || |segs| == |old(segs)| + |places|)
      ensures r.None? ==> NoneFrom(bins, StartBin(size))
    {
      var n: nat := 0;
      while n < |places|
        invariant Valid() && SameLive(old(hdr), hdr) && NoneFrom(bins, StartBin(size)) && (old(NoPairs(hdr)) ==> NoPairs(hdr))
        invariant n <= |places| && |segs| == |old(segs)| + n && (n > 0 ==> |old(segs)| < MAX_SEGMENTS && !Helps(size))
        invariant Offered(segs, places[n..], GrowBytes(size) / PAGE_SIZE)
      {
        NextOffer(segs, places[n..], GrowBytes(size) / PAGE_SIZE);
        assert places[n..][0] == places[n] && places[n..][1..] == places[n + 1..];
        ghost var bins0 := bins;
        var ok := Grow(size, Some(places[n]));
        if !ok { return None; }
        ghost var h1 := hdr;
        AfterGrow(hdr, bins0, bins, size, places[n]);
        r := TakeFitting(size, wreck);
        if r.Some? {
          LiveTrans(old(hdr), h1, hdr, r.value);
          return;
        }
        n := n + 1;
      }
      return None;
    }

    /**
     `kmalloc_locked`; `places` are the addresses that growing finds, one after the other. It finds a block
     exactly when some bin from the first on has one, or growing helps and is possible. The list of blocks
     survives exactly when the request is not for 16 bytes with a shorter block first in its bin.
     */
    method KmallocLocked(size: nat, places: seq<nat>, wreck: Header) returns (r: Option<nat>)
      requires Valid() && size > 0 && size % 16 == 0 && Offered(segs, places, GrowBytes(size) / PAGE_SIZE)
      modifies this`hdr, this`head, this`tail, this`bins, this`segs, this`ord
      ensures r.None? <==> NoneFrom(old(bins), StartBin(size)) && (|old(segs)| >= MAX_SEGMENTS || places == [] || !Helps(size))
      ensures if ShortFirst(old(hdr), old(bins), size) then forall ord' :: !Tiled(hdr, ord', segs)
              else Valid() && (old(NoPairs(hdr)) ==> NoPairs(hdr))
      ensures r.Some? && !ShortFirst(old(hdr), old(bins), size) ==>
        && r.value >= HDR && r.value - HDR in hdr && size <= hdr[r.value - HDR].size <= size + HDR
        && LivePlus(old(hdr), hdr, r.value - HDR, hdr[r.value - HDR].size)
      ensures !NoneFrom(old(bins), StartBin(size)) ==>
        && r.Some? && r.value >= HDR && segs == old(segs) && IsFirst(old(bins), StartBin(size), r.value - HDR)
        && r.value - HDR in old(hdr) && Taken(old(hdr), old(bins), hdr, bins, r.value - HDR, size, wreck)
      ensures r.None? ==> SameLive(old(hdr), hdr) && (|segs| >= MAX_SEGMENTS || |segs| == |old(segs)| + |places|)
      ensures r.None? ==> forall b: nat :: b in hdr && hdr[b].free ==> BinFor(hdr[b].size) < StartBin(size)
    {
      var b := TakeFitting(size, wreck);
      if b.Some? { return Some(b.value + HDR); }
      b := GrowAndTake(size, places, wreck);
      if b.Some? { return Some(b.value + HDR); }
      forall x: nat | x in hdr && hdr[x].free ensures BinFor(hdr[x].size) < StartBin(size) {
        assert x in bins[BinFor(hdr[x].size)];
      }
      return None;
    }

    /** `kmalloc`: none for 0 bytes and for sizes that could wrap; else as for the size rounded up to 16. */
    method Kmalloc(size: nat, places: seq<nat>, wreck: Header) returns (r: Option<nat>)
      requires Valid() && Offered(segs, places, GrowBytes(Up16(size)) / PAGE_SIZE)
      modifies this`hdr, this`head, this`tail, this`bins, this`segs, this`ord
      ensures size == 0 || size > MAX_REQUEST ==> r.None? && Valid() && hdr == old(hdr) && bins == old(bins) && segs == old(segs)
      ensures 0 < size <= MAX_REQUEST ==>
        (r.None? <==> NoneFrom(old(bins), StartBin(Up16(size))) && (|old(segs)| >= MAX_SEGMENTS || places == [] || !Helps(Up16(size))))
      ensures 0 < size <= MAX_REQUEST && !ShortFirst(old(hdr), old(bins), Up16(size)) ==>
        && Valid() && (old(NoPairs(hdr)) ==> NoPairs(hdr)) && (old(UsedLong(hdr)) ==> UsedLong(hdr))
        && (r.None? ==> SameLive(old(hdr), hdr))
        && (r.Some? ==> r.value >= HDR && r.value - HDR in hdr && size <= hdr[r.value - HDR].size && LivePlus(old(hdr), hdr, r.value - HDR, hdr[r.value - HDR].size))
      ensures 0 < size <= MAX_REQUEST && ShortFirst(old(hdr), old(bins), Up16(size)) ==> forall ord' :: !Tiled(hdr, ord', segs)
    {
      if size == 0 || size > MAX_REQUEST { return None; }
      Rounded(size);
      r := KmallocLocked(Up16(size), places, wreck);
    }

    /** The shrinking part of `krealloc`: the end of the block becomes free, and is not merged with what follows. */
    method Shrink(b: nat, size: nat, wreck: Header)
      requires Valid() && b in hdr && !hdr[b].free && size <= hdr[b].size
      modifies this`hdr, this`tail, this`bins, this`ord
      ensures Valid() && b in hdr && hdr[b].size == if old(hdr)[b].size - size <= HDR then old(hdr)[b].size else size
      ensures Resized(old(hdr), hdr, b, hdr[b].size)
      ensures old(NoPairs(hdr)) ==>
        (NoPairs(hdr) <==> old(hdr)[b].size - size <= HDR || !Mergeable(old(hdr), b, old(hdr)[b].next))
    {
      ghost var i: nat :| i < |ord| && ord[i] == b;
      ghost var ord0 := ord;
      UsedOff(hdr, bins, b);
      Split(b, size, wreck, i);
      UsedOff(hdr, bins, b);
      if old(NoPairs(hdr)) && old(hdr)[b].size - size > HDR { ShrinkPairs(old(hdr), ord0, segs, i, size); }
    }

    /** The moving part of `krealloc`. */
    method Move(b: nat, size: nat, places: seq<nat>, wreck: Header) returns (r: Option<nat>)
      requires Valid() && b in hdr && !hdr[b].free && size > 0 && size % 16 == 0 && !ShortFirst(hdr, bins, size)
      requires Offered(segs, places, GrowBytes(size) / PAGE_SIZE)
      modifies this`hdr, this`head, this`tail, this`bins, this`segs, this`ord
      ensures Valid() && (old(NoPairs(hdr)) ==> NoPairs(hdr))
      ensures r.None? <==> NoneFrom(old(bins), StartBin(size)) && (|old(segs)| >= MAX_SEGMENTS || places == [] || !Helps(size))
      ensures r.None? ==> SameLive(old(hdr), hdr)
      ensures r.Some? ==>
        var a := r.value - HDR; r.value >= HDR && a in hdr && size <= hdr[a].size <= size + HDR && Moved(old(hdr), hdr, b, a, hdr[a].size)
    {
      ghost var h, m := hdr, hdr[b].size;
      assert Live(h, b, m);
      r := KmallocLocked(size, places, wreck);
      if r == None { return; }
      ghost var h1, a := hdr, r.value - HDR;
      assert Live(h1, b, m);
      FreeBlock(b);
      MoveLive(h, h1, hdr, b, a, h1[a].size, m);
      assert Live(hdr, a, h1[a].size);
    }

    /** `krealloc` of a pointer that is not null to a size that is not 0. */
    method Krealloc(ptr: nat, size: nat, places: seq<nat>, wreck: Header) returns (r: Option<nat>)
      requires Valid() && UsedLong(hdr) && ptr >= HDR && size > 0 && Offered(segs, places, GrowBytes(Up16(size)) / PAGE_SIZE)
      modifies this`hdr, this`head, this`tail, this`bins, this`segs, this`ord
      ensures Valid() && UsedLong(hdr)
      ensures size > MAX_REQUEST || ptr - HDR !in old(hdr) || old(hdr)[ptr - HDR].free ==> r.None? && hdr == old(hdr)
      ensures size <= MAX_REQUEST && ptr - HDR in old(hdr) && !old(hdr)[ptr - HDR].free ==>
        var b, n := ptr - HDR, Up16(size);
        if old(hdr)[b].size >= n then
          && r == Some(ptr) && b in hdr && n <= hdr[b].size && Resized(old(hdr), hdr, b, hdr[b].size)
          && (old(NoPairs(hdr)) ==> (NoPairs(hdr) <==> old(hdr)[b].size - n <= HDR || !Mergeable(old(hdr), b, old(hdr)[b].next)))
        else
          && (old(NoPairs(hdr)) ==> NoPairs(hdr))
          && (r.None? <==> NoneFrom(old(bins), StartBin(n)) && (|old(segs)| >= MAX_SEGMENTS || places == [] || !Helps(n)))
          && (r.None? ==> SameLive(old(hdr), hdr))
          && (r.Some? ==> var a := r.value - HDR; r.value >= HDR && a in hdr && n <= hdr[a].size <= n + HDR && Moved(old(hdr), hdr, b, a, hdr[a].size))
    {
      if size > MAX_REQUEST { return None; }
      var b := ptr - HDR;
      if b !in hdr || hdr[b].free { return None; }
      Rounded(size);
      var n := Up16(size);
      assert Live(hdr, b, hdr[b].size);
      if hdr[b].size >= n {
        Shrink(b, n, wreck);
        return Some(ptr);
      }
      r := Move(b, n, places, wreck);
    }
  }

  /** With one block in the bins, that block is taken. */
  lemma OneBlock(bins: seq<seq<nat>>, k: nat, v: nat, start: nat, b: nat)
    requires k < BINS && bins == NoBlocks()[k := [v]] && start <= k
    ensures !NoneFrom(bins, start) && (IsFirst(bins, start, b) ==> b == v)
  {
    assert bins[k] == [v];
  }

  /** What one request makes of the bins when the only free block is `v`, of `had` bytes. */
  lemma NextBlock(bins: seq<seq<nat>>, v: nat, had: nat, size: nat)
    requires bins == NoBlocks()[BinFor(had) := [v]] && had > size + HDR
    ensures SplitBins(BinsWithout(bins, v, had), v, had, size) == NoBlocks()[BinFor(had - size - HDR) := [v + HDR + size]]
  {
    assert Remove([v], v) == [];
    assert BinsWithout(bins, v, had) == NoBlocks();
    assert [v + HDR + size] + [] == [v + HDR + size];
  }

  /** `heap_init`: one free block of 32 pages. */
  method HeapInit(v: nat) returns (a: Allocator)
    requires v > 0
    ensures fresh(a) && a.Valid() && NoPairs(a.hdr) && v in a.hdr && a.hdr[v].size == 131072 - HDR
    ensures a.bins == NoBlocks()[16 := [v]] && BinFor(131072 - HDR) == 16 && forall x: nat, n: nat :: !Live(a.hdr, x, n)
  {
    a := new Allocator();
    ghost var h0 := a.hdr;
    var ok := a.Grow(4 * PAGE_SIZE - HDR, Some(v));
    BinSixteen(131072 - HDR);
    assert [v] + [] == [v];
    forall x: nat, n: nat ensures !Live(a.hdr, x, n) { assert !Live(h0, x, n); }
  }

  /** Two requests after `heap_init` lead to a block of 8 bytes as the first of bin 4. */
  method ReachShort(v: nat, wreck: Header) returns (a: Allocator)
    requires v > 0
    ensures fresh(a) && a.Valid() && ShortFirst(a.hdr, a.bins, 16)
  {
    a := HeapInit(v);
    var r := RequestOne(a, v, 131072 - HDR, 65424, wreck);
    r := RequestOne(a, r, 65536, 65472, wreck);
    BinFive(8);
  }

  /** A request served from the only free block leaves its rest as the only one. */
  method RequestOne(a: Allocator, v: nat, had: nat, size: nat, wreck: Header) returns (c: nat)
    requires a.Valid() && a.bins == NoBlocks()[BinFor(had) := [v]] && v in a.hdr && a.hdr[v].size == had
    requires 65536 <= had < 131072 && 32768 < size <= 65536 && size % 16 == 0 && had > size + HDR
    modifies a
    ensures a.Valid() && c in a.hdr && a.hdr[c].size == had - size - HDR && a.bins == NoBlocks()[BinFor(had - size - HDR) := [c]]
  {
    BinSixteen(had);
    StartSixteen(size);
    OneBlock(a.bins, 16, v, 16, v);
    ghost var bins := a.bins;
    var r := a.KmallocLocked(size, [], wreck);
    OneBlock(bins, 16, v, 16, r.value - HDR);
    NextBlock(bins, v, had, size);
    c := v + HDR + size;
  }

  lemma StartSixteen(size: nat)
    requires 32768 < size <= 65536
    ensures StartBin(size) == 16
  {
    var e: nat := 16;
    Powers(e);
    BitLenIs(size - 1, e);
  }

  /** A request cut from the front of a free block is followed by the rest of it. */
  lemma CutFront(h: Headers, bins: seq<seq<nat>>, h': Headers, bins': seq<seq<nat>>, b: nat, size: nat, wreck: Header)
    requires b in h && Taken(h, bins, h', bins', b, size, wreck) && h[b].size > size + HDR
    ensures b in h' && !h'[b].free && h'[b].size == size && Mergeable(h', b, h'[b].next)
  {
  }

  /** 1000 bytes from a fresh heap: the block is followed by the free rest. */
  method OneUsed(v: nat, wreck: Header) returns (a: Allocator)
    requires v > 0
    ensures fresh(a) && a.Valid() && NoPairs(a.hdr) && UsedLong(a.hdr)
    ensures v in a.hdr && !a.hdr[v].free && a.hdr[v].size == 1008 && Mergeable(a.hdr, v, a.hdr[v].next)
  {
    a := HeapInit(v);
    StartTen(10);
    OneBlock(a.bins, 16, v, 10, v);
    ghost var h, bins := a.hdr, a.bins;
    var p := a.KmallocLocked(1008, [], wreck);
    OneBlock(bins, 16, v, 10, p.value - HDR);
    CutFront(h, bins, a.hdr, a.bins, v, 1008, wreck);
  }

  /** A block shrunk in front of a free one leaves two free neighbours: 1000 bytes, then 32. */
  method ReachPair(v: nat, wreck: Header) returns (a: Allocator)
    requires v > 0
    ensures fresh(a) && a.Valid() && !NoPairs(a.hdr)
  {
    a := OneUsed(v, wreck);
    var p := a.Krealloc(v + HDR, 32, [], wreck);
  }

  lemma StartTen(e: nat)
    requires e == 10
    ensures Up16(1000) == 1008 && StartBin(1008) == e
  {
    assert Pow2(e) == 1024;
    BitLenIs(1007, e);
  }
}
