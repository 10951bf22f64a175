/** The geometry of slabs, and which object is where. */
module SlabSpace {
  import opened Blocks
  import opened Buddy
  import opened Counting
  import opened Options
  import opened Pmm

  /** Objects of `size` bytes start at `off` in a slab of `2^shift` bytes that holds `objs` of them. */
  datatype Geo = Geo(size: nat, off: nat, objs: nat, shift: nat)

  predicate GeoOk(g: Geo) {
    g.size > 0 && g.off + g.objs * g.size <= Pow2(g.shift)
  }

  function Obj(g: Geo, b: nat, i: nat): nat {
    b + g.off + i * g.size
  }

  ghost predicate IsObj(g: Geo, b: nat, o: nat) {
    exists i: nat :: i < g.objs && o == Obj(g, b, i)
  }

  /** `slab_of`: masks off the low bits of the address. */
  function SlabOf(g: Geo, o: nat): nat {
    Base(o, g.shift)
  }

  lemma ObjInside(g: Geo, b: nat, o: nat)
    requires GeoOk(g) && IsObj(g, b, o)
    ensures InBlock(o, b, g.shift)
  {
    var i: nat :| i < g.objs && o == Obj(g, b, i);
    MulLess(i, g.objs, g.size);
  }

  /** Natural alignment leads from an object back to its slab. */
  lemma SlabOfObj(g: Geo, b: nat, o: nat)
    requires GeoOk(g) && Aligned(b, g.shift) && IsObj(g, b, o)
    ensures SlabOf(g, o) == b
  {
    ObjInside(g, b, o);
    InBlockIsIdx(o, b, g.shift);
  }

  lemma {:induction false} IdxDouble(x: nat, o: nat)
    ensures Idx(2 * x, o + 1) == Idx(x, o)
  {
    if o > 0 { IdxDouble(x, o - 1); }
  }

  lemma AlignedDouble(x: nat, o: nat)
    requires Aligned(x, o)
    ensures Aligned(2 * x, o + 1)
  {
    IdxDouble(x, o);
    var q := Idx(x, o);
    assert q * (2 * Pow2(o)) == 2 * (q * Pow2(o));
  }

  lemma {:induction false} AlignedBytes(x: nat, o: nat, s: nat)
    requires Aligned(x, o)
    ensures Aligned(x * Pow2(s), o + s)
  {
    if s > 0 {
      AlignedBytes(x, o, s - 1);
      AlignedDouble(x * Pow2(s - 1), o + s - 1);
      assert 2 * (x * Pow2(s - 1)) == x * (2 * Pow2(s - 1));
    }
  }

  lemma OrderExact(k: nat, o: nat)
    requires Pow2(k) <= Pow2(o) && (o > 0 ==> Pow2(o - 1) < Pow2(k))
    ensures o == k
  {
    if o < k { Pow2Mono(o, k); }
    if k < o { Pow2Mono(k, o - 1); }
  }

  lemma OrderOfPow2(k: nat, pages: nat)
    requires pages == Pow2(k)
    ensures OrderForPages(pages) == k
  {
    var o := OrderForPages(pages);
    assert pages <= Pow2(o) && (o > 0 ==> Pow2(o - 1) < pages);
    OrderExact(k, o);
  }

  /** All objects of the slab at `b`, in the order the free list of a new slab has them. */
  ghost function AllObjs(g: Geo, b: nat, n: nat): (r: seq<nat>)
    ensures |r| == n && forall i: nat :: i < n ==> r[n - 1 - i] == Obj(g, b, i)
  {
    if n == 0 then [] else [Obj(g, b, n - 1)] + AllObjs(g, b, n - 1)
  }

  lemma AllObjsDistinct(g: Geo, b: nat, n: nat)
    requires g.size > 0
    ensures Distinct(AllObjs(g, b, n))
  {
    var r := AllObjs(g, b, n);
    forall i, j | 0 <= i < j < n ensures r[i] != r[j] {
      MulLess(n - 1 - j, n - 1 - i, g.size);
      assert r[n - 1 - (n - 1 - i)] == Obj(g, b, n - 1 - i) && r[n - 1 - (n - 1 - j)] == Obj(g, b, n - 1 - j);
    }
  }

  ghost function Elems(s: seq<nat>): set<nat> {
    set x | x in s
  }

  lemma {:induction false} ElemsCard(s: seq<nat>)
    ensures |Elems(s)| <= |s|
  {
    if s == [] {
      assert Elems(s) == {};
    } else {
      ElemsCard(s[1..]);
      assert Elems(s) == Elems(s[1..]) + {s[0]};
    }
  }

  /** A free list as long as the slab has objects holds them all. */
  lemma AllFreeObjs(g: Geo, b: nat, fl: seq<nat>, o: nat)
    requires Distinct(fl) && |fl| == g.objs && (forall k :: 0 <= k < |fl| ==> IsObj(g, b, fl[k])) && IsObj(g, b, o)
    ensures o in fl
  {
    var all := AllObjs(g, b, g.objs);
    forall x: nat | IsObj(g, b, x) ensures x in all {
      var i: nat :| i < g.objs && x == Obj(g, b, i);
      assert all[g.objs - 1 - i] == x;
    }
    ElemsCard(all);
    if o !in fl {
      Pigeonhole(fl + [o], Elems(all));
    }
  }

  /** The slabs with a new one, if there is one. */
  ghost function Plus(slabs: set<nat>, block: Option<nat>): set<nat> {
    if block.Some? then slabs + {block.value} else slabs
  }

  /** The slab at byte address `b` is a live block of `2^o` pages. */
  ghost predicate Backed(st: seq<nat>, o: nat, b: nat) {
    b % PAGE_SIZE == 0 && Live(st, b / PAGE_SIZE, o)
  }

  ghost predicate AllBacked(st: seq<nat>, o: nat, slabs: set<nat>) {
    forall b: nat :: b in slabs ==> Backed(st, o, b)
  }

  /** The pages of the slabs. */
  ghost function PagesOf(slabs: set<nat>, o: nat): set<nat> {
    set b: nat, x: nat | b in slabs && x in Range(b / PAGE_SIZE, Pow2(o)) :: x
  }

  /** A block just allocated is none of the slabs, and the slabs stay live. */
  lemma BlockFresh(st: seq<nat>, st': seq<nat>, page: nat, o: nat, slabs: set<nat>)
    requires Took(st, st', page, o) && AllBacked(st, o, slabs)
    ensures page * PAGE_SIZE !in slabs && AllBacked(st', o, slabs + {page * PAGE_SIZE})
    ensures Took(st, st', page * PAGE_SIZE / PAGE_SIZE, o)
  {
    assert page * PAGE_SIZE / PAGE_SIZE == page;
    assert InBlock(page, page, o);
    forall b: nat | b in slabs ensures Backed(st', o, b) && b != page * PAGE_SIZE { assert Backed(st, o, b) && !Avail(st, b / PAGE_SIZE); }
  }

  lemma KeptBacked(st: seq<nat>, st': seq<nat>, o: nat, slabs: set<nat>)
    requires Kept(st, st') && AllBacked(st, o, slabs)
    ensures AllBacked(st', o, slabs)
  {
    forall b: nat | b in slabs ensures Backed(st', o, b) { assert Backed(st, o, b) && !Avail(st, b / PAGE_SIZE); }
  }

  /** Available pages and slab pages together stay the same when a block becomes a slab. */
  lemma PagesTaken(st: seq<nat>, st': seq<nat>, page: nat, o: nat, slabs: set<nat>)
    requires Took(st, st', page, o)
    ensures AvailSet(st') + PagesOf(slabs + {page * PAGE_SIZE}, o) == AvailSet(st) + PagesOf(slabs, o)
  {
    var b := page * PAGE_SIZE;
    PagesAdd(slabs, b, o);
    var r := Range(page, Pow2(o));
    forall x: nat | x in r ensures x in AvailSet(st) { assert InBlock(x, page, o) && Avail(st, x); }
  }

  lemma PagesAdd(slabs: set<nat>, b: nat, o: nat)
    ensures PagesOf(slabs + {b}, o) == PagesOf(slabs, o) + Range(b / PAGE_SIZE, Pow2(o))
  {
  }

  /** Giving a slab's block back leaves the other slabs live, and the same pages available or in slabs. */
  lemma BlockGiven(st: seq<nat>, lists: Lists, caches: Caches, st': seq<nat>, b: nat, o: nat, slabs: set<nat>)
    requires PmmInv(st, lists, caches) && b in slabs && AllBacked(st, o, slabs) && Gave(st, st', b / PAGE_SIZE, o)
    ensures AllBacked(st', o, slabs - {b})
    ensures AvailSet(st') + PagesOf(slabs - {b}, o) == AvailSet(st) + PagesOf(slabs, o)
  {
    var p := b / PAGE_SIZE;
    assert Backed(st, o, b);
    forall c: nat | c in slabs - {b} ensures Backed(st', o, c) {
      assert Backed(st, o, c);
      var q := c / PAGE_SIZE;
      LiveDisjoint(st, lists, caches, p, o, q, o);
      assert !Avail(st, q) && q !in Range(p, Pow2(o)) && q !in AvailSet(st');
    }
    PagesAdd(slabs - {b}, b, o);
    assert slabs - {b} + {b} == slabs;
  }

  /** No page is reserved or released from being reserved. */
  ghost predicate SameReserved(st: seq<nat>, st': seq<nat>) {
    |st| == |st'| && forall x: nat :: x < |st| ==> (st[x] == RESERVED <==> st'[x] == RESERVED)
  }

  lemma StillIn(st: seq<nat>, st': seq<nat>, regions: seq<(nat, nat)>)
    requires SameReserved(st, st')
    ensures AllIn(st, regions) ==> AllIn(st', regions)
  {
  }

  lemma TookReserved(st: seq<nat>, st': seq<nat>, page: nat, o: nat)
    requires Took(st, st', page, o)
    ensures SameReserved(st, st')
  {
    forall x: nat | x < |st| ensures st[x] == RESERVED <==> st'[x] == RESERVED {
      if Avail(st, x) && !InBlock(x, page, o) { assert x in AvailSet(st) && x in AvailSet(st'); }
    }
  }

  lemma KeptReserved(st: seq<nat>, st': seq<nat>)
    requires Kept(st, st') && AvailSet(st') == AvailSet(st)
    ensures SameReserved(st, st')
  {
    forall x: nat | x < |st| ensures st[x] == RESERVED <==> st'[x] == RESERVED {
      if Avail(st, x) { assert x in AvailSet(st) && x in AvailSet(st'); }
    }
  }

  lemma GaveReserved(st: seq<nat>, lists: Lists, caches: Caches, st': seq<nat>, p: nat, o: nat)
    requires PmmInv(st, lists, caches) && Gave(st, st', p, o)
    ensures SameReserved(st, st')
  {
    LivePages(st, lists, caches, p, o);
    forall x: nat | x < |st| ensures st[x] == RESERVED <==> st'[x] == RESERVED {
      if Avail(st', x) {
        assert x in AvailSet(st');
        assert InBlock(x, p, o) || x in AvailSet(st);
      }
    }
  }

  const PAGE_SHIFT: nat := 12

  /** A block of pages from the page allocator is aligned to its size in bytes. */
  lemma BlockAligned(st: seq<nat>, page: nat, o: nat)
    requires Live(st, page, o)
    ensures Aligned(page * PAGE_SIZE, o + PAGE_SHIFT)
  {
    AlignedBytes(page, o, PAGE_SHIFT);
    assert Pow2(PAGE_SHIFT) == PAGE_SIZE;
  }

  /** A block becomes a slab. */
  lemma TakeStep(st: seq<nat>, st': seq<nat>, page: nat, b: nat, o: nat, shift: nat, slabs: set<nat>, regions: seq<(nat, nat)>)
    requires Took(st, st', page, o) && AllBacked(st, o, slabs) && b == page * PAGE_SIZE && shift == o + PAGE_SHIFT
    ensures b !in slabs && AllBacked(st', o, slabs + {b}) && Aligned(b, shift) && Took(st, st', b / PAGE_SIZE, o)
    ensures AvailSet(st') + PagesOf(slabs + {b}, o) == AvailSet(st) + PagesOf(slabs, o)
    ensures AllIn(st, regions) ==> AllIn(st', regions)
  {
    TookReserved(st, st', page, o);
    StillIn(st, st', regions);
    BlockFresh(st, st', page, o, slabs);
    BlockAligned(st', page, o);
    PagesTaken(st, st', page, o, slabs);
  }

  /** Without a block nothing changes hands. */
  lemma KeepStep(st: seq<nat>, st': seq<nat>, o: nat, slabs: set<nat>, regions: seq<(nat, nat)>)
    requires Kept(st, st') && AvailSet(st') == AvailSet(st) && AllBacked(st, o, slabs)
    ensures AllBacked(st', o, slabs) && (AllIn(st, regions) ==> AllIn(st', regions))
  {
    KeptBacked(st, st', o, slabs);
    KeptReserved(st, st');
    StillIn(st, st', regions);
  }
}
