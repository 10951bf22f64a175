/** The sizing of slabs in `kmem_cache_create`, in 64-bit arithmetic. */
module SlabPlan {
  import opened Bits
  import opened Blocks
  import opened SlabSpace

  const HEADER: nat := 40
  const MAX_SHIFT: nat := 16

  /** Sums of two 64-bit numbers wrap. */
  function Wrap(x: nat): nat {
    if x < WORD then x else x - WORD
  }

  /** `(x + a - 1) & ~(a - 1)` */
  function RoundUp(x: nat, a: nat): (r: nat)
    requires 1 <= a < WORD && x < WORD
    ensures r < WORD
  {
    AndBelow(Wrap(x + a - 1), WORD - a);
    And(Wrap(x + a - 1), WORD - a)
  }

  function AlignOf(align: nat): nat {
    if align < 16 then 16 else align
  }

  function ObjSize(size: nat, a: nat): (r: nat)
    requires 1 <= a < WORD && size < WORD
    ensures r >= 8
  {
    var r := RoundUp(size, a);
    if r < 8 then 8 else r
  }

  function Bytes(k: nat): nat {
    Pow2(k + PAGE_SHIFT)
  }

  /** How many objects fit a slab of `2^k` pages. */
  function Count(obj: nat, over: nat, k: nat): nat
    requires obj > 0
  {
    if Bytes(k) > over then (Bytes(k) - over) / obj else 0
  }

  predicate Enough(obj: nat, over: nat, k: nat)
    requires obj > 0
  {
    Count(obj, over, k) >= 8 || (Count(obj, over, k) >= 1 && k >= 6)
  }

  /** The number of pages settled on, as a power of two. */
  function Settle(obj: nat, over: nat, k: nat): (r: nat)
    requires obj > 0 && k <= MAX_SHIFT
    ensures k <= r <= MAX_SHIFT
    decreases MAX_SHIFT - k
  {
    if k == MAX_SHIFT || Enough(obj, over, k) then k else Settle(obj, over, k + 1)
  }

  /** `(uint32_t)((bytes - overhead) / obj)` */
  function Objects(obj: nat, over: nat, k: nat): nat
    requires obj > 0 && over < WORD
  {
    var space := if Bytes(k) >= over then Bytes(k) - over else Bytes(k) + WORD - over;
    space / obj % 0x1_0000_0000
  }

  /** The layout that `kmem_cache_create` works out; it gives up if no object fits. */
  function Layout(size: nat, align: nat): Geo
    requires size < WORD && align < WORD
  {
    var a := AlignOf(align);
    var obj, over := ObjSize(size, a), RoundUp(HEADER, a);
    var k := Settle(obj, over, 0);
    Geo(obj, over, Objects(obj, over, k), k + PAGE_SHIFT)
  }

  /** The sizing part of `kmem_cache_create`. */
  method Plan(size: nat, align: nat) returns (g: Geo, ok: bool)
    requires size < WORD && align < WORD
    ensures ok <==> size != 0 && Layout(size, align).objs > 0
    ensures ok ==> g == Layout(size, align)
  {
    if size == 0 { return Geo(1, 0, 0, 0), false; }
    var a := AlignOf(align);
    var obj := ObjSize(size, a);
    var over := RoundUp(HEADER, a);
    var k := 0;
    while true
      invariant k <= MAX_SHIFT && Settle(obj, over, 0) == Settle(obj, over, k)
      decreases MAX_SHIFT - k
    {
      if Enough(obj, over, k) { break; }
      if k == MAX_SHIFT { break; }
      k := k + 1;
    }
    g := Geo(obj, over, Objects(obj, over, k), k + PAGE_SHIFT);
    ok := g.objs > 0;
  }

  /** Rounding up gives at least the number, unless the sum wraps. */
  lemma RoundUpBounds(x: nat, a: nat)
    requires 1 <= a < WORD && x < WORD
    ensures x + a - 1 < WORD ==> x <= RoundUp(x, a) < x + a
    ensures x + a - 1 >= WORD ==> RoundUp(x, a) < x
  {
    var n: nat := 64;
    WordPower(n);
    var y := Wrap(x + a - 1);
    AndSplit(y, a - 1, n);
    AndBelow(y, a - 1);
    AndBelow(y, WORD - a);
  }

  lemma {:induction false} AndAligned(x: nat, q: nat, j: nat)
    ensures Aligned(And(x, q * Pow2(j)), j)
  {
    if j > 0 {
      var z := q * Pow2(j - 1);
      assert q * Pow2(j) == 2 * z;
      AndAligned(x / 2, q, j - 1);
      AlignedDouble(And(x / 2, z), j - 1);
      assert And(x, 2 * z) == 2 * And(x / 2, z);
    } else {
      assert Idx(And(x, q * Pow2(j)), 0) == And(x, q * Pow2(j));
    }
  }

  lemma OneLess(m: nat, h: nat)
    requires m > 0
    ensures (m - 1) * h == m * h - h
  {
  }

  lemma ComplementMultiple(j: nat) returns (q: nat)
    requires j < 64
    ensures Pow2(j) < WORD && WORD - Pow2(j) == q * Pow2(j)
  {
    var n: nat := 64;
    WordPower(n);
    Pow2Mono(j, n);
    Pow2Add(n - j, j);
    var m, h := Pow2(n - j), Pow2(j);
    q := m - 1;
    OneLess(m, h);
  }

  /** For a power of two, rounding up gives a multiple. */
  lemma RoundUpAligned(x: nat, j: nat)
    requires j < 64 && x < WORD
    ensures Pow2(j) < WORD && Aligned(RoundUp(x, Pow2(j)), j)
  {
    var q := ComplementMultiple(j);
    AndAligned(Wrap(x + Pow2(j) - 1), q, j);
  }

  /** No sum wraps, and the largest slab has room behind its header. */
  predicate Fitting(size: nat, align: nat)
    requires size < WORD && align < WORD
  {
    var a := AlignOf(align);
    size + a - 1 < WORD && HEADER + a - 1 < WORD && RoundUp(HEADER, a) < Bytes(MAX_SHIFT)
  }

  /** Objects are as large as asked, lie behind the header and inside the slab. */
  predicate Sound(g: Geo, size: nat) {
    GeoOk(g) && size <= g.size && HEADER <= g.off
  }

  lemma BytesLeast(k: nat)
    requires k <= MAX_SHIFT
    ensures Bytes(k) <= Bytes(MAX_SHIFT) == 0x1000_0000
  {
    Pow2Mono(k + PAGE_SHIFT, MAX_SHIFT + PAGE_SHIFT);
    Pow2Add(14, 14);
    Pow2Add(7, 7);
    assert Pow2(7) == 128;
  }

  lemma DivMul(x: nat, a: nat)
    requires a > 0
    ensures x / a * a <= x < x / a * a + a
  {
  }

  /** Without a wrap the number of objects is the number that fits. */
  lemma ObjectsFit(obj: nat, over: nat, k: nat)
    requires obj > 0 && over < Bytes(MAX_SHIFT) && over < WORD && k <= MAX_SHIFT && (Enough(obj, over, k) || k == MAX_SHIFT)
    ensures Objects(obj, over, k) == Count(obj, over, k)
    ensures over + Count(obj, over, k) * obj <= Bytes(k) < over + (Count(obj, over, k) + 1) * obj
  {
    BytesLeast(k);
    DivMul(Bytes(k) - over, obj);
    var c := Count(obj, over, k);
    if c > Bytes(k) { MulLess(Bytes(k), c, obj); MulLess(0, obj, Bytes(k)); }
  }

  lemma {:induction false} Settled(obj: nat, over: nat, k: nat)
    requires obj > 0 && k <= MAX_SHIFT
    ensures var r := Settle(obj, over, k);
      (r == MAX_SHIFT || Enough(obj, over, r)) && forall j: nat :: k <= j < r ==> !Enough(obj, over, j)
    decreases MAX_SHIFT - k
  {
    if k != MAX_SHIFT && !Enough(obj, over, k) { Settled(obj, over, k + 1); }
  }

  /** Slabs of `2^k` pages are good enough: they hold 8 objects, or one if they have 64 pages or more. */
  predicate Roomy(obj: nat, over: nat, k: nat) {
    over + 8 * obj <= Pow2(k + 12) || (k >= 6 && over + obj <= Pow2(k + 12))
  }

  lemma EnoughRoom(obj: nat, over: nat, k: nat)
    requires obj > 0
    ensures Enough(obj, over, k) <==> Roomy(obj, over, k)
  {
    if Bytes(k) > over {
      Quotient(Bytes(k) - over, obj, 8);
      Quotient(Bytes(k) - over, obj, 1);
    }
  }

  lemma Quotient(x: nat, d: nat, n: nat)
    requires d > 0
    ensures x / d >= n <==> x >= n * d
  {
    var q, r := x / d, x % d;
    assert x == q * d + r;
    if q >= n { assert q * d >= n * d; } else { assert (q + 1) * d <= n * d; }
  }

  /** A slab has the fewest pages, as a power of two, that are good enough, but at most 65536. */
  lemma FewestPages(size: nat, align: nat)
    requires size < WORD && align < WORD
    ensures var g := Layout(size, align);
      && 12 <= g.shift <= 28 && (g.shift == 28 || Roomy(g.size, g.off, g.shift - 12))
      && forall j: nat :: j + 12 < g.shift ==> !Roomy(g.size, g.off, j)
  {
    var g := Layout(size, align);
    Settled(g.size, g.off, 0);
    forall j: nat ensures Enough(g.size, g.off, j) <==> Roomy(g.size, g.off, j) { EnoughRoom(g.size, g.off, j); }
  }

  /** The layout is sound exactly when nothing wraps and the header leaves room. */
  lemma LayoutExact(size: nat, align: nat)
    requires size < WORD && align < WORD && Layout(size, align).objs > 0
    ensures Sound(Layout(size, align), size) <==> Fitting(size, align)
  {
    var a, g := AlignOf(align), Layout(size, align);
    var k := Settle(g.size, g.off, 0);
    RoundUpBounds(size, a);
    RoundUpBounds(HEADER, a);
    Settled(g.size, g.off, 0);
    BytesLeast(k);
    if Fitting(size, align) {
      ObjectsFit(g.size, g.off, k);
    } else if HEADER + a - 1 < WORD && size + a - 1 < WORD {
      NoRoom(g.size, g.off, k);
    }
  }

  /** Then nothing is wasted but the padding, and as many objects are laid out as the slab holds. */
  lemma LayoutTight(size: nat, align: nat)
    requires 0 < size < WORD && align < WORD && Fitting(size, align)
    ensures var g := Layout(size, align); var pad := if align < 16 then 16 else align; g.size < size + pad && g.off < HEADER + pad
    ensures var g := Layout(size, align); g.off + g.objs * g.size <= Pow2(g.shift) < g.off + (g.objs + 1) * g.size
  {
    var a, g := AlignOf(align), Layout(size, align);
    RoundUpBounds(size, a);
    RoundUpBounds(HEADER, a);
    Settled(g.size, g.off, 0);
    ObjectsFit(g.size, g.off, Settle(g.size, g.off, 0));
  }

  /** A header that fills the largest slab leaves an unsound layout, if any. */
  lemma NoRoom(obj: nat, over: nat, k: nat)
    requires obj > 0 && Bytes(MAX_SHIFT) <= over < WORD && k <= MAX_SHIFT && Objects(obj, over, k) > 0
    ensures over + Objects(obj, over, k) * obj > Bytes(k)
  {
    BytesLeast(k);
    MulLess(0, Objects(obj, over, k), obj);
  }

  /** For an alignment that is a power of two, with those below 16 counted as 16, the first object and the object size are multiples of it. */
  lemma LayoutAligned(size: nat, align: nat, j: nat)
    requires 4 <= j < 64 && size < WORD && (align == Pow2(j) < WORD || (align < 16 && j == 4)) && Fitting(size, align) && size > 0
    ensures Aligned(Layout(size, align).size, j) && Aligned(Layout(size, align).off, j)
  {
    var e: nat := 4;
    Pow2Mono(e, j);
    assert AlignOf(align) == Pow2(j) by { assert Pow2(e) == 16; }
    RoundUpAligned(size, j);
    RoundUpAligned(HEADER, j);
    RoundUpBounds(size, Pow2(j));
    var r := RoundUp(size, Pow2(j));
    if r < 8 { AlignedLarge(r, j); }
  }

  lemma AlignedLarge(x: nat, j: nat)
    requires x > 0 && Aligned(x, j)
    ensures x >= Pow2(j)
  {
    if Idx(x, j) > 0 { MulLess(0, Idx(x, j), Pow2(j)); }
  }

  /** The least slab of 64 pages or more with room for one object. */
  function FirstRoom(obj: nat, over: nat, k: nat): (r: nat)
    requires k <= MAX_SHIFT
    ensures k <= r <= MAX_SHIFT && (r == MAX_SHIFT || over + obj <= Bytes(r))
    ensures forall j: nat :: k <= j < r ==> Bytes(j) < over + obj
    decreases MAX_SHIFT - k
  {
    if k == MAX_SHIFT || over + obj <= Bytes(k) then k else FirstRoom(obj, over, k + 1)
  }

  /** A slab of `2^k` pages has room for `n` objects. */
  lemma CountAtLeast(obj: nat, over: nat, k: nat, n: nat)
    requires obj > 0 && n > 0
    ensures Count(obj, over, k) >= n <==> over + n * obj <= Bytes(k)
  {
    if Bytes(k) > over {
      DivMul(Bytes(k) - over, obj);
      var c := Count(obj, over, k);
      if c >= n { MulLess(n - 1, c, obj); } else { MulLess(c, n, obj); }
    } else {
      MulLess(0, n, obj);
    }
  }

  /** Slabs hold two objects or more exactly when the least one of 64 pages or more that fits one fits two. */
  lemma TwoObjects(size: nat, align: nat)
    requires size < WORD && align < WORD && Fitting(size, align) && Layout(size, align).objs > 0
    ensures var g := Layout(size, align);
      g.objs >= 2 <==> g.off + 2 * g.size <= Bytes(FirstRoom(g.size, g.off, 6))
  {
    var g := Layout(size, align);
    var obj, over := g.size, g.off;
    var k, f := Settle(obj, over, 0), FirstRoom(obj, over, 6);
    Settled(obj, over, 0);
    RoundUpBounds(HEADER, AlignOf(align));
    ObjectsFit(obj, over, k);
    CountAtLeast(obj, over, k, 2);
    if k < 6 {
      CountAtLeast(obj, over, k, 8);
      MulLess(2, 8, obj);
      Pow2Mono(k + PAGE_SHIFT, 6 + PAGE_SHIFT);
    } else {
      CountAtLeast(obj, over, k, 1);
      forall j: nat | 6 <= j < k ensures over + obj > Bytes(j) {
        CountAtLeast(obj, over, j, 1);
        assert !Enough(obj, over, j);
      }
      assert f == k;
    }
  }

  /** Objects of 200000 bytes get a slab of 64 pages to themselves. */
  lemma OneObject()
    ensures Fitting(200000, 16) && Layout(200000, 16) == Geo(200000, 48, 1, 6 + PAGE_SHIFT)
  {
    Sixteens(200000, 200000);
    Sixteens(HEADER, 48);
    BytesLeast(0);
    SmallSlabs();
    forall k: nat | k < 6 ensures !Enough(200000, 48, k) { CountAtLeast(200000, 48, k, 1); }
    CountAtLeast(200000, 48, 6, 1);
    CountAtLeast(200000, 48, 6, 2);
    Settled(200000, 48, 0);
    var k := Settle(200000, 48, 0);
    assert k == 6;
    ObjectsFit(200000, 48, k);
  }

  /** A size just below 2^64 wraps when rounded up: the objects of that cache have 8 bytes. */
  lemma SizeWraps()
    ensures !Fitting(WORD - 1, 16) && Layout(WORD - 1, 16) == Geo(8, 48, 506, PAGE_SHIFT) && !Sound(Layout(WORD - 1, 16), WORD - 1)
  {
    RoundUpBounds(WORD - 1, 16);
    WrappedUp();
    Sixteens(HEADER, 48);
    var k: nat := 0;
    FirstSlab(k);
    BytesLeast(k);
    CountAtLeast(8, 48, k, 8);
    ObjectsFit(8, 48, k);
  }

  lemma FirstSlab(k: nat)
    requires k == 0
    ensures Bytes(k) == 4096
  {
    Pow2Add(6, 6);
    assert Pow2(6) == 64;
  }

  /** 2^64 - 1 rounded up to 16 is 0. */
  lemma WrappedUp()
    ensures RoundUp(WORD - 1, 16) == 0
  {
    var e: nat := 4;
    assert Pow2(e) == 16;
    RoundUpAligned(WORD - 1, e);
    AndBelow(14, WORD - 16);
    var y := RoundUp(WORD - 1, 16);
    assert y <= 14 && y == Idx(y, e) * 16;
  }

  lemma SmallSlabs()
    ensures Bytes(6) == 262144 && forall k: nat :: k < 6 ==> Bytes(k) <= 131072
  {
    Pow2Add(9, 9);
    assert Pow2(9) == 512;
    forall k: nat | k < 6 ensures Bytes(k) <= 131072 { Pow2Mono(k + PAGE_SHIFT, 17); }
  }

  /** Rounding up to a multiple of 16. */
  lemma Sixteens(x: nat, r: nat)
    requires x <= r < x + 16 && r % 16 == 0 && x < 0x1_0000_0000
    ensures RoundUp(x, 16) == r
  {
    var e: nat := 4;
    assert Pow2(e) == 16;
    RoundUpAligned(x, e);
    RoundUpBounds(x, 16);
    var y := RoundUp(x, 16);
    assert y == Idx(y, e) * 16;
    SameMultiple(x, Idx(y, e), r);
  }

  lemma SameMultiple(x: nat, q: nat, r: nat)
    requires x <= q * 16 < x + 16 && x <= r < x + 16 && r % 16 == 0
    ensures q * 16 == r
  {
    assert r == r / 16 * 16;
  }
}
