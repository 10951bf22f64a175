/** Slab caches on top of the physical memory manager: slabs are its live blocks, taken and given back whole. */
module SlabPages {
  import opened Blocks
  import opened Options
  import opened Pmm
  import opened Slab
  import opened SlabPlan
  import opened SlabSpace

  /** The blocks that one cache holds of the page allocator, `2^order` pages each. */
  class Holding {
    const pages: Manager
    const order: nat
    const shift: nat
    ghost var slabs: set<nat>

    constructor (pages: Manager, order: nat)
      requires pages.Valid()
      ensures this.pages == pages && this.order == order && shift == order + PAGE_SHIFT && slabs == {} && Valid()
    {
      this.pages, this.order, shift, slabs := pages, order, order + PAGE_SHIFT, {};
    }

    ghost predicate Valid()
      reads this, pages, pages.state
    {
      shift == order + PAGE_SHIFT && pages.Valid() && AllBacked(pages.state[..], order, slabs)
    }

    /** The pages that are available or in one of the blocks. */
    ghost function Held(): set<nat>
      reads this, pages, pages.state
    {
      AvailSet(pages.state[..]) + PagesOf(slabs, order)
    }

    /** The `pmm_alloc` of `slab_create`. */
    method Ask(cpu: nat) returns (page: Option<nat>)
      requires pages.Valid() && cpu < |pages.caches|
      modifies pages`caches, pages`lists, pages`freePages, pages.state
      ensures pages.Valid() && |pages.caches| == old(|pages.caches|)
      ensures page.None? <==> NoBlock(old(pages.state[..]), old(pages.caches), cpu, order)
      ensures page.None? ==> AvailSet(pages.state[..]) == AvailSet(old(pages.state[..])) && Kept(old(pages.state[..]), pages.state[..])
      ensures page.Some? ==> Took(old(pages.state[..]), pages.state[..], page.value, order)
      ensures order > 0 ==> pages.caches == old(pages.caches)
    {
      OrderOfPow2(order, Pow2(order));
      page := pages.Alloc(cpu, Pow2(order));
    }

    /** A block for a slab is aligned to its size in bytes, and none of those held already. */
    method Fetch(cpu: nat) returns (r: Option<nat>)
      requires Valid() && cpu < |pages.caches|
      modifies pages`caches, pages`lists, pages`freePages, pages.state
      ensures pages.Valid() && |pages.caches| == old(|pages.caches|)
      ensures r.None? <==> NoBlock(old(pages.state[..]), old(pages.caches), cpu, order)
      ensures r.Some? ==> Aligned(r.value, shift) && r.value !in slabs
      ensures r.Some? ==> Took(old(pages.state[..]), pages.state[..], r.value / PAGE_SIZE, order)
      ensures var now := Plus(slabs, r);
        AllBacked(pages.state[..], order, now) && AvailSet(pages.state[..]) + PagesOf(now, order) == old(Held())
      ensures order > 0 ==> pages.caches == old(pages.caches)
      ensures old(pages.AllManaged()) ==> pages.AllManaged()
    {
      ghost var st := pages.state[..];
      var page := Ask(cpu);
      if page == None {
        KeepStep(st, pages.state[..], order, slabs, pages.regions);
        return None;
      }
      var b := page.value * PAGE_SIZE;
      TakeStep(st, pages.state[..], page.value, b, order, shift, slabs, pages.regions);
      r := Some(b);
    }

    /** The same, with the block among those held from then on. */
    method Take(cpu: nat) returns (r: Option<nat>)
      requires Valid() && cpu < |pages.caches|
      modifies this, pages`caches, pages`lists, pages`freePages, pages.state
      ensures Valid() && |pages.caches| == old(|pages.caches|) && Held() == old(Held())
      ensures r.None? <==> NoBlock(old(pages.state[..]), old(pages.caches), cpu, order)
      ensures slabs == Plus(old(slabs), r)
      ensures r.Some? ==> Aligned(r.value, shift) && r.value !in old(slabs)
      ensures order > 0 ==> pages.caches == old(pages.caches)
      ensures old(pages.AllManaged()) ==> pages.AllManaged()
    {
      r := Fetch(cpu);
      if r.Some? { slabs := slabs + {r.value}; }
    }

    /** `slab_destroy`: the page allocator takes back the blocks of the regions it knows. */
    method Give(cpu: nat, b: nat)
      requires Valid() && b in slabs && cpu < |pages.caches|
      modifies this, pages`caches, pages`lists, pages`freePages, pages.state
      ensures Valid() && |pages.caches| == old(|pages.caches|) && slabs == old(slabs) - {b}
      ensures if Managed(pages.regions, b / PAGE_SIZE) then Gave(old(pages.state[..]), pages.state[..], b / PAGE_SIZE, order)
              else pages.state[..] == old(pages.state[..])
      ensures old(pages.AllManaged()) ==> pages.AllManaged() && Held() == old(Held())
    {
      ghost var st, lists, caches := pages.state[..], pages.lists, pages.caches;
      ghost var p := b / PAGE_SIZE;
      assert Backed(st, order, b);
      pages.Free(cpu, b, Pow2(order));
      if Managed(pages.regions, p) {
        BlockGiven(st, lists, caches, pages.state[..], b, order, slabs);
        GaveReserved(st, lists, caches, pages.state[..], p, order);
        StillIn(st, pages.state[..], pages.regions);
      }
      slabs := slabs - {b};
    }
  }

  /** A slab cache and the blocks under its slabs. */
  class Kmem {
    const cache: Cache
    const held: Holding

    constructor (cache: Cache, held: Holding)
      ensures this.cache == cache && this.held == held
    {
      this.cache, this.held := cache, held;
    }

    /** The slabs are exactly the blocks held. */
    ghost predicate Tied()
      reads cache, held, held.pages, held.pages.state
    {
      held.Valid() && cache.freelist.Keys == held.slabs && cache.g.shift == held.shift
    }

    /** The block for a new slab, if the request needs one and the page allocator has one. */
    method Supply(cpu: nat) returns (block: Option<nat>)
      requires cache.Valid() && Tied() && cpu < |cache.mags| && cpu < |held.pages.caches|
      modifies held, held.pages`caches, held.pages`lists, held.pages`freePages, held.pages.state
      ensures held.Valid() && |held.pages.caches| == old(|held.pages.caches|) && held.Held() == old(held.Held())
      ensures cache.Suits(block) && (block.Some? ==> cache.NeedsBlock(cpu))
      ensures block.None? <==> !cache.NeedsBlock(cpu) || NoBlock(old(held.pages.state[..]), old(held.pages.caches), cpu, held.order)
      ensures held.slabs == Plus(cache.freelist.Keys, block)
      ensures held.order > 0 ==> held.pages.caches == old(held.pages.caches)
      ensures |held.slabs| <= old(|held.slabs|) + 1
      ensures old(held.pages.AllManaged()) ==> held.pages.AllManaged()
    {
      block := None;
      if cache.NeedsBlock(cpu) { block := held.Take(cpu); }
    }

    /** `kmem_cache_alloc`: an object that nobody has; it fails only when a slab is needed and there are no pages for it. */
    method Alloc(cpu: nat) returns (r: Option<nat>)
      requires cache.Valid() && Tied() && cpu < |cache.mags| && cpu < |held.pages.caches|
      modifies cache, held, held.pages`caches, held.pages`lists, held.pages`freePages, held.pages.state
      ensures cache.Valid() && Tied() && |cache.mags| == old(|cache.mags|) && |held.pages.caches| == old(|held.pages.caches|)
      ensures r.None? <==> old(cache.NeedsBlock(cpu)) && NoBlock(old(held.pages.state[..]), old(held.pages.caches), cpu, held.order)
      ensures r.None? ==> OutSame(old(cache.place), cache.place)
      ensures r.Some? ==> Known(cache.g, cache.freelist, r.value) && OutPlus(old(cache.place), cache.place, r.value)
      ensures held.Held() == old(held.Held())
      ensures old(held.pages.AllManaged()) ==> held.pages.AllManaged()
      ensures r.Some? && old(cache.mags[cpu]) == [] ==> |cache.mags[cpu]| < cache.g.objs
      ensures |held.slabs| <= old(|held.slabs|) + 1
      ensures held.order > 0 ==> held.pages.caches == old(held.pages.caches)
    {
      var block := Supply(cpu);
      r := cache.Alloc(cpu, block);
    }

    /** One `slab_put`, with the `slab_destroy` it may lead to. */
    method PutLast(cpu: nat)
      requires cache.Core() && Tied() && (cache.g.objs >= 2 ==> cache.Valid())
      requires cpu < |cache.mags| && cache.mags[cpu] != [] && cpu < |held.pages.caches|
      modifies cache, held, held.pages`caches, held.pages`lists, held.pages`freePages, held.pages.state
      ensures cache.Core() && Tied() && if cache.g.objs >= 2 then cache.Valid() else cache.partial != []
      ensures cache.mags == old(cache.mags)[cpu := old(cache.mags[cpu])[..|old(cache.mags[cpu])| - 1]]
      ensures cache.g.objs == 1 ==>
        if |old(cache.empty)| < MAX_EMPTY then |cache.empty| == |old(cache.empty)| + 1
        else |cache.empty| == |old(cache.empty)| && cache.HeadGone()
      ensures |held.pages.caches| == old(|held.pages.caches|) && OutSame(old(cache.place), cache.place)
      ensures old(held.pages.AllManaged()) ==> held.pages.AllManaged() && held.Held() == old(held.Held())
    {
      var gone := cache.PutLast(cpu);
      if gone.Some? { held.Give(cpu, gone.value); }
    }

    /** Puts half of a full magazine's objects back on their slabs. */
    method FlushHalf(cpu: nat)
      requires cache.Valid() && Tied() && cpu < |cache.mags| && |cache.mags[cpu]| == MAG_SIZE && cpu < |held.pages.caches|
      modifies cache, held, held.pages`caches, held.pages`lists, held.pages`freePages, held.pages.state
      ensures cache.Core() && Tied() && if cache.g.objs >= 2 then cache.Valid() else cache.partial != []
      ensures |cache.mags| == old(|cache.mags|) && |cache.mags[cpu]| == MAG_SIZE / 2
      ensures cache.g.objs == 1 ==> cache.HeadGone()
      ensures |held.pages.caches| == old(|held.pages.caches|) && OutSame(old(cache.place), cache.place)
      ensures old(held.pages.AllManaged()) ==> held.pages.AllManaged() && held.Held() == old(held.Held())
    {
      for flush := 0 to MAG_SIZE / 2
        invariant cache.Core() && Tied() && if cache.g.objs >= 2 then cache.Valid() else flush > 0 ==> cache.partial != []
        invariant |cache.mags| == old(|cache.mags|) && |cache.mags[cpu]| == MAG_SIZE - flush
        invariant cache.g.objs == 1 ==> |cache.empty| >= flush || |cache.empty| >= MAX_EMPTY
        invariant cache.g.objs == 1 && flush > MAX_EMPTY ==> cache.HeadGone()
        invariant |held.pages.caches| == old(|held.pages.caches|) && OutSame(old(cache.place), cache.place)
        invariant old(held.pages.AllManaged()) ==> held.pages.AllManaged() && held.Held() == old(held.Held())
      {
        PutLast(cpu);
      }
    }

    /** Makes room in a full magazine. */
    method MakeRoom(cpu: nat)
      requires cache.Valid() && Tied() && cpu < |cache.mags| && cpu < |held.pages.caches|
      modifies cache, held, held.pages`caches, held.pages`lists, held.pages`freePages, held.pages.state
      ensures cache.Core() && Tied() && |cache.mags| == old(|cache.mags|) && |held.pages.caches| == old(|held.pages.caches|)
      ensures cache.Valid() <==> cache.g.objs >= 2 || old(|cache.mags[cpu]|) < MAG_SIZE
      ensures |cache.mags[cpu]| == if old(|cache.mags[cpu]|) < MAG_SIZE then old(|cache.mags[cpu]|) else MAG_SIZE / 2
      ensures cache.g.objs == 1 && old(|cache.mags[cpu]|) == MAG_SIZE ==> cache.HeadGone()
      ensures OutSame(old(cache.place), cache.place)
      ensures old(held.pages.AllManaged()) ==> held.pages.AllManaged() && held.Held() == old(held.Held())
    {
      if |cache.mags[cpu]| < MAG_SIZE { return; }
      FlushHalf(cpu);
      if cache.g.objs == 1 { NonePartial(cache.g, cache.inuse, cache.partial, cache.empty, {}); }
    }

    /**
     `kmem_cache_free` of an object that a caller has. The cache stays right exactly when slabs hold two
     objects or more or the magazine had room; the pages of a slab that is not kept become available. If
     slabs hold one object, one that is gone is then the first of the list of partly used slabs.
     */
    method Free(cpu: nat, o: nat)
      requires cache.Valid() && Tied() && HasOut(cache.place, o) && cpu < |cache.mags| && cpu < |held.pages.caches|
      modifies cache, held, held.pages`caches, held.pages`lists, held.pages`freePages, held.pages.state
      ensures cache.Core() && Tied() && |cache.mags| == old(|cache.mags|) && |held.pages.caches| == old(|held.pages.caches|)
      ensures cache.Valid() <==> cache.g.objs >= 2 || old(|cache.mags[cpu]|) < MAG_SIZE
      ensures cache.g.objs == 1 && old(|cache.mags[cpu]|) == MAG_SIZE ==> cache.HeadGone()
      ensures |cache.mags[cpu]| == 1 + if old(|cache.mags[cpu]|) < MAG_SIZE then old(|cache.mags[cpu]|) else MAG_SIZE / 2
      ensures OutMinus(old(cache.place), cache.place, o)
      ensures old(held.pages.AllManaged()) ==> held.pages.AllManaged() && held.Held() == old(held.Held())
    {
      MakeRoom(cpu);
      cache.Push(cpu, o, old(cache.place));
    }
  }

  /** `kmem_cache_create`; `room` says whether `kmalloc` finds memory for the cache itself. */
  method CacheCreate(size: nat, align: nat, cpus: nat, pages: Manager, room: bool) returns (c: Kmem?)
    requires size < WORD && align < WORD && pages.Valid()
    ensures c == null <==> size == 0 || !room || Layout(size, align).objs == 0
    ensures c != null ==> fresh(c) && fresh(c.cache) && fresh(c.held) && c.held.pages == pages
    ensures c != null ==> c.cache.g == Layout(size, align) && c.cache.mags == seq(cpus, _ => []) && c.cache.place == map[] && c.held.slabs == {} && c.Tied()
    ensures c != null ==> (Sound(c.cache.g, size) <==> Fitting(size, align))
    ensures c != null && Fitting(size, align) ==> c.cache.Valid()
  {
    if size == 0 || !room { return null; }
    var g, ok := Plan(size, align);
    if !ok { return null; }
    LayoutExact(size, align);
    var cache := new Cache(g, cpus);
    var held := new Holding(pages, g.shift - PAGE_SHIFT);
    c := new Kmem(cache, held);
  }
}
