/** A run of the slab cache, from an empty machine to a list that holds a slab which is gone. */
module SlabRun {
  import opened Blocks
  import opened Buddy
  import opened Counting
  import opened Pmm
  import opened Slab
  import opened SlabPages
  import opened SlabPlan
  import opened SlabSpace

  const BIG: nat := 200000
  const PAGES: nat := 4096
  const ORDER: nat := 6

  /** Page numbers below `n` are all available or in slabs. */
  ghost predicate AllHeld(held: set<nat>, n: nat) {
    forall x: nat :: x < n ==> x in held
  }

  /** The first page of block number `q` of 64 pages. */
  function Start(q: nat): nat {
    q * 64
  }

  lemma StartAligned(q: nat, o: nat)
    requires o == ORDER
    ensures Aligned(Start(q), o) && Pow2(o) == 64
  {
    assert Pow2(o) == 64;
    IdxUnique(q * 64, q, o);
  }

  /** With fewer than 64 slabs one of the first 64 blocks is none. */
  lemma SpareBlock(slabs: set<nat>) returns (q: nat)
    requires |slabs| < 64
    ensures q < 64 && Start(q) * PAGE_SIZE !in slabs
  {
    var s := seq(64, i requires 0 <= i => Start(i) * PAGE_SIZE);
    if forall i: nat :: i < 64 ==> s[i] in slabs {
      Pigeonhole(s, slabs);
    }
    q :| q < 64 && s[q] !in slabs;
  }

  /** A page of a slab lies in the slab's own block. */
  lemma OwnBlock(st: seq<nat>, slabs: set<nat>, q: nat, x: nat, o: nat)
    requires o == ORDER && AllBacked(st, o, slabs) && InBlock(x, Start(q), o) && x in PagesOf(slabs, o)
    ensures Start(q) * PAGE_SIZE in slabs
  {
    var b: nat :| b in slabs && x in Range(b / PAGE_SIZE, Pow2(o));
    assert Backed(st, o, b);
    StartAligned(q, o);
    MeetSameOrder(x, Start(q), b / PAGE_SIZE, o);
  }

  /** There is a block for another slab. */
  lemma HasRoom(st: seq<nat>, lists: Lists, caches: Caches, slabs: set<nat>, o: nat)
    requires o == ORDER && PmmInv(st, lists, caches) && AllBacked(st, o, slabs) && |slabs| < 64 && caches == [[]]
    requires AllHeld(AvailSet(st) + PagesOf(slabs, o), PAGES)
    ensures !NoBlock(st, caches, 0, o)
  {
    var q := SpareBlock(slabs);
    var p := Start(q);
    StartAligned(q, o);
    forall x: nat | InBlock(x, p, o) ensures IsFree(st, x) {
      assert x in AvailSet(st) + PagesOf(slabs, o);
      if x in PagesOf(slabs, o) { OwnBlock(st, slabs, q, x, o); }
      assert Avail(st, x) && (st[x] == BUFFERED ==> InCache(caches, x));
    }
    assert AllFree(st, p, o);
  }

  /** A machine with 4096 pages of memory, all free. */
  method Boot() returns (pages: Manager)
    ensures fresh(pages) && fresh(pages.state) && pages.Valid() && pages.caches == [[]] && AllHeld(AvailSet(pages.state[..]), PAGES)
  {
    var memory := [Entry(0, PAGES * PAGE_SIZE)];
    pages := new Manager(1, memory);
    assert MaxEnd(memory[..0]) == 0;
    forall x: nat | x < PAGES ensures x in AvailSet(pages.state[..]) {
      RegionIsWholePages(memory[0], x);
      assert Usable(memory, 1, x);
    }
  }

  /** A cache with one object to a slab, and room for more slabs. */
  ghost predicate Ready(k: Kmem, n: nat)
    reads k.cache, k.held, k.held.pages, k.held.pages.state
  {
    && k.cache.Valid() && k.Tied() && k.cache.g.objs == 1 && k.held.order == ORDER && |k.cache.mags| == 1
    && k.held.pages.caches == [[]] && |k.held.slabs| <= n && AllHeld(k.held.Held(), PAGES)
  }

  method Setup() returns (k: Kmem)
    ensures fresh(k) && fresh(k.cache) && fresh(k.held) && fresh(k.held.pages) && fresh(k.held.pages.state) && Ready(k, 0)
  {
    var pages := Boot();
    OneObject();
    var c := CacheCreate(BIG, 16, 1, pages, true);
    k := c;
    assert k.held.Held() == AvailSet(pages.state[..]);
  }

  method AllocOne(k: Kmem, n: nat) returns (o: nat)
    requires Ready(k, n) && n < 64
    modifies k.cache, k.held, k.held.pages, k.held.pages.state
    ensures Ready(k, n + 1) && OutPlus(old(k.cache.place), k.cache.place, o)
    ensures k.held.pages.state == old(k.held.pages.state)
  {
    HasRoom(k.held.pages.state[..], k.held.pages.lists, k.held.pages.caches, k.held.slabs, ORDER);
    var r := k.Alloc(0);
    o := r.value;
  }

  ghost predicate AllOut(place: map<nat, Place>, objs: seq<nat>) {
    Distinct(objs) && forall i: nat :: i < |objs| ==> HasOut(place, objs[i])
  }

  lemma OneMoreOut(place: map<nat, Place>, place': map<nat, Place>, objs: seq<nat>, o: nat)
    requires AllOut(place, objs) && OutPlus(place, place', o)
    ensures AllOut(place', objs + [o])
  {
    var more := objs + [o];
    forall i: nat | i < |more| ensures HasOut(place', more[i]) {
      assert i < |objs| ==> more[i] == objs[i] && HasOut(place, objs[i]);
      assert HasOut(place', more[i]) <==> HasOut(place, more[i]) || more[i] == o;
    }
  }

  lemma OneLessOut(place: map<nat, Place>, place': map<nat, Place>, objs: seq<nat>)
    requires objs != [] && AllOut(place, objs) && OutMinus(place, place', objs[0])
    ensures AllOut(place', objs[1..])
  {
    TailDistinct(objs);
    forall i: nat | i < |objs| - 1 ensures HasOut(place', objs[1..][i]) {
      assert HasOut(place, objs[i + 1]) && objs[i + 1] != objs[0];
      assert HasOut(place', objs[i + 1]) <==> HasOut(place, objs[i + 1]) && objs[i + 1] != objs[0];
    }
  }

  method AllocAll(k: Kmem) returns (objs: seq<nat>)
    requires Ready(k, 0)
    modifies k.cache, k.held, k.held.pages, k.held.pages.state
    ensures Ready(k, 33) && |objs| == 33 && AllOut(k.cache.place, objs) && k.held.pages.state == old(k.held.pages.state)
  {
    objs := [];
    for i := 0 to 33
      invariant Ready(k, i) && |objs| == i && AllOut(k.cache.place, objs) && k.held.pages.state == old(k.held.pages.state)
    {
      ghost var place := k.cache.place;
      var o := AllocOne(k, i);
      OneMoreOut(place, k.cache.place, objs, o);
      objs := objs + [o];
    }
  }

  /** What a run of frees keeps while the magazine has room. */
  ghost predicate Filling(k: Kmem, objs: seq<nat>, n: nat)
    reads k.cache, k.held, k.held.pages, k.held.pages.state
  {
    && k.cache.Valid() && k.Tied() && k.cache.g.objs == 1 && |k.cache.mags| == 1 && |k.held.pages.caches| == 1
    && |k.cache.mags[0]| >= n && AllOut(k.cache.place, objs)
  }

  method FreeOne(k: Kmem, objs: seq<nat>, ghost n: nat) returns (full: bool)
    requires Filling(k, objs, n) && objs != []
    modifies k.cache, k.held, k.held.pages, k.held.pages.state
    ensures k.held.pages.state == old(k.held.pages.state) && full == (old(|k.cache.mags[0]|) == MAG_SIZE)
    ensures if full then k.cache.HeadGone() else Filling(k, objs[1..], n + 1)
  {
    ghost var place := k.cache.place;
    full := |k.cache.mags[0]| == MAG_SIZE;
    k.Free(0, objs[0]);
    OneLessOut(place, k.cache.place, objs);
  }

  /** Objects go back until the magazine is full, and then one more. */
  method FreeAll(k: Kmem, objs: seq<nat>)
    requires Filling(k, objs, 0) && |objs| == MAG_SIZE + 1
    modifies k.cache, k.held, k.held.pages, k.held.pages.state
    ensures k.cache.HeadGone()
  {
    var rest := objs;
    for j := 0 to MAG_SIZE
      invariant Filling(k, rest, j) && |rest| == MAG_SIZE + 1 - j && k.held.pages.state == old(k.held.pages.state)
    {
      var full := FreeOne(k, rest, j);
      if full { return; }
      rest := rest[1..];
    }
    var full := FreeOne(k, rest, MAG_SIZE);
  }

  /** 33 objects of 200000 bytes taken and returned: the first slab on the list of partly used ones is gone. */
  method ReachGone() returns (k: Kmem)
    ensures fresh(k) && k.cache.partial != [] && k.cache.partial[0] !in k.cache.freelist
  {
    k := Setup();
    var objs := AllocAll(k);
    FreeAll(k, objs);
  }
}
