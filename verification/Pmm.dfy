/** The physical memory manager: buddy allocator plus per-CPU page caches. */
module Pmm {
  import opened Blocks
  import opened Buddy
  import opened Options

  const PAGE_SIZE: nat := 4096
  const USED: nat := 0x80
  const BUFFERED: nat := 0x7E
  const RESERVED: nat := 0xFF
  const CACHE_SIZE: nat := 32
  const MAX_REGIONS: nat := 128

  type Caches = seq<seq<nat>>

  /** The page counts towards `free_pages`: on a free list or buffered by a CPU. */
  predicate Avail(st: seq<nat>, x: nat) {
    x < |st| && (st[x] <= MAX_ORDER || st[x] == BUFFERED)
  }

  function AvailSet(st: seq<nat>): set<nat> {
    set x: nat | x < |st| && Avail(st, x)
  }

  predicate InRange(x: nat, p: nat, n: nat) { p <= x < p + n }

  function Range(p: nat, n: nat): set<nat> {
    set x: nat | x < p + n && InRange(x, p, n)
  }

  lemma {:induction false} RangeSize(p: nat, n: nat)
    ensures |Range(p, n)| == n
  {
    if n > 0 {
      RangeSize(p, n - 1);
      assert Range(p, n) == Range(p, n - 1) + {p + n - 1};
    }
  }

  predicate IsUsed(v: nat) { USED <= v <= USED + MAX_ORDER }

  /** A page in use belongs to an aligned block, all of whose pages carry the same state. */
  ghost predicate UsedOk(st: seq<nat>, x: nat)
    requires x < |st|
  {
    IsUsed(st[x]) ==>
      var o := st[x] - USED;
      && Base(x, o) + Pow2(o) <= |st|
      && forall y: nat :: InBlock(y, Base(x, o), o) ==> st[y] == st[x]
  }

  /** Some slot of some CPU cache holds the page. */
  predicate Cached(caches: Caches, c: nat, i: nat) {
    c < |caches| && i < |caches[c]|
  }

  ghost predicate CachesOk(st: seq<nat>, caches: Caches) {
    && (forall c: nat :: c < |caches| ==> |caches[c]| <= CACHE_SIZE)
    && (forall c: nat, i: nat :: Cached(caches, c, i) ==> caches[c][i] < |st| && st[caches[c][i]] == BUFFERED)
    && (forall c: nat, i: nat, d: nat, j: nat :: Cached(caches, c, i) && Cached(caches, d, j) && caches[c][i] == caches[d][j] ==> c == d && i == j)
  }

  /** A buffered page is in some cache. */
  ghost predicate InCache(caches: Caches, x: nat) {
    exists c: nat, i: nat :: Cached(caches, c, i) && caches[c][i] == x
  }

  ghost predicate PmmInv(st: seq<nat>, lists: Lists, caches: Caches) {
    && Inv(st, lists)
    && CachesOk(st, caches)
    && (forall x: nat :: x < |st| ==> UsedOk(st, x))
    && (forall x: nat :: x < |st| && st[x] == BUFFERED ==> InCache(caches, x))
    && (forall x: nat :: x < |st| ==> st[x] <= MAX_ORDER || st[x] == BUFFERED || IsUsed(st[x]) || st[x] == RESERVED)
  }

  /** `(b, o)` is a live allocation. */
  predicate Live(st: seq<nat>, b: nat, o: nat) {
    o <= MAX_ORDER && Aligned(b, o) && b + Pow2(o) <= |st| && st[b] == USED + o
  }

  /** Live allocations never overlap, and never meet a free block or a buffered page. */
  lemma LiveDisjoint(st: seq<nat>, lists: Lists, caches: Caches, b: nat, o: nat, b2: nat, o2: nat)
    requires PmmInv(st, lists, caches) && Live(st, b, o)
    ensures Live(st, b2, o2) && (b, o) != (b2, o2) ==> Apart(b, o, b2, o2)
    ensures Listed(lists, b2, o2) ==> Apart(b, o, b2, o2)
    ensures forall c: nat, i: nat :: Cached(caches, c, i) ==> !InBlock(caches[c][i], b, o)
  {
    LivePages(st, lists, caches, b, o);
    assert Listed(lists, b2, o2) ==> BlockOk(st, b2, o2);
    if !Apart(b, o, b2, o2) {
      var x := if b < b2 then b2 else b;
      assert InBlock(x, b, o) && InBlock(x, b2, o2);
      if Live(st, b2, o2) {
        LivePages(st, lists, caches, b2, o2);
        MeetSameOrder(x, b, b2, o);
      }
    }
  }

  lemma LivePages(st: seq<nat>, lists: Lists, caches: Caches, b: nat, o: nat)
    requires PmmInv(st, lists, caches) && Live(st, b, o)
    ensures forall x: nat :: InBlock(x, b, o) ==> st[x] == USED + o
  {
    assert UsedOk(st, b);
  }

  /** Every page the manager owns is held by exactly one free block, cache slot or live allocation. */
  lemma OneOwner(st: seq<nat>, lists: Lists, caches: Caches, x: nat) returns (b: nat, o: nat)
    requires PmmInv(st, lists, caches) && x < |st| && st[x] != RESERVED
    ensures (Listed(lists, b, o) && InBlock(x, b, o)) || InCache(caches, x) || (Live(st, b, o) && InBlock(x, b, o))
    ensures (Listed(lists, b, o) && InBlock(x, b, o)) || (Live(st, b, o) && InBlock(x, b, o)) ==>
      && !InCache(caches, x)
      && (forall q: nat, k: nat :: (Listed(lists, q, k) || Live(st, q, k)) && InBlock(x, q, k) ==> (q, k) == (b, o))
      && !(Listed(lists, b, o) && Live(st, b, o))
    ensures InCache(caches, x) ==> forall q: nat, k: nat :: Listed(lists, q, k) || Live(st, q, k) ==> !InBlock(x, q, k)
  {
    o := if st[x] <= MAX_ORDER then st[x] else if IsUsed(st[x]) then st[x] - USED else 0;
    b := Base(x, o);
    BaseAligned(x, o);
    assert Covered(st, lists, x) && UsedOk(st, x);
    forall q: nat, k: nat | (Listed(lists, q, k) || Live(st, q, k)) && InBlock(x, q, k)
      ensures st[x] == k || st[x] == USED + k
      ensures (q, k) == (b, o)
    {
      if Listed(lists, q, k) { assert BlockOk(st, q, k); } else { LivePages(st, lists, caches, q, k); }
      MeetSameOrder(x, b, q, o);
    }
  }

  /** A page in use belongs to the live block around it. */
  lemma LiveAround(st: seq<nat>, lists: Lists, caches: Caches, x: nat)
    requires PmmInv(st, lists, caches) && x < |st| && IsUsed(st[x])
    ensures var o := st[x] - USED; Live(st, Base(x, o), o) && InBlock(x, Base(x, o), o)
  {
    BaseAligned(x, st[x] - USED);
    assert UsedOk(st, x);
  }

  /** The least order whose block holds `pages` pages. */
  function OrderForPages(pages: nat): (o: nat)
    ensures pages <= Pow2(o)
    ensures o > 0 ==> Pow2(o - 1) < pages
  {
    if pages <= 1 then 0
    else
      BitLenBounds(pages - 1);
      BitLen(pages - 1)
  }

  /** Outside the block, a buddy operation keeps the set of free pages and every state that is not free. */
  ghost predicate SameOutside(st: seq<nat>, st': seq<nat>, p: nat, o: nat) {
    && |st| == |st'|
    && forall x: nat :: x < |st| && !InBlock(x, p, o) ==>
      (st[x] <= MAX_ORDER <==> st'[x] <= MAX_ORDER) && (st[x] > MAX_ORDER ==> st'[x] == st[x])
  }

  /** A buddy operation on a block that no live allocation meets keeps the rest of the invariant. */
  lemma OutsideKept(st: seq<nat>, lists: Lists, caches: Caches, st': seq<nat>, p: nat, o: nat)
    requires PmmInv(st, lists, caches) && SameOutside(st, st', p, o)
    requires Aligned(p, o) && o <= MAX_ORDER && p + Pow2(o) <= |st|
    requires forall x: nat :: InBlock(x, p, o) ==> !IsUsed(st[x]) || st[x] == USED + o
    ensures forall x: nat :: x < |st| && !InBlock(x, p, o) ==> UsedOk(st', x)
  {
    forall x: nat | x < |st| && !InBlock(x, p, o) ensures UsedOk(st', x) {
      assert UsedOk(st, x);
      if IsUsed(st'[x]) { UsedKept(st, st', p, o, x); }
    }
  }

  lemma UsedKept(st: seq<nat>, st': seq<nat>, p: nat, o: nat, x: nat)
    requires SameOutside(st, st', p, o) && Aligned(p, o) && p + Pow2(o) <= |st|
    requires forall y: nat :: InBlock(y, p, o) ==> !IsUsed(st[y]) || st[y] == USED + o
    requires x < |st| && !InBlock(x, p, o) && UsedOk(st, x) && IsUsed(st'[x])
    ensures UsedOk(st', x)
  {
    assert st[x] == st'[x];
    var k := st[x] - USED;
    BaseAligned(x, k);
    forall y: nat | InBlock(y, Base(x, k), k) ensures st'[y] == st'[x] {
      assert st[y] == st[x];
      if InBlock(y, p, o) { MeetSameOrder(y, p, Base(x, k), o); }
    }
  }

  /** A change of availability on one block changes the count by its size. */
  lemma AvailCount(st: seq<nat>, st': seq<nat>, p: nat, o: nat)
    requires |st| == |st'| && p + Pow2(o) <= |st|
    requires forall x: nat :: x < |st| && !InBlock(x, p, o) ==> (Avail(st, x) <==> Avail(st', x))
    requires forall x: nat :: InBlock(x, p, o) ==> Avail(st, x) && !Avail(st', x)
    ensures |AvailSet(st)| == |AvailSet(st')| + Pow2(o)
  {
    RangeSize(p, Pow2(o));
    var r := Range(p, Pow2(o));
    assert forall x: nat :: x in r <==> InBlock(x, p, o);
    assert AvailSet(st) == AvailSet(st') + r;
    assert AvailSet(st') !! r;
  }

  /** The pages of a block are all free, one live allocation, or the one page is in a cache. */
  ghost predicate OneBlock(st: seq<nat>, caches: Caches, p: nat, o: nat)
    requires p + Pow2(o) <= |st|
  {
    || (forall x: nat :: InBlock(x, p, o) ==> st[x] <= MAX_ORDER)
    || (forall x: nat :: InBlock(x, p, o) ==> st[x] == USED + o)
    || (o == 0 && st[p] == BUFFERED && InCache(caches, p))
  }

  ghost predicate PageOk(st: seq<nat>, caches: Caches, x: nat)
    requires x < |st|
  {
    (st[x] == BUFFERED && InCache(caches, x)) || st[x] <= MAX_ORDER || IsUsed(st[x]) || st[x] == RESERVED
  }

  lemma InsideOk(st: seq<nat>, caches: Caches, p: nat, o: nat, x: nat)
    requires Aligned(p, o) && o <= MAX_ORDER && p + Pow2(o) <= |st| && OneBlock(st, caches, p, o) && InBlock(x, p, o)
    ensures UsedOk(st, x) && PageOk(st, caches, x)
  {
    BaseAligned(x, o);
    MeetSameOrder(x, p, Base(x, o), o);
  }

  /** The invariant after any operation that only concerns one block. */
  lemma Rebuild(st: seq<nat>, lists: Lists, caches: Caches, st': seq<nat>, lists': Lists, caches': Caches, p: nat, o: nat)
    requires PmmInv(st, lists, caches) && Inv(st', lists') && CachesOk(st', caches')
    requires Aligned(p, o) && o <= MAX_ORDER && p + Pow2(o) <= |st| && SameOutside(st, st', p, o)
    requires forall x: nat :: InBlock(x, p, o) ==> !IsUsed(st[x]) || st[x] == USED + o
    requires OneBlock(st', caches', p, o)
    requires forall x: nat :: InCache(caches, x) && !InBlock(x, p, o) ==> InCache(caches', x)
    ensures PmmInv(st', lists', caches')
  {
    OutsideKept(st, lists, caches, st', p, o);
    forall x: nat | x < |st'| ensures UsedOk(st', x) && PageOk(st', caches', x) {
      if InBlock(x, p, o) {
        InsideOk(st', caches', p, o, x);
      } else {
        assert st[x] > MAX_ORDER ==> st'[x] == st[x];
      }
    }
  }

  function Push(caches: Caches, c: nat, page: nat): Caches
    requires c < |caches|
  {
    caches[c := caches[c] + [page]]
  }

  function Pop(caches: Caches, c: nat): Caches
    requires c < |caches| && caches[c] != []
  {
    caches[c := caches[c][..|caches[c]| - 1]]
  }

  lemma PushOk(st: seq<nat>, caches: Caches, st': seq<nat>, c: nat, page: nat)
    requires CachesOk(st, caches) && c < |caches| && |caches[c]| < CACHE_SIZE
    requires SameOutside(st, st', page, 0) && page < |st| && st[page] != BUFFERED && st'[page] == BUFFERED
    ensures CachesOk(st', Push(caches, c, page)) && InCache(Push(caches, c, page), page)
    ensures forall x: nat :: InCache(caches, x) ==> InCache(Push(caches, c, page), x)
  {
    var c' := Push(caches, c, page);
    assert Cached(c', c, |caches[c]|) && c'[c][|caches[c]|] == page;
    forall d: nat, j: nat | Cached(caches, d, j) ensures Cached(c', d, j) && c'[d][j] == caches[d][j] != page {}
    forall d: nat, j: nat | Cached(c', d, j) && (d, j) != (c, |caches[c]|)
      ensures Cached(caches, d, j) && c'[d][j] == caches[d][j]
      ensures c'[d][j] < |st| && st'[c'[d][j]] == BUFFERED
    {
      assert st[caches[d][j]] == BUFFERED && !InBlock(caches[d][j], page, 0);
    }
  }

  lemma PopOk(st: seq<nat>, caches: Caches, st': seq<nat>, c: nat)
    requires CachesOk(st, caches) && c < |caches| && caches[c] != []
    requires var page := caches[c][|caches[c]| - 1]; SameOutside(st, st', page, 0)
    ensures CachesOk(st', Pop(caches, c))
    ensures var page := caches[c][|caches[c]| - 1];
            forall x: nat :: InCache(caches, x) && x != page ==> InCache(Pop(caches, c), x)
  {
    var c', n := Pop(caches, c), |caches[c]| - 1;
    var page := caches[c][n];
    assert Cached(caches, c, n);
    forall d: nat, j: nat | Cached(c', d, j)
      ensures Cached(caches, d, j) && c'[d][j] == caches[d][j] && c'[d][j] < |st| && st'[c'[d][j]] == BUFFERED
    {
      assert Cached(caches, d, j) && (d, j) != (c, n);
      assert !InBlock(caches[d][j], page, 0);
    }
    forall x: nat | InCache(caches, x) && x != page ensures InCache(c', x) {
      var d: nat, j: nat :| Cached(caches, d, j) && caches[d][j] == x;
      assert Cached(c', d, j);
    }
  }

  /** A page that is not free may change to another state that is not free. */
  lemma Restate(st: seq<nat>, lists: Lists, x: nat, v: nat)
    requires Inv(st, lists) && x < |st| && st[x] > MAX_ORDER && v > MAX_ORDER
    ensures Inv(st[x := v], lists) && SameOutside(st, st[x := v], x, 0)
  {
    OpenUsed(st, lists, x, 0);
    CloseUsed(st, lists, x, 0, v);
    assert Fill(st, x, 1, v) == st[x := v];
  }

  lemma CachesKept(st: seq<nat>, caches: Caches, st': seq<nat>, p: nat, o: nat)
    requires CachesOk(st, caches) && SameOutside(st, st', p, o)
    requires forall x: nat :: InBlock(x, p, o) ==> x < |st| && st[x] != BUFFERED
    ensures CachesOk(st', caches)
  {
    forall c: nat, i: nat | Cached(caches, c, i) ensures st'[caches[c][i]] == BUFFERED {
      assert !InBlock(caches[c][i], p, o);
    }
  }

  lemma TakenSet(st: seq<nat>, st': seq<nat>, p: nat, o: nat)
    requires SameOutside(st, st', p, o)
    requires forall x: nat :: InBlock(x, p, o) ==> x < |st| && !Avail(st', x)
    ensures AvailSet(st') == AvailSet(st) - Range(p, Pow2(o))
  {
    forall x: nat ensures x in AvailSet(st') <==> x in AvailSet(st) - Range(p, Pow2(o)) {
      if x < |st| && !InBlock(x, p, o) { assert Avail(st, x) <==> Avail(st', x); }
      assert x in Range(p, Pow2(o)) <==> InBlock(x, p, o);
    }
  }

  /** With fewer available pages than requested there is no run of free pages long enough. */
  lemma TooFewPages(st: seq<nat>, order: nat, pages: nat)
    requires |AvailSet(st)| < pages <= Pow2(order)
    ensures forall p: nat :: Aligned(p, order) ==> !AllFree(st, p, order)
  {
    forall p: nat | Aligned(p, order) ensures !AllFree(st, p, order) {
      if AllFree(st, p, order) { RunAvail(st, p, order); }
    }
  }

  lemma RunAvail(st: seq<nat>, p: nat, order: nat)
    requires AllFree(st, p, order)
    ensures |AvailSet(st)| >= Pow2(order)
  {
    RangeSize(p, Pow2(order));
    var r := Range(p, Pow2(order));
    forall x: nat | x in r ensures x in AvailSet(st) { assert InBlock(x, p, order) && IsFree(st, x); }
    assert AvailSet(st) == r + (AvailSet(st) - r);
  }

  lemma RefillKept(st: seq<nat>, st': seq<nat>)
    requires |st| == |st'| && AvailSet(st') == AvailSet(st)
    requires forall x: nat :: x < |st| && !Avail(st', x) ==> st'[x] == st[x]
    ensures Kept(st, st')
  {
    forall x: nat | x < |st| && !Avail(st, x) ensures st'[x] == st[x] { assert x !in AvailSet(st'); }
  }

  lemma OneTaken(st: seq<nat>, st1: seq<nat>, page: nat)
    requires AvailSet(st1) == AvailSet(st) && Kept(st, st1) && Avail(st1, page)
    ensures Took(st, st1[page := USED], page, 0)
  {
    assert page in AvailSet(st);
    assert Range(page, 1) == {page};
    assert AvailSet(st1[page := USED]) == AvailSet(st1) - {page};
  }

  /** A block of available pages became a live allocation, and nothing else changed hands. */
  ghost predicate Took(st: seq<nat>, st': seq<nat>, page: nat, o: nat) {
    && |st| == |st'| && Live(st', page, o)
    && (forall x: nat :: InBlock(x, page, o) ==> Avail(st, x) && st'[x] == USED + o)
    && AvailSet(st') == AvailSet(st) - Range(page, Pow2(o))
    && Kept(st, st')
  }

  /** Pages in use and reserved pages keep their state. */
  ghost predicate Kept(st: seq<nat>, st': seq<nat>) {
    |st| == |st'| && forall x: nat :: x < |st| && !Avail(st, x) ==> st'[x] == st[x]
  }

  /** A live block became available, and nothing else changed hands. */
  ghost predicate Gave(st: seq<nat>, st': seq<nat>, page: nat, o: nat) {
    && |st| == |st'| && Live(st, page, o)
    && AvailSet(st') == AvailSet(st) + Range(page, Pow2(o))
    && forall x: nat :: x < |st| && !Avail(st', x) ==> st'[x] == st[x]
  }

  lemma GaveOne(st: seq<nat>, st': seq<nat>, page: nat)
    requires |st'| == |st| && Live(st, page, 0) && AvailSet(st') == AvailSet(st) + {page}
    requires forall x: nat :: x < |st| && !Avail(st', x) ==> st'[x] == st[x]
    ensures Gave(st, st', page, 0)
  {
    assert Range(page, Pow2(0)) == {page};
  }

  lemma GaveHas(st: seq<nat>, st': seq<nat>, p: nat, o: nat, x: nat)
    requires Gave(st, st', p, o) && InBlock(x, p, o)
    ensures Avail(st', x)
  {
    assert x in Range(p, Pow2(o));
    assert x in AvailSet(st');
  }

  /** A usable memory-map entry, in bytes. */
  datatype Entry = Entry(base: nat, length: nat)

  predicate Skipped(e: Entry) {
    e.length < PAGE_SIZE || (e.base + PAGE_SIZE - 1) / PAGE_SIZE * PAGE_SIZE >= e.base + e.length
  }

  /** First whole page of an entry and the number of whole pages, as `pmm_init` rounds them. */
  function RegionOf(e: Entry): (nat, nat) {
    var first := (e.base + PAGE_SIZE - 1) / PAGE_SIZE;
    if Skipped(e) then (first, 0)
    else (first, (e.base + e.length - first * PAGE_SIZE) / PAGE_SIZE)
  }

  predicate InRegion(e: Entry, x: nat) { InRange(x, RegionOf(e).0, RegionOf(e).1) }

  /** A page is in the rounded region exactly when the entry covers all of it. */
  lemma RegionIsWholePages(e: Entry, x: nat)
    ensures InRegion(e, x) <==> e.base <= x * PAGE_SIZE && (x + 1) * PAGE_SIZE <= e.base + e.length
  {
  }

  predicate NoOverlap(entries: seq<Entry>) {
    forall i, j :: 0 <= i < j < |entries| ==>
      entries[i].base + entries[i].length <= entries[j].base || entries[j].base + entries[j].length <= entries[i].base
  }

  function MaxEnd(entries: seq<Entry>): (m: nat)
    ensures forall i :: 0 <= i < |entries| ==> entries[i].base + entries[i].length <= m
    ensures m > 0 ==> exists i :: 0 <= i < |entries| && entries[i].base + entries[i].length == m
  {
    if entries == [] then 0
    else
      var n := |entries| - 1;
      var m, e := MaxEnd(entries[..n]), entries[n].base + entries[n].length;
      if e > m then e else m
  }

  function TotalPages(entries: seq<Entry>): nat { (MaxEnd(entries) + PAGE_SIZE - 1) / PAGE_SIZE }

  /** As many pages as reach the end of usable memory, and no more. */
  lemma PagesLeast(entries: seq<Entry>)
    ensures forall i :: 0 <= i < |entries| ==> entries[i].base + entries[i].length <= TotalPages(entries) * PAGE_SIZE
    ensures TotalPages(entries) > 0 ==>
      exists i :: 0 <= i < |entries| && entries[i].base + entries[i].length > (TotalPages(entries) - 1) * PAGE_SIZE
  {
  }

  /** The regions of the first `n` entries that are not skipped. */
  function RegionsOf(entries: seq<Entry>, n: nat): (r: seq<(nat, nat)>)
    requires n <= |entries|
    ensures |r| <= n
  {
    if n == 0 then []
    else RegionsOf(entries, n - 1) + if Skipped(entries[n - 1]) then [] else [RegionOf(entries[n - 1])]
  }

  /** The first 128 regions, which are all that are kept. */
  function First(regions: seq<(nat, nat)>): seq<(nat, nat)> {
    if |regions| <= 128 then regions else regions[..128]
  }

  lemma ManagedMore(regions: seq<(nat, nat)>, region: (nat, nat), x: nat)
    ensures Managed(regions + [region], x) <==> Managed(regions, x) || InRange(x, region.0, region.1)
  {
    var more := regions + [region];
    assert more[|regions|] == region;
    if Managed(regions, x) {
      var m :| 0 <= m < |regions| && InRange(x, regions[m].0, regions[m].1);
      assert more[m] == regions[m];
    }
  }

  lemma {:induction false} RegionsUsable(entries: seq<Entry>, n: nat, x: nat)
    requires n <= |entries|
    ensures Managed(RegionsOf(entries, n), x) <==> Usable(entries, n, x)
  {
    if n > 0 {
      RegionsUsable(entries, n - 1, x);
      ManagedMore(RegionsOf(entries, n - 1), RegionOf(entries[n - 1]), x);
      assert RegionsOf(entries, n - 1) + [] == RegionsOf(entries, n - 1);
      assert Usable(entries, n, x) <==> Usable(entries, n - 1, x) || InRegion(entries[n - 1], x);
    }
  }

  /** Where a region comes from. */
  lemma {:induction false} RegionFrom(entries: seq<Entry>, n: nat, k: nat) returns (i: nat)
    requires n <= |entries| && k < |RegionsOf(entries, n)|
    ensures k <= i < n && RegionsOf(entries, n)[k] == RegionOf(entries[i]) && |RegionsOf(entries, i)| == k
  {
    if k < |RegionsOf(entries, n - 1)| { i := RegionFrom(entries, n - 1, k); } else { i := n - 1; }
  }

  /** No page is in two of the regions. */
  lemma RegionsApart(entries: seq<Entry>, j: nat, k: nat, x: nat)
    requires NoOverlap(entries) && j < k < |RegionsOf(entries, |entries|)|
    requires var r := RegionsOf(entries, |entries|); InRange(x, r[j].0, r[j].1)
    ensures var r := RegionsOf(entries, |entries|); !InRange(x, r[k].0, r[k].1)
  {
    var a := RegionFrom(entries, |entries|, j);
    var b := RegionFrom(entries, |entries|, k);
    RegionIsWholePages(entries[a], x);
    RegionIsWholePages(entries[b], x);
  }

  /** The regions after the first 128 hold no page. */
  predicate NoneBeyond(entries: seq<Entry>) {
    var all := RegionsOf(entries, |entries|);
    forall k :: 128 <= k < |all| ==> all[k].1 == 0
  }

  /** All usable pages are in regions that are kept if and only if those after the first 128 hold no page. */
  lemma FirstSuffices(entries: seq<Entry>)
    requires NoOverlap(entries)
    ensures (forall x: nat :: Usable(entries, |entries|, x) ==> Managed(First(RegionsOf(entries, |entries|)), x)) <==> NoneBeyond(entries)
  {
    var all := RegionsOf(entries, |entries|);
    if forall x: nat :: Usable(entries, |entries|, x) ==> Managed(First(all), x) {
      forall k | 128 <= k < |all| ensures all[k].1 == 0 {
        var x := all[k].0;
        RegionsUsable(entries, |entries|, x);
        if all[k].1 > 0 {
          assert InRange(x, all[k].0, all[k].1);
          assert Managed(all, x) && Managed(First(all), x);
          var j :| 0 <= j < |First(all)| && InRange(x, First(all)[j].0, First(all)[j].1);
          RegionsApart(entries, j, k, x);
        }
      }
    }
    if forall k :: 128 <= k < |all| ==> all[k].1 == 0 {
      forall x: nat | Usable(entries, |entries|, x) ensures Managed(First(all), x) {
        RegionsUsable(entries, |entries|, x);
        var m :| 0 <= m < |all| && InRange(x, all[m].0, all[m].1);
        assert First(all)[m] == all[m];
      }
    }
  }

  predicate Managed(regions: seq<(nat, nat)>, x: nat) {
    exists i :: 0 <= i < |regions| && InRange(x, regions[i].0, regions[i].1)
  }

  lemma GaveBlock(st: seq<nat>, st': seq<nat>, p: nat, o: nat)
    requires SameOutside(st, st', p, o) && Live(st, p, o) && AllFree(st', p, o)
    ensures Gave(st, st', p, o)
  {
    forall x: nat ensures x in AvailSet(st') <==> x in AvailSet(st) + Range(p, Pow2(o)) {
      if InBlock(x, p, o) { assert IsFree(st', x); }
      assert x in Range(p, Pow2(o)) <==> InBlock(x, p, o);
    }
    forall x: nat | x < |st| && !Avail(st', x) ensures st'[x] == st[x] {
      assert InBlock(x, p, o) ==> IsFree(st', x);
    }
  }

  lemma GrownSet(st: seq<nat>, st': seq<nat>, first: nat, count: nat)
    requires |st| == |st'| && first + count <= |st|
    requires forall x: nat :: InRange(x, first, count) ==> !Avail(st, x)
    requires forall x: nat :: x < |st| ==>
      if InRange(x, first, count) || IsFree(st, x) then IsFree(st', x) else st'[x] == st[x]
    ensures |AvailSet(st')| == |AvailSet(st)| + count
  {
    RangeSize(first, count);
    assert AvailSet(st') == AvailSet(st) + Range(first, count);
  }

  /** One of the first `n` entries covers all of page `x`. */
  predicate Usable(entries: seq<Entry>, n: nat, x: nat)
    requires n <= |entries|
  {
    exists k :: 0 <= k < n && InRegion(entries[k], x)
  }

  /** Exactly the pages of the first `n` entries are free, all others reserved. */
  ghost predicate Loaded(st: seq<nat>, entries: seq<Entry>, n: nat)
    requires n <= |entries|
  {
    forall x: nat :: x < |st| ==> if Usable(entries, n, x) then IsFree(st, x) else st[x] == RESERVED
  }

  lemma NothingLoaded(st: seq<nat>, lists: seq<seq<nat>>, entries: seq<Entry>)
    requires |lists| == MAX_ORDER + 1 && (forall o :: 0 <= o <= MAX_ORDER ==> lists[o] == []) && forall x :: 0 <= x < |st| ==> st[x] == RESERVED
    ensures Inv(st, lists) && Loaded(st, entries, 0) && |AvailSet(st)| == 0
  {
    assert AvailSet(st) == {};
  }

  lemma AllLoaded(st: seq<nat>, entries: seq<Entry>)
    requires NoOverlap(entries) && |st| == TotalPages(entries) && Loaded(st, entries, |entries|)
    ensures AllIn(st, First(RegionsOf(entries, |entries|))) <==> NoneBeyond(entries)
  {
    FirstSuffices(entries);
    forall x: nat | Usable(entries, |entries|, x) ensures x < |st| && IsFree(st, x) {
      var k :| 0 <= k < |entries| && InRegion(entries[k], x);
      RegionIsWholePages(entries[k], x);
    }
  }

  lemma RegionFresh(st: seq<nat>, entries: seq<Entry>, i: nat)
    requires i < |entries| && NoOverlap(entries) && |st| == TotalPages(entries) && Loaded(st, entries, i)
    ensures var r := RegionOf(entries[i]);
            r.1 > 0 ==> r.0 + r.1 <= |st|
    ensures forall x: nat :: InRegion(entries[i], x) ==> x < |st| && st[x] == RESERVED
  {
    forall x: nat | InRegion(entries[i], x) ensures x < |st| && !Usable(entries, i, x) {
      RegionIsWholePages(entries[i], x);
      if Usable(entries, i, x) {
        var k :| 0 <= k < i && InRegion(entries[k], x);
        RegionIsWholePages(entries[k], x);
      }
    }
    var r := RegionOf(entries[i]);
    if r.1 > 0 { RegionIsWholePages(entries[i], r.0 + r.1 - 1); }
  }

  lemma LoadedStep(st: seq<nat>, st': seq<nat>, entries: seq<Entry>, i: nat)
    requires i < |entries| && |st| == |st'| && Loaded(st, entries, i)
    requires var r := RegionOf(entries[i]);
      && r.0 + r.1 <= |st|
      && (forall x: nat :: InRange(x, r.0, r.1) ==> st[x] == RESERVED)
      && forall x: nat :: x < |st| ==> if InRange(x, r.0, r.1) || IsFree(st, x) then IsFree(st', x) else st'[x] == st[x]
    ensures Loaded(st', entries, i + 1) && |AvailSet(st')| == |AvailSet(st)| + RegionOf(entries[i]).1
  {
    GrownSet(st, st', RegionOf(entries[i]).0, RegionOf(entries[i]).1);
    forall x: nat | x < |st| ensures Usable(entries, i + 1, x) <==> Usable(entries, i, x) || InRegion(entries[i], x) {}
  }

  lemma NoListedNoRun(st: seq<nat>, lists: Lists, order: nat)
    requires Inv(st, lists) && order <= MAX_ORDER
    requires forall k: nat :: order <= k <= MAX_ORDER ==> lists[k] == []
    ensures forall p: nat :: Aligned(p, order) ==> !AllFree(st, p, order)
  {
    forall p: nat | Aligned(p, order) ensures !AllFree(st, p, order) {
      if AllFree(st, p, order) { var q, k := FreeRunListed(st, lists, p, order); }
    }
  }

  lemma SplitOutside(st: seq<nat>, before: seq<nat>, page: nat, o: nat)
    requires page + Pow2(o + 1) <= |st| && o <= MAX_ORDER && SameOutside(st, before, page, o + 1)
    requires Pow2(o + 1) == Pow2(o) + Pow2(o)
    requires forall x: nat :: InBlock(x, page, o + 1) ==> IsFree(st, x)
    ensures SameOutside(st, Fill(before, page + Pow2(o), Pow2(o), o), page, o)
  {
    var st' := Fill(before, page + Pow2(o), Pow2(o), o);
    forall x: nat | x < |st| && !InBlock(x, page, o)
      ensures (st[x] <= MAX_ORDER <==> st'[x] <= MAX_ORDER) && (st[x] > MAX_ORDER ==> st'[x] == st[x])
    {
      if InBlock(x, page, o + 1) { assert IsFree(st, x) && st'[x] == o; } else { assert st'[x] == before[x]; }
    }
  }

  /** A page taken from the free lists goes into a CPU's cache, and stays available. */
  lemma BufferStep(st: seq<nat>, lists: Lists, caches: Caches, st1: seq<nat>, lists1: Lists, cpu: nat, page: nat)
    requires PmmInv(st, lists, caches) && Inv(st1, lists1) && cpu < |caches| && |caches[cpu]| < CACHE_SIZE
    requires SameOutside(st, st1, page, 0) && page < |st| == |st1| && AllFree(st, page, 0) && st1[page] == USED
    ensures var st' := st1[page := BUFFERED];
      && PmmInv(st', lists1, Push(caches, cpu, page)) && AvailSet(st') == AvailSet(st)
      && forall x: nat :: x < |st| && !Avail(st', x) ==> st'[x] == st[x]
  {
    var st' := st1[page := BUFFERED];
    assert InBlock(page, page, 0) && IsFree(st, page);
    Restate(st1, lists1, page, BUFFERED);
    PushOk(st, caches, st', cpu, page);
    Rebuild(st, lists, caches, st', lists1, Push(caches, cpu, page), page, 0);
    assert AvailSet(st') == AvailSet(st);
  }

  ghost predicate AllIn(st: seq<nat>, regions: seq<(nat, nat)>) {
    forall x: nat :: x < |st| && st[x] != RESERVED ==> Managed(regions, x)
  }

  /** There is no block of `2^o` pages: no aligned run of free pages, or for one page nothing free and nothing cached. */
  ghost predicate NoBlock(st: seq<nat>, caches: Caches, cpu: nat, o: nat)
    requires cpu < |caches|
  {
    if o == 0 then caches[cpu] == [] && forall x: nat :: !IsFree(st, x)
    else o > MAX_ORDER || forall p: nat :: Aligned(p, o) ==> !AllFree(st, p, o)
  }

  class Manager {
    var state: array<nat>
    var lists: Lists
    var caches: Caches
    var freePages: int
    var regions: seq<(nat, nat)>

    ghost predicate Valid()
      reads this, state
    {
      && PmmInv(state[..], lists, caches)
      && freePages == |AvailSet(state[..])|
    }

    /** Every page that is not reserved lies in a region, so `pmm_free` takes it back. */
    ghost predicate AllManaged()
      reads this, state
    {
      AllIn(state[..], regions)
    }

    method StateFill(page: nat, pages: nat, value: nat)
      requires page + pages <= state.Length
      modifies state
      ensures state[..] == Fill(old(state[..]), page, pages, value)
    {
      forall i | page <= i < page + pages { state[i] := value; }
    }

    /** One pass of the split loop: the upper half goes to its free list. */
    method SplitOnce(ghost st: seq<nat>, page: nat, found: nat)
      requires found < MAX_ORDER && HoleInv(state[..], lists, page, found + 1) && SameOutside(st, state[..], page, found + 1)
      requires forall x: nat :: InBlock(x, page, found + 1) ==> IsFree(st, x)
      modifies this`lists, state
      ensures HoleInv(state[..], lists, page, found) && SameOutside(st, state[..], page, found)
    {
      SplitOff(state[..], lists, page, found);
      var buddy := page + Pow2(found);
      ghost var before := state[..];
      StateFill(buddy, Pow2(found), found);
      lists := ListAdd(lists, buddy, found);
      SplitOutside(st, before, page, found);
    }

    /** Hands the upper halves of a block back to the free lists until `order` is reached. */
    method SplitDown(ghost st: seq<nat>, page: nat, found0: nat, order: nat)
      requires order <= found0 && HoleInv(state[..], lists, page, found0)
      requires state[..] == st && forall x: nat :: InBlock(x, page, found0) ==> IsFree(st, x)
      modifies this`lists, state
      ensures HoleInv(state[..], lists, page, order)
      ensures SameOutside(st, state[..], page, order)
      ensures AllFree(st, page, order)
    {
      var found: nat := found0;
      while found > order
        invariant order <= found <= MAX_ORDER
        invariant HoleInv(state[..], lists, page, found)
        invariant SameOutside(st, state[..], page, found)
        invariant forall x: nat :: InBlock(x, page, found) ==> IsFree(st, x)
      {
        found := found - 1;
        SplitOnce(st, page, found);
      }
    }

    /**
     Takes a block of the given order. It fails exactly when no aligned run of 2^order free pages
     exists, however the free pages came about.
     */
    method BuddyAlloc(order: nat) returns (r: Option<nat>)
      requires order <= MAX_ORDER && Inv(state[..], lists)
      modifies this`lists, state
      ensures Inv(state[..], lists)
      ensures r.None? ==> state[..] == old(state[..]) && lists == old(lists)
      ensures r.None? <==> forall p: nat :: Aligned(p, order) ==> !AllFree(old(state[..]), p, order)
      ensures r.Some? ==>
        && Aligned(r.value, order) && r.value + Pow2(order) <= state.Length
        && AllFree(old(state[..]), r.value, order)
        && (forall x: nat :: InBlock(x, r.value, order) ==> state[x] == USED + order)
        && SameOutside(old(state[..]), state[..], r.value, order)
    {
      ghost var st := state[..];
      var found: nat := order;
      while found <= MAX_ORDER && lists[found] == []
        invariant order <= found <= MAX_ORDER + 1
        invariant forall k: nat :: order <= k < found ==> lists[k] == []
      {
        found := found + 1;
      }
      if found > MAX_ORDER {
        NoListedNoRun(st, lists, order);
        return None;
      }

      var page := lists[found][0];
      assert Listed(lists, page, found) && BlockOk(st, page, found);
      OpenFree(st, lists, page, found);
      lists := ListRemove(lists, page, found);

      SplitDown(st, page, found, order);
      CloseUsed(state[..], lists, page, order, USED + order);
      StateFill(page, Pow2(order), USED + order);
      r := Some(page);
    }

    /** The merge loop of `buddy_free`: takes free buddies off their lists while the hole has one. */
    method MergeUp(page0: nat, order0: nat) returns (page: nat, order: nat)
      requires HoleInv(state[..], lists, page0, order0)
      modifies this`lists
      ensures order0 <= order && HoleInv(state[..], lists, page, order)
      ensures order < MAX_ORDER ==> !Listed(lists, BuddyOf(page, order), order)
      ensures forall x: nat :: InBlock(x, page0, order0) ==> InBlock(x, page, order)
      ensures forall x: nat :: InBlock(x, page, order) ==> InBlock(x, page0, order0) || IsFree(state[..], x)
    {
      ghost var st := state[..];
      page, order := page0, order0;
      while order < MAX_ORDER
        invariant order0 <= order <= MAX_ORDER && HoleInv(st, lists, page, order)
        invariant forall x: nat :: InBlock(x, page0, order0) ==> InBlock(x, page, order)
        invariant forall x: nat :: InBlock(x, page, order) ==> InBlock(x, page0, order0) || IsFree(st, x)
      {
        var buddy := BuddyOf(page, order);
        BuddyHalves(page, order);
        assert Listed(lists, buddy, order) ==> BlockOk(st, buddy, order);
        if buddy + Pow2(order) > state.Length { break; }
        if state[buddy] != order { break; }
        Merge(st, lists, page, order);
        lists := ListRemove(lists, buddy, order);
        if buddy < page { page := buddy; }
        order := order + 1;
      }
    }

    /** Returns a block, merging it with its free buddies as far up as they go. */
    method BuddyFree(page0: nat, order0: nat)
      requires order0 <= MAX_ORDER && Inv(state[..], lists)
      requires Aligned(page0, order0) && page0 + Pow2(order0) <= state.Length
      requires forall x: nat :: InBlock(x, page0, order0) ==> state[x] > MAX_ORDER
      modifies this`lists, state
      ensures Inv(state[..], lists)
      ensures AllFree(state[..], page0, order0)
      ensures SameOutside(old(state[..]), state[..], page0, order0)
    {
      ghost var st := state[..];
      OpenUsed(st, lists, page0, order0);
      var page, order := MergeUp(page0, order0);
      CloseFree(st, lists, page, order);
      StateFill(page, Pow2(order), order);
      lists := ListAdd(lists, page, order);
    }

    /** One page off the CPU's cache; the caller has made sure the cache is not empty. */
    method PopCached(cpu: nat) returns (page: nat)
      requires Valid() && cpu < |caches| && caches[cpu] != []
      modifies this`caches, this`freePages, state
      ensures Valid() && page < state.Length && |caches| == old(|caches|)
      ensures Avail(old(state[..]), page) && state[..] == old(state[..])[page := USED]
    {
      ghost var st := state[..];
      page := caches[cpu][|caches[cpu]| - 1];
      assert Cached(caches, cpu, |caches[cpu]| - 1);
      Restate(st, lists, page, USED);
      PopOk(st, caches, st[page := USED], cpu);
      Rebuild(st, lists, caches, st[page := USED], lists, Pop(caches, cpu), page, 0);
      AvailCount(st, st[page := USED], page, 0);
      caches := Pop(caches, cpu);
      state[page] := USED;
      freePages := freePages - 1;
      assert state[..] == st[page := USED];
    }

    /** Buffers one free page, if there is one. */
    method BufferOne(cpu: nat) returns (ok: bool)
      requires Valid() && cpu < |caches| && |caches[cpu]| < CACHE_SIZE
      modifies this`caches, this`lists, state
      ensures Valid() && |caches| == old(|caches|)
      ensures AvailSet(state[..]) == AvailSet(old(state[..]))
      ensures forall x: nat :: x < state.Length && !Avail(state[..], x) ==> state[x] == old(state[x])
      ensures ok <==> exists x: nat :: IsFree(old(state[..]), x)
      ensures |caches[cpu]| == old(|caches[cpu]|) + if ok then 1 else 0
    {
      ghost var st, lists0 := state[..], lists;
      var r := BuddyAlloc(0);
      if r == None {
        forall x: nat | x < |st| ensures !IsFree(st, x) { assert Aligned(x, 0) && !AllFree(st, x, 0); }
        return false;
      }
      var page := r.value;
      BufferStep(st, lists0, caches, state[..], lists, cpu, page);
      ghost var st1 := state[..];
      state[page] := BUFFERED;
      assert state[..] == st1[page := BUFFERED];
      caches := Push(caches, cpu, page);
      return true;
    }

    /** Moves free pages into the CPU's cache until it is full or none is left. */
    method Refill(cpu: nat)
      requires Valid() && cpu < |caches| && caches[cpu] == []
      modifies this`caches, this`lists, state
      ensures Valid() && |caches| == old(|caches|)
      ensures AvailSet(state[..]) == AvailSet(old(state[..]))
      ensures forall x: nat :: x < state.Length && !Avail(state[..], x) ==> state[x] == old(state[x])
      ensures caches[cpu] == [] <==> forall x: nat :: !IsFree(old(state[..]), x)
    {
      ghost var st0 := state[..];
      var more := true;
      while more && |caches[cpu]| < CACHE_SIZE
        invariant Valid() && |caches| == old(|caches|)
        invariant AvailSet(state[..]) == AvailSet(st0)
        invariant forall x: nat :: x < state.Length && !Avail(state[..], x) ==> state[x] == st0[x]
        invariant more && caches[cpu] == [] ==> state[..] == st0
        invariant !more || caches[cpu] != [] ==> (caches[cpu] == [] <==> forall x: nat :: !IsFree(st0, x))
        decreases more, CACHE_SIZE - |caches[cpu]|
      {
        more := BufferOne(cpu);
      }
    }

    /** `pmm_alloc_cached`: fails only when this CPU's cache is empty and no page is on a free list. */
    method AllocCached(cpu: nat) returns (r: Option<nat>)
      requires Valid() && cpu < |caches|
      modifies this`caches, this`lists, this`freePages, state
      ensures Valid() && |caches| == old(|caches|)
      ensures r.None? <==> old(caches[cpu]) == [] && forall x: nat :: !IsFree(old(state[..]), x)
      ensures r.None? ==> AvailSet(state[..]) == AvailSet(old(state[..])) && Kept(old(state[..]), state[..])
      ensures r.Some? ==> Took(old(state[..]), state[..], r.value, 0)
    {
      ghost var st0 := state[..];
      if caches[cpu] == [] {
        Refill(cpu);
        RefillKept(st0, state[..]);
        if caches[cpu] == [] { return None; }
      }
      ghost var st1 := state[..];
      var page := PopCached(cpu);
      OneTaken(st0, st1, page);
      r := Some(page);
    }

    /** Returns the newest page of the CPU's cache to the free lists. */
    method FlushOne(cpu: nat)
      requires Valid() && cpu < |caches| && caches[cpu] != []
      modifies this`caches, this`lists, state
      ensures Valid() && |caches| == old(|caches|) && |caches[cpu]| == old(|caches[cpu]|) - 1
      ensures AvailSet(state[..]) == AvailSet(old(state[..]))
      ensures forall x: nat :: x < state.Length && !Avail(state[..], x) ==> state[x] == old(state[x])
    {
      ghost var st, lists0 := state[..], lists;
      var page := caches[cpu][|caches[cpu]| - 1];
      assert Cached(caches, cpu, |caches[cpu]| - 1);
      BuddyFree(page, 0);
      assert InBlock(page, page, 0);
      PopOk(st, caches, state[..], cpu);
      Rebuild(st, lists0, caches, state[..], lists, Pop(caches, cpu), page, 0);
      caches := Pop(caches, cpu);
      assert AvailSet(state[..]) == AvailSet(st);
    }

    /** Puts a one-page allocation into the CPU's cache, which has room. */
    method PushCached(cpu: nat, page: nat)
      requires Valid() && cpu < |caches| && |caches[cpu]| < CACHE_SIZE && page < state.Length && state[page] == USED
      modifies this`caches, this`freePages, state
      ensures Valid() && |caches| == old(|caches|)
      ensures state[..] == old(state[..])[page := BUFFERED]
    {
      ghost var st := state[..];
      Restate(st, lists, page, BUFFERED);
      PushOk(st, caches, st[page := BUFFERED], cpu, page);
      Rebuild(st, lists, caches, st[page := BUFFERED], lists, Push(caches, cpu, page), page, 0);
      AvailCount(st[page := BUFFERED], st, page, 0);
      state[page] := BUFFERED;
      caches := Push(caches, cpu, page);
      freePages := freePages + 1;
      assert state[..] == st[page := BUFFERED];
    }

    method FlushHalf(cpu: nat)
      requires Valid() && cpu < |caches| && |caches[cpu]| == CACHE_SIZE
      modifies this`caches, this`lists, state
      ensures Valid() && |caches| == old(|caches|) && |caches[cpu]| == CACHE_SIZE / 2
      ensures AvailSet(state[..]) == AvailSet(old(state[..]))
      ensures forall x: nat :: x < state.Length && !Avail(state[..], x) ==> state[x] == old(state[x])
    {
      while |caches[cpu]| > CACHE_SIZE / 2
        invariant Valid() && |caches| == old(|caches|) && |caches[cpu]| >= CACHE_SIZE / 2
        invariant AvailSet(state[..]) == AvailSet(old(state[..]))
        invariant forall x: nat :: x < state.Length && !Avail(state[..], x) ==> state[x] == old(state[x])
        decreases |caches[cpu]|
      {
        FlushOne(cpu);
      }
    }

    /** `pmm_free_cached`: buffers a one-page allocation, first flushing half of a full cache. */
    method FreeCached(cpu: nat, page: nat)
      requires Valid() && cpu < |caches| && page < state.Length && state[page] == USED
      modifies this`caches, this`lists, this`freePages, state
      ensures Valid() && |caches| == old(|caches|)
      ensures AvailSet(state[..]) == AvailSet(old(state[..])) + {page}
      ensures forall x: nat :: x < state.Length && !Avail(state[..], x) ==> state[x] == old(state[x])
    {
      ghost var st0 := state[..];
      if |caches[cpu]| == CACHE_SIZE {
        FlushHalf(cpu);
        assert page !in AvailSet(st0);
      }
      ghost var st := state[..];
      PushCached(cpu, page);
      assert AvailSet(state[..]) == AvailSet(st) + {page};
    }

    /** The locked part of `pmm_alloc`, for blocks of two pages and more. */
    method AllocBlock(order: nat, pages: nat) returns (r: Option<nat>)
      requires Valid() && 1 <= order <= MAX_ORDER && pages <= Pow2(order)
      modifies this`lists, this`freePages, state
      ensures Valid()
      ensures r.None? ==> state[..] == old(state[..]) && lists == old(lists) && freePages == old(freePages)
      ensures r.None? <==> forall p: nat :: Aligned(p, order) ==> !AllFree(old(state[..]), p, order)
      ensures r.Some? ==>
        Took(old(state[..]), state[..], r.value, order) && AllFree(old(state[..]), r.value, order)
    {
      ghost var st, lists0 := state[..], lists;
      if pages > freePages {
        TooFewPages(st, order, pages);
        return None;
      }
      r := BuddyAlloc(order);
      if r.Some? {
        assert InBlock(r.value, r.value, order);
        CachesKept(st, caches, state[..], r.value, order);
        Rebuild(st, lists0, caches, state[..], lists, caches, r.value, order);
        AvailCount(st, state[..], r.value, order);
        TakenSet(st, state[..], r.value, order);
        forall x: nat | InBlock(x, r.value, order) ensures Avail(st, x) { assert IsFree(st, x); }
        freePages := freePages - Pow2(order);
      }
    }

    /**
     `pmm_alloc`, returning a page number. On success the caller owns a block of 2^order pages, `order`
     the least that fits, aligned to its size and taken from pages that were available. A request of
     more than one page fails exactly when it is too large or no aligned run of free pages fits it.
     */
    method Alloc(cpu: nat, pages: nat) returns (r: Option<nat>)
      requires Valid() && cpu < |caches|
      modifies this`caches, this`lists, this`freePages, state
      ensures Valid() && |caches| == old(|caches|)
      ensures r.Some? ==> pages >= 1 && Took(old(state[..]), state[..], r.value, OrderForPages(pages))
      ensures r.None? ==> AvailSet(state[..]) == AvailSet(old(state[..])) && Kept(old(state[..]), state[..])
      ensures r.None? <==> pages == 0 || NoBlock(old(state[..]), old(caches), cpu, OrderForPages(pages))
      ensures OrderForPages(pages) > 0 ==> caches == old(caches)
    {
      if pages == 0 { return None; }
      var order := OrderForPages(pages);
      if order > MAX_ORDER { return None; }
      if order == 0 {
        r := AllocCached(cpu);
      } else {
        r := AllocBlock(order, pages);
      }
    }

    /** The locked part of `pmm_free`, for blocks of two pages and more. */
    method FreeBlock(base: nat, order: nat)
      requires Valid() && 1 <= order && Live(state[..], base, order)
      modifies this`lists, this`freePages, state
      ensures Valid() && Gave(old(state[..]), state[..], base, order)
    {
      ghost var st, lists0 := state[..], lists;
      LivePages(st, lists, caches, base, order);
      BuddyFree(base, order);
      CachesKept(st, caches, state[..], base, order);
      forall x: nat | InBlock(x, base, order) ensures state[x] <= MAX_ORDER { assert IsFree(state[..], x); }
      Rebuild(st, lists0, caches, state[..], lists, caches, base, order);
      AvailCount(state[..], st, base, order);
      GaveBlock(st, state[..], base, order);
      freePages := freePages + Pow2(order);
    }

    /** Frees the live block that holds page `start`. */
    method FreeLive(cpu: nat, start: nat)
      requires Valid() && cpu < |caches| && start < state.Length && IsUsed(state[start])
      modifies this`caches, this`lists, this`freePages, state
      ensures Valid() && |caches| == old(|caches|)
      ensures var o := old(state[start]) - USED;
        && Gave(old(state[..]), state[..], Base(start, o), o) && InBlock(start, Base(start, o), o)
        && Avail(state[..], start)
    {
      ghost var st := state[..];
      var order := state[start] - USED;
      LiveAround(st, lists, caches, start);
      var base := Base(start, order);
      if order == 0 {
        FreeCached(cpu, base);
        GaveOne(st, state[..], base);
      } else {
        FreeBlock(base, order);
      }
      GaveHas(st, state[..], base, order, start);
    }

    /** What `pmm_free` checks before it touches anything. */
    predicate Freeable(addr: nat, pages: nat)
      reads this, state
    {
      var start := addr / PAGE_SIZE;
      && pages > 0 && addr % PAGE_SIZE == 0 && start < state.Length && pages <= state.Length - start
      && Managed(regions, start) && IsUsed(state[start])
    }

    /**
     `pmm_free`. Any page of a live block names the whole block, which becomes available once; anything
     else, a second free included, changes nothing.
     */
    method Free(cpu: nat, addr: nat, pages: nat)
      requires Valid() && cpu < |caches|
      modifies this`caches, this`lists, this`freePages, state
      ensures Valid() && |caches| == old(|caches|)
      ensures !old(Freeable(addr, pages)) ==>
        state[..] == old(state[..]) && lists == old(lists) && caches == old(caches) && freePages == old(freePages)
      ensures old(Freeable(addr, pages)) ==>
        var start := addr / PAGE_SIZE;
        var o := old(state[start]) - USED;
        && Gave(old(state[..]), state[..], Base(start, o), o) && InBlock(start, Base(start, o), o)
        && !Freeable(addr, pages)
    {
      if pages == 0 || addr % PAGE_SIZE != 0 { return; }
      var start := addr / PAGE_SIZE;
      if start >= state.Length || pages > state.Length - start { return; }
      if !Managed(regions, start) { return; }
      if state[start] < USED { return; }
      if state[start] - USED > MAX_ORDER { return; }
      FreeLive(cpu, start);
    }

    /** `pmm_init` hands one region to the buddy allocator, page by page. */
    method FreeRegion(first: nat, count: nat)
      requires Inv(state[..], lists) && first + count <= state.Length
      requires forall x: nat :: InRange(x, first, count) ==> state[x] == RESERVED
      modifies this`lists, state
      ensures Inv(state[..], lists)
      ensures forall x: nat :: x < state.Length ==>
        if InRange(x, first, count) || IsFree(old(state[..]), x) then IsFree(state[..], x) else state[x] == old(state[x])
    {
      for j := 0 to count
        invariant Inv(state[..], lists)
        invariant forall x: nat :: x < state.Length ==>
          if InRange(x, first, j) || IsFree(old(state[..]), x) then IsFree(state[..], x) else state[x] == old(state[x])
      {
        ghost var st := state[..];
        assert InRange(first + j, first, count) && !IsFree(old(state[..]), first + j);
        BuddyFree(first + j, 0);
        forall x: nat | x < state.Length
          ensures if x == first + j || IsFree(st, x) then IsFree(state[..], x) else state[x] == st[x]
        {
          assert InBlock(x, first + j, 0) <==> x == first + j;
        }
      }
    }

    /** `pmm_init`'s work for one entry of the memory map. */
    method AddEntry(entries: seq<Entry>, i: nat)
      requires NoOverlap(entries) && i < |entries| && state.Length == TotalPages(entries)
      requires Inv(state[..], lists) && Loaded(state[..], entries, i) && freePages == |AvailSet(state[..])| && regions == First(RegionsOf(entries, i))
      modifies this`lists, this`freePages, this`regions, state
      ensures Inv(state[..], lists) && Loaded(state[..], entries, i + 1) && freePages == |AvailSet(state[..])|
      ensures regions == First(RegionsOf(entries, i + 1))
    {
      var region := RegionOf(entries[i]);
      ghost var st := state[..];
      RegionFresh(st, entries, i);
      FreeRegion(region.0, region.1);
      LoadedStep(st, state[..], entries, i);
      freePages := freePages + region.1;
      if !Skipped(entries[i]) && |regions| < MAX_REGIONS {
        regions := regions + [region];
      }
    }

    /** `pmm_init`: afterwards the free pages are exactly the whole pages of usable memory. */
    constructor (cpus: nat, entries: seq<Entry>)
      requires NoOverlap(entries)
      ensures Valid() && fresh(state) && state.Length == TotalPages(entries) && caches == seq(cpus, _ => [])
      ensures forall x: nat :: x < state.Length ==>
        if Usable(entries, |entries|, x) then IsFree(state[..], x) else state[x] == RESERVED
      ensures regions == First(RegionsOf(entries, |entries|))
      ensures AllManaged() <==> NoneBeyond(entries)
    {
      state := new nat[TotalPages(entries)](_ => RESERVED);
      lists := seq(MAX_ORDER + 1, _ => []);
      caches := seq(cpus, _ => []);
      freePages := 0;
      regions := [];
      new;
      AddAll(entries);
      AllLoaded(state[..], entries);
    }

    /** The loop over the memory map. */
    method AddAll(entries: seq<Entry>)
      requires NoOverlap(entries) && state.Length == TotalPages(entries) && freePages == 0 && regions == []
      requires |lists| == MAX_ORDER + 1 && (forall o :: 0 <= o <= MAX_ORDER ==> lists[o] == []) && forall x :: 0 <= x < state.Length ==> state[x] == RESERVED
      modifies this`lists, this`freePages, this`regions, state
      ensures Inv(state[..], lists) && Loaded(state[..], entries, |entries|) && freePages == |AvailSet(state[..])|
      ensures regions == First(RegionsOf(entries, |entries|))
    {
      NothingLoaded(state[..], lists, entries);
      for i := 0 to |entries|
        invariant Inv(state[..], lists) && Loaded(state[..], entries, i) && freePages == |AvailSet(state[..])|
        invariant regions == First(RegionsOf(entries, i))
      {
        AddEntry(entries, i);
      }
    }
  }
}
