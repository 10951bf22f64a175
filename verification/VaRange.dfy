/** The free list of virtual address ranges: a fixed array kept sorted and merged in place. */
module VaRange {
  import opened Options

  const PAGE_SIZE: nat := 4096
  const MAX_NODES: nat := 128

  datatype Node = Node(start: nat, pages: nat)

  function End(n: Node): nat {
    n.start + n.pages * PAGE_SIZE
  }

  predicate Within(n: Node, a: nat) {
    n.start <= a < End(n)
  }

  /** Sorted by address, no range empty, none overlapping or touching the next. */
  ghost predicate Ordered(l: seq<Node>) {
    && (forall i :: 0 <= i < |l| ==> l[i].pages > 0)
    && (forall i, j :: 0 <= i < j < |l| ==> End(l[i]) < l[j].start)
  }

  /** The address lies in a range of the list. */
  ghost predicate Covers(l: seq<Node>, a: nat) {
    exists i: nat :: At(l, i, a)
  }

  predicate At(l: seq<Node>, i: nat, a: nat) {
    i < |l| && Within(l[i], a)
  }

  /** Ranges may touch, but not overlap. */
  ghost predicate Sorted(l: seq<Node>) {
    forall j, k :: 0 <= j < k < |l| ==> End(l[j]) <= l[k].start
  }

  ghost predicate SameCover(l: seq<Node>, m: seq<Node>) {
    forall a: nat :: Covers(l, a) <==> Covers(m, a)
  }

  lemma HeadCovers(l: seq<Node>)
    requires Ordered(l) && l != []
    ensures Covers(l, l[0].start) && !Covers(l, End(l[0])) && Covers(l, End(l[0]) - 1)
    ensures forall a: nat :: Covers(l, a) ==> l[0].start <= a
  {
    assert At(l, 0, l[0].start) && At(l, 0, End(l[0]) - 1);
  }

  /** Two ranges that start together and end before uncovered addresses of each other's lists are equal. */
  lemma HeadSame(l: seq<Node>, m: seq<Node>)
    requires Ordered(l) && Ordered(m) && l != [] && m != [] && SameCover(l, m)
    ensures l[0] == m[0]
  {
    HeadCovers(l);
    HeadCovers(m);
    var x, y := End(l[0]), End(m[0]);
    assert l[0].start == m[0].start by { assert Covers(m, l[0].start) && Covers(l, m[0].start); }
    assert (y < x <==> At(l, 0, y)) && (x < y <==> At(m, 0, x));
    assert !Covers(m, x) && !Covers(l, y);
  }

  /** Which addresses are free determines the list, whatever the order of allocations and frees. */
  lemma {:induction false} ListUnique(l: seq<Node>, m: seq<Node>)
    requires Ordered(l) && Ordered(m) && SameCover(l, m)
    ensures l == m
  {
    assert l != [] ==> Covers(l, l[0].start) by { if l != [] { HeadCovers(l); } }
    assert m != [] ==> Covers(m, m[0].start) by { if m != [] { HeadCovers(m); } }
    if l != [] && m != [] {
      HeadSame(l, m);
      forall a: nat ensures Covers(l[1..], a) <==> Covers(m[1..], a) {
        TailCovers(l, a);
        TailCovers(m, a);
        assert Covers(l, a) <==> Covers(m, a);
      }
      ListUnique(l[1..], m[1..]);
    }
  }

  lemma TailCovers(l: seq<Node>, a: nat)
    requires Ordered(l) && l != []
    ensures Covers(l[1..], a) <==> Covers(l, a) && !Within(l[0], a)
  {
    if Covers(l[1..], a) {
      var i: nat :| At(l[1..], i, a);
      assert At(l, i + 1, a);
    }
    if Covers(l, a) && !Within(l[0], a) {
      var i: nat :| At(l, i, a);
      assert At(l[1..], i - 1, a);
    }
  }

  /** `m` covers what `l` does and the range `r`, or does not. */
  ghost predicate Added(l: seq<Node>, r: Node, m: seq<Node>) {
    forall a: nat :: Covers(m, a) <==> Covers(l, a) || Within(r, a)
  }

  ghost predicate Removed(l: seq<Node>, r: Node, m: seq<Node>) {
    && (forall a: nat :: Within(r, a) ==> Covers(l, a))
    && (forall a: nat :: Covers(m, a) <==> Covers(l, a) && !Within(r, a))
  }

  ghost predicate Clear(l: seq<Node>, r: Node) {
    forall a: nat :: Within(r, a) ==> !Covers(l, a)
  }

  /** Sorted, and only range `i` may touch its neighbours. */
  ghost predicate Loose(l: seq<Node>, i: nat) {
    && (forall k :: 0 <= k < |l| ==> l[k].pages > 0)
    && Sorted(l)
    && (forall j, k :: 0 <= j < k < |l| && End(l[j]) == l[k].start ==> j == i || k == i)
  }

  /** The list without range `i`. */
  function Without(l: seq<Node>, i: nat): (m: seq<Node>)
    requires i < |l|
    ensures |m| == |l| - 1 && forall k :: 0 <= k < |m| ==> m[k] == l[if k < i then k else k + 1]
  {
    l[..i] + l[i + 1..]
  }

  lemma DropCovers(l: seq<Node>, i: nat, a: nat)
    requires i < |l| && Sorted(l)
    ensures Covers(Without(l, i), a) <==> Covers(l, a) && !Within(l[i], a)
  {
    var m := Without(l, i);
    if Covers(m, a) {
      var k: nat :| At(m, k, a);
      var k' := if k < i then k else k + 1;
      assert At(l, k', a);
      assert k' < i ==> End(l[k']) <= l[i].start;
    }
    if Covers(l, a) && !Within(l[i], a) {
      var k: nat :| At(l, k, a);
      assert At(m, if k < i then k else k - 1, a);
    }
  }

  /** The list with range `n` put in at place `i`. */
  function With(l: seq<Node>, i: nat, n: Node): (m: seq<Node>)
    requires i <= |l|
    ensures |m| == |l| + 1 && forall k :: 0 <= k < |m| ==> m[k] == if k < i then l[k] else if k == i then n else l[k - 1]
  {
    l[..i] + [n] + l[i..]
  }

  lemma PutCovers(l: seq<Node>, i: nat, n: Node, a: nat)
    requires i <= |l|
    ensures Covers(With(l, i, n), a) <==> Covers(l, a) || Within(n, a)
  {
    var m := With(l, i, n);
    assert At(m, i, a) <==> Within(n, a);
    if Covers(m, a) {
      var k: nat :| At(m, k, a);
      assert k != i ==> At(l, if k < i then k else k - 1, a);
    }
    if Covers(l, a) {
      var k: nat :| At(l, k, a);
      assert At(m, if k < i then k else k + 1, a);
    }
  }

  lemma SetCovers(l: seq<Node>, i: nat, n: Node, a: nat)
    requires i < |l| && Sorted(l)
    ensures Covers(l[i := n], a) <==> (Covers(l, a) && !Within(l[i], a)) || Within(n, a)
  {
    DropCovers(l, i, a);
    var d := Without(l, i);
    PutCovers(d, i, n, a);
    assert With(d, i, n) == l[i := n];
  }

  /** Taking a whole range. */
  lemma TakeAll(l: seq<Node>, i: nat)
    requires Ordered(l) && i < |l|
    ensures Ordered(Without(l, i)) && Removed(l, l[i], Without(l, i))
  {
    forall a: nat ensures Covers(Without(l, i), a) <==> Covers(l, a) && !Within(l[i], a) { DropCovers(l, i, a); }
    forall a: nat | Within(l[i], a) ensures Covers(l, a) { assert At(l, i, a); }
  }

  /** Taking pages from the front of a range. */
  lemma TakePart(l: seq<Node>, i: nat, pages: nat)
    requires Ordered(l) && i < |l| && 0 < pages < l[i].pages
    ensures var n := l[i]; var m := l[i := Node(n.start + pages * PAGE_SIZE, n.pages - pages)];
      Ordered(m) && Removed(l, Node(n.start, pages), m)
  {
    var n := l[i];
    var r, rest := Node(n.start, pages), Node(n.start + pages * PAGE_SIZE, n.pages - pages);
    assert End(rest) == End(n) && forall a: nat :: Within(n, a) <==> Within(r, a) || Within(rest, a);
    forall a: nat ensures Covers(l[i := rest], a) <==> Covers(l, a) && !Within(r, a) {
      SetCovers(l, i, rest, a);
      assert Within(n, a) <==> At(l, i, a);
    }
    forall a: nat | Within(r, a) ensures Covers(l, a) { assert At(l, i, a); }
  }

  /** Place `i` is where the loop of `vmm_va_free` stops for address `addr`. */
  predicate PlaceFor(l: seq<Node>, i: nat, addr: nat) {
    i <= |l| && (forall k :: 0 <= k < i ==> l[k].start < addr) && (i < |l| ==> addr <= l[i].start)
  }

  /** A range overlaps none exactly when it overlaps neither neighbour. */
  lemma ClearSides(l: seq<Node>, i: nat, r: Node)
    requires Ordered(l) && r.pages > 0 && PlaceFor(l, i, r.start)
    ensures Clear(l, r) <==> (i > 0 ==> End(l[i - 1]) <= r.start) && (i < |l| ==> End(r) <= l[i].start)
  {
    if Clear(l, r) {
      assert i > 0 && End(l[i - 1]) > r.start ==> At(l, i - 1, r.start) && Within(r, r.start);
      assert i < |l| && End(r) > l[i].start ==> Within(r, l[i].start) && At(l, i, l[i].start);
    } else {
      var a: nat :| Within(r, a) && Covers(l, a);
      var k: nat :| At(l, k, a);
      if k < i { assert End(l[k]) <= End(l[i - 1]); } else { assert l[i].start <= l[k].start; }
    }
  }

  /** Putting a range in its place. */
  lemma PutLoose(l: seq<Node>, i: nat, r: Node)
    requires Ordered(l) && r.pages > 0 && PlaceFor(l, i, r.start)
    requires (i > 0 ==> End(l[i - 1]) <= r.start) && (i < |l| ==> End(r) <= l[i].start)
    ensures Loose(With(l, i, r), i)
  {
    var m := With(l, i, r);
    forall k: nat | k < i ensures End(l[k]) <= r.start { assert k < i - 1 ==> End(l[k]) < l[i - 1].start; }
    forall k: nat | i <= k < |l| ensures End(r) <= l[k].start { assert l[i].start <= l[k].start; }
    forall j, k | 0 <= j < k < |m| ensures End(m[j]) <= m[k].start && (End(m[j]) == m[k].start ==> j == i || k == i) {
      assert j != i && k != i ==> End(l[if j < i then j else j - 1]) < l[if k < i then k else k - 1].start;
    }
  }

  /** The list with range `i` and the next made one. */
  function Merged(l: seq<Node>, i: nat): (m: seq<Node>)
    requires i + 1 < |l|
    ensures |m| == |l| - 1
    ensures forall k :: 0 <= k < |m| ==>
      m[k] == if k < i then l[k] else if k == i then Node(l[i].start, l[i].pages + l[i + 1].pages) else l[k + 1]
  {
    l[..i] + [Node(l[i].start, l[i].pages + l[i + 1].pages)] + l[i + 2..]
  }

  lemma MergedLoose(l: seq<Node>, i: nat)
    requires i + 1 < |l| && (Loose(l, i) || Loose(l, i + 1)) && End(l[i]) == l[i + 1].start
    ensures Loose(Merged(l, i), i)
    ensures Loose(l, i) && i + 2 < |l| ==> End(Merged(l, i)[i]) < l[i + 2].start
  {
    var m := Merged(l, i);
    assert End(m[i]) == End(l[i + 1]);
  }

  lemma MergedCovers(l: seq<Node>, i: nat)
    requires i + 1 < |l| && (Loose(l, i) || Loose(l, i + 1)) && End(l[i]) == l[i + 1].start
    ensures SameCover(l, Merged(l, i))
  {
    var m, x := Merged(l, i), l[i + 1];
    var d := Without(l, i + 1);
    assert d[i := m[i]] == m && End(m[i]) == End(x);
    assert Sorted(d);
    forall a: nat ensures Covers(l, a) <==> Covers(m, a) {
      DropCovers(l, i + 1, a);
      SetCovers(d, i, m[i], a);
      assert Within(m[i], a) <==> Within(l[i], a) || Within(x, a);
      assert (Within(x, a) <==> At(l, i + 1, a)) && (Within(l[i], a) <==> At(l, i, a));
    }
  }

  /** A range that touches neither neighbour closes the list. */
  lemma Closed(l: seq<Node>, i: nat)
    requires Loose(l, i) && i < |l|
    requires (i > 0 ==> End(l[i - 1]) != l[i].start) && (i + 1 < |l| ==> End(l[i]) != l[i + 1].start)
    ensures Ordered(l)
  {
    forall j, k | 0 <= j < k < |l| ensures End(l[j]) < l[k].start {
      if j + 1 < k { assert End(l[j]) <= l[j + 1].start < End(l[j + 1]) <= l[k].start; }
    }
  }

  /** Merging with the range before as well. */
  lemma MergedBoth(l: seq<Node>, i: nat)
    requires 0 < i < |l| && Loose(l, i) && End(l[i - 1]) == l[i].start && (i + 1 < |l| ==> End(l[i]) != l[i + 1].start)
    ensures Ordered(Merged(l, i - 1))
  {
    MergedLoose(l, i - 1);
    var m := Merged(l, i - 1);
    assert End(m[i - 1]) == End(l[i]);
    assert i > 1 ==> End(l[i - 2]) <= l[i - 1].start && End(l[i - 2]) != l[i - 1].start;
    Closed(m, i - 1);
  }

  /** What `vmm_va_free` makes of range `i` and the next, and of it and the one before. */
  function NextMerged(l: seq<Node>, i: nat): (m: seq<Node>)
    requires i < |l|
    ensures i < |m| <= |l|
  {
    if i + 1 < |l| && End(l[i]) == l[i + 1].start then Merged(l, i) else l
  }

  function PrevMerged(l: seq<Node>, i: nat): (m: seq<Node>)
    requires i < |l|
    ensures |m| <= |l|
  {
    if i > 0 && End(l[i - 1]) == l[i].start then Merged(l, i - 1) else l
  }

  /** The list after freeing range `r`, whose place is `i`. */
  function Freed(l: seq<Node>, i: nat, r: Node): seq<Node>
    requires i <= |l|
  {
    PrevMerged(NextMerged(With(l, i, r), i), i)
  }

  lemma NextLoose(l: seq<Node>, i: nat)
    requires i < |l| && Loose(l, i)
    ensures var m := NextMerged(l, i); Loose(m, i) && Apart(m, i) && SameCover(l, m)
  {
    if i + 1 < |l| && End(l[i]) == l[i + 1].start {
      MergedLoose(l, i);
      MergedCovers(l, i);
    }
  }

  lemma PrevOrdered(l: seq<Node>, i: nat)
    requires i < |l| && Loose(l, i) && Apart(l, i)
    ensures var m := PrevMerged(l, i); Ordered(m) && SameCover(l, m)
  {
    if i > 0 && End(l[i - 1]) == l[i].start {
      MergedBoth(l, i);
      MergedCovers(l, i - 1);
    } else {
      Closed(l, i);
    }
  }

  /** Freeing a range that overlaps no free one adds it. */
  lemma FreeClear(l: seq<Node>, i: nat, r: Node)
    requires Ordered(l) && r.pages > 0 && PlaceFor(l, i, r.start) && Clear(l, r)
    ensures Ordered(Freed(l, i, r)) && Added(l, r, Freed(l, i, r))
  {
    var m := With(l, i, r);
    var m1 := NextMerged(m, i);
    ClearSides(l, i, r);
    PutLoose(l, i, r);
    NextLoose(m, i);
    PrevOrdered(m1, i);
    forall a: nat ensures Covers(Freed(l, i, r), a) <==> Covers(l, a) || Within(r, a) {
      PutCovers(l, i, r, a);
      assert (Covers(m, a) <==> Covers(m1, a)) && (Covers(m1, a) <==> Covers(PrevMerged(m1, i), a));
    }
  }

  /** Freeing a range that overlaps a free one leaves the list out of order. */
  lemma FreeOverlap(l: seq<Node>, i: nat, r: Node)
    requires Ordered(l) && r.pages > 0 && PlaceFor(l, i, r.start) && !Clear(l, r)
    ensures !Ordered(Freed(l, i, r))
  {
    var m := With(l, i, r);
    var m1 := NextMerged(m, i);
    ClearSides(l, i, r);
    var f := PrevMerged(m1, i);
    if i > 0 && End(l[i - 1]) > r.start {
      assert m1[i - 1] == l[i - 1] && m1[i].start == r.start && f == m1;
    } else {
      assert m[i + 1] == l[i] && m1 == m;
      if i > 0 && End(m[i - 1]) == m[i].start {
        assert f[i - 1].start == l[i - 1].start && End(f[i - 1]) == End(r) && f[i] == l[i];
      }
    }
  }

  /** Freeing what was allocated gives back the identical list exactly when the array has a spare node then. */
  lemma AllocThenFree(l: seq<Node>, r: Node, m: seq<Node>, l': seq<Node>)
    requires Ordered(l) && Ordered(l') && r.pages > 0 && Removed(l, r, m)
    requires if |m| < MAX_NODES then Added(m, r, l') else l' == m
    ensures l' == l <==> |m| < MAX_NODES
  {
    assert Within(r, r.start) && Covers(l, r.start) && !Covers(m, r.start);
    if |m| < MAX_NODES {
      forall a: nat ensures Covers(l, a) <==> Covers(l', a) { assert Covers(m, a) <==> Covers(l, a) && !Within(r, a); }
      ListUnique(l, l');
    }
  }

  /** `start` is where the first range of at least `pages` pages starts. */
  ghost predicate FirstFit(l: seq<Node>, pages: nat, start: nat) {
    exists i :: 0 <= i < |l| && l[i].start == start && l[i].pages >= pages && forall j :: 0 <= j < i ==> l[j].pages < pages
  }

  /** Range `i` does not touch the next, or the one before. */
  predicate Apart(l: seq<Node>, i: nat) {
    i + 1 < |l| ==> End(l[i]) != l[i + 1].start
  }

  class Ranges {
    const free: array<Node>
    var count: nat

    /** `vmm_va_init`. */
    constructor (base: nat, pages: nat)
      ensures fresh(free) && Valid()
      ensures forall a: nat :: Covers(List(), a) <==> base <= a < base + pages * PAGE_SIZE
    {
      free := new Node[MAX_NODES](_ => Node(0, 0));
      count := if pages > 0 then 1 else 0;
      new;
      free[0] := Node(base, pages);
      forall a: nat ensures Covers(List(), a) <==> base <= a < base + pages * PAGE_SIZE {
        if pages > 0 { assert List() == [Node(base, pages)] && (At(List(), 0, a) <==> base <= a < base + pages * PAGE_SIZE); }
      }
    }

    ghost function List(): seq<Node>
      reads this, free
      requires count <= free.Length
    {
      free[..count]
    }

    ghost predicate Valid()
      reads this, free
    {
      free.Length == MAX_NODES && count <= MAX_NODES && Ordered(List())
    }

    /** Moves the ranges after `i` one place down. */
    method CloseGap(i: nat)
      requires free.Length == MAX_NODES && i < count <= MAX_NODES
      modifies this`count, free
      ensures count == old(count) - 1 && List() == Without(old(List()), i)
    {
      ghost var was := free[..];
      for j := i + 1 to count
        modifies free
        invariant forall k :: 0 <= k < j - 1 ==> free[k] == was[if k < i then k else k + 1]
        invariant forall k :: j - 1 <= k < MAX_NODES ==> free[k] == was[k]
      {
        free[j - 1] := free[j];
      }
      count := count - 1;
    }

    /** Moves the ranges from `i` on one place up and puts `n` there. */
    method OpenGap(i: nat, n: Node)
      requires free.Length == MAX_NODES && i <= count < MAX_NODES
      modifies this`count, free
      ensures count == old(count) + 1 && List() == With(old(List()), i, n)
    {
      ghost var was := free[..];
      for j := count downto i
        modifies free
        invariant forall k :: 0 <= k <= j && k < MAX_NODES ==> free[k] == was[k]
        invariant forall k :: j < k <= count ==> free[k] == was[k - 1]
      {
        free[j + 1] := free[j];
      }
      free[i] := n;
      count := count + 1;
    }

    /** Makes range `i` and the next, which starts where it ends, one. */
    method MergeAt(i: nat)
      requires free.Length == MAX_NODES && i + 1 < count <= MAX_NODES
      modifies this`count, free
      ensures count == old(count) - 1 && List() == Merged(old(List()), i)
    {
      free[i] := Node(free[i].start, free[i].pages + free[i + 1].pages);
      CloseGap(i + 1);
    }

    /** `vmm_va_alloc`: the first range that is long enough, or nothing. */
    method Alloc(pages: nat) returns (r: Option<nat>)
      requires Valid()
      modifies this`count, free
      ensures Valid()
      ensures r.None? ==> List() == old(List()) && (pages == 0 || forall i :: 0 <= i < count ==> List()[i].pages < pages)
      ensures r.Some? ==> pages > 0 && Removed(old(List()), Node(r.value, pages), List())
      ensures r.Some? ==> FirstFit(old(List()), pages, r.value)
    {
      if pages == 0 { return None; }
      var i := 0;
      while i < count
        invariant i <= count && forall j :: 0 <= j < i ==> free[j].pages < pages
      {
        if free[i].pages >= pages {
          ghost var l := List();
          r := Some(free[i].start);
          if free[i].pages == pages {
            TakeAll(l, i);
            free[i] := Node(free[i].start + pages * PAGE_SIZE, 0);
            CloseGap(i);
          } else {
            TakePart(l, i, pages);
            free[i] := Node(free[i].start + pages * PAGE_SIZE, free[i].pages - pages);
            assert List() == l[i := free[i]];
          }
          assert l[i].start == r.value && l[i].pages >= pages;
          return;
        }
        i := i + 1;
      }
      return None;
    }

    /** `vmm_va_free`: adds the range, unless the array has no spare node; the list stays in order exactly when the range overlaps no free one. */
    method Free(addr: nat, pages: nat)
      requires Valid()
      modifies this`count, free
      ensures free.Length == MAX_NODES && count <= MAX_NODES
      ensures pages == 0 || old(count) == MAX_NODES ==> List() == old(List())
      ensures pages > 0 && old(count) < MAX_NODES ==> (Valid() <==> Clear(old(List()), Node(addr, pages)))
      ensures pages > 0 && old(count) < MAX_NODES && Clear(old(List()), Node(addr, pages)) ==> Added(old(List()), Node(addr, pages), List())
    {
      if pages == 0 || count >= MAX_NODES { return; }
      var i := 0;
      while i < count && free[i].start < addr
        invariant i <= count && forall j :: 0 <= j < i ==> free[j].start < addr
      {
        i := i + 1;
      }
      ghost var l, r := List(), Node(addr, pages);
      if Clear(l, r) { FreeClear(l, i, r); } else { FreeOverlap(l, i, r); }
      OpenGap(i, Node(addr, pages));
      MergeNext(i);
      MergePrev(i);
    }

    method MergeNext(i: nat)
      requires free.Length == MAX_NODES && i < count <= MAX_NODES
      modifies this`count, free
      ensures count <= MAX_NODES && List() == NextMerged(old(List()), i)
    {
      if i + 1 < count && free[i].start + free[i].pages * PAGE_SIZE == free[i + 1].start { MergeAt(i); }
    }

    method MergePrev(i: nat)
      requires free.Length == MAX_NODES && i < count <= MAX_NODES
      modifies this`count, free
      ensures count <= MAX_NODES && List() == PrevMerged(old(List()), i)
    {
      if i > 0 && free[i - 1].start + free[i - 1].pages * PAGE_SIZE == free[i].start { MergeAt(i - 1); }
    }
  }

  /** Ranges of two pages with gaps of one, from `base` on. */
  function Comb(base: nat, n: nat): (l: seq<Node>)
    ensures |l| == n && forall i: nat :: i < n ==> l[i] == Node(base + i * 3 * PAGE_SIZE, 2)
  {
    seq(n, i requires 0 <= i < n => Node(base + i * 3 * PAGE_SIZE, 2))
  }

  lemma CombOrdered(base: nat, n: nat)
    ensures Ordered(Comb(base, n))
  {
  }

  /** What is left of a range after `pages` pages are taken from its front. */
  function Rest(base: nat, total: nat, pages: nat): seq<Node>
    requires pages <= total
  {
    if pages == total then [] else [Node(base + pages * PAGE_SIZE, total - pages)]
  }

  /** Taking pages from the front of the only range leaves the rest of it. */
  lemma TakeFront(base: nat, total: nat, done: nat, n: nat, m: seq<Node>)
    requires done + n <= total && 0 < n && Ordered(m) && Removed(Rest(base, total, done), Node(base + done * PAGE_SIZE, n), m)
    ensures m == Rest(base, total, done + n)
  {
    var l, r := Rest(base, total, done), Rest(base, total, done + n);
    forall a: nat ensures Covers(m, a) <==> Covers(r, a) {
      OneCovers(base + done * PAGE_SIZE, total - done, a);
      if done + n < total { OneCovers(base + (done + n) * PAGE_SIZE, total - done - n, a); }
    }
    ListUnique(m, r);
  }

  lemma OneCovers(start: nat, pages: nat, a: nat)
    ensures Covers([Node(start, pages)], a) <==> Within(Node(start, pages), a)
  {
    assert At([Node(start, pages)], 0, a) <==> Within(Node(start, pages), a);
  }

  /** The next tooth of the comb. */
  lemma PutTooth(base: nat, i: nat, m: seq<Node>)
    ensures Clear(Comb(base, i), Node(base + i * 3 * PAGE_SIZE, 2))
    ensures Ordered(m) && Added(Comb(base, i), Node(base + i * 3 * PAGE_SIZE, 2), m) ==> m == Comb(base, i + 1)
  {
    var l, r, c := Comb(base, i), Node(base + i * 3 * PAGE_SIZE, 2), Comb(base, i + 1);
    assert c == With(l, i, r);
    if Ordered(m) && Added(l, r, m) {
      CombOrdered(base, i + 1);
      forall a: nat ensures Covers(m, a) <==> Covers(c, a) { PutCovers(l, i, r, a); }
      ListUnique(m, c);
    }
  }

  /** Takes the next `n` pages of the only range. */
  method TakeOn(r: Ranges, base: nat, total: nat, done: nat, n: nat) returns (a: nat)
    requires r.Valid() && 0 < n && done + n <= total && r.List() == Rest(base, total, done)
    modifies r, r.free
    ensures r.Valid() && r.List() == Rest(base, total, done + n) && a == base + done * PAGE_SIZE
  {
    ghost var l := r.List();
    var got := r.Alloc(n);
    assert l[0].pages >= n;
    TakeFront(base, total, done, n, r.List());
    a := got.value;
  }

  /** Ranges of two and of one page are taken in turn until nothing is left, and then those of two are freed. */
  method FullComb(base: nat) returns (r: Ranges)
    ensures fresh(r) && fresh(r.free) && r.Valid() && r.List() == Comb(base, MAX_NODES)
  {
    var total := 3 * MAX_NODES;
    r := new Ranges(base, total);
    WholeRange(base, total, r.List());
    for i := 0 to MAX_NODES
      invariant fresh(r) && fresh(r.free) && r.Valid() && r.List() == Rest(base, total, 3 * i)
    {
      var a := TakeOn(r, base, total, 3 * i, 2);
      a := TakeOn(r, base, total, 3 * i + 2, 1);
    }
    assert r.List() == Comb(base, 0);
    for i := 0 to MAX_NODES
      invariant fresh(r) && fresh(r.free) && r.Valid() && r.List() == Comb(base, i)
    {
      PutTooth(base, i, []);
      r.Free(base + i * 3 * PAGE_SIZE, 2);
      PutTooth(base, i, r.List());
    }
  }

  lemma WholeRange(base: nat, total: nat, l: seq<Node>)
    requires Ordered(l) && total > 0 && forall a: nat :: Covers(l, a) <==> base <= a < base + total * PAGE_SIZE
    ensures l == Rest(base, total, 0)
  {
    var r := Rest(base, total, 0);
    forall a: nat ensures Covers(l, a) <==> Covers(r, a) { OneCovers(base, total, a); }
    ListUnique(l, r);
  }

  /** With a full array a page that is taken and freed again is lost. */
  method LosesPage(base: nat) returns (r: Ranges, a: nat, ghost before: seq<Node>)
    ensures fresh(r) && r.Valid() && before == Comb(base, MAX_NODES) && Covers(before, a) && !Covers(r.List(), a) && |r.List()| == MAX_NODES
  {
    r := FullComb(base);
    before := r.List();
    assert before[0] == Node(base, 2);
    var got := r.Alloc(1);
    a := got.value;
    FrontTaken(base, r.List());
    assert Within(Node(a, 1), a);
    r.Free(a, 1);
  }

  /** A page taken from the first range leaves as many ranges as before. */
  lemma FrontTaken(base: nat, m: seq<Node>)
    requires Ordered(m) && Removed(Comb(base, MAX_NODES), Node(base, 1), m)
    ensures |m| == MAX_NODES
  {
    var l := Comb(base, MAX_NODES);
    var t := l[0 := Node(base + PAGE_SIZE, 1)];
    CombOrdered(base, MAX_NODES);
    assert l[0] == Node(base, 2);
    TakePart(l, 0, 1);
    forall a: nat ensures Covers(m, a) <==> Covers(t, a) {}
    ListUnique(m, t);
  }
}
