/**
 The buddy allocator of the physical memory manager.

 `st` is the per-page state array: a page of a free block holds that block's order,
 every other value (in use, buffered, reserved) is larger than MAX_ORDER.
 `lists[o]` is the free list of order `o`, head first.
 */
module Buddy {
  import opened Blocks
  import opened Counting

  const MAX_ORDER: nat := 14

  type Lists = seq<seq<nat>>

  predicate IsFree(st: seq<nat>, x: nat) {
    x < |st| && st[x] <= MAX_ORDER
  }

  /** All pages of the order-`o` block at `p` exist and are free. */
  ghost predicate AllFree(st: seq<nat>, p: nat, o: nat) {
    forall x: nat :: InBlock(x, p, o) ==> IsFree(st, x)
  }

  /** The order-`o` block at `p` is on its free list. */
  predicate Listed(lists: Lists, p: nat, o: nat) {
    o < |lists| && p in lists[o]
  }

  ghost predicate BlockOk(st: seq<nat>, p: nat, o: nat) {
    && Aligned(p, o)
    && p + Pow2(o) <= |st|
    && forall x: nat :: InBlock(x, p, o) ==> st[x] == o
  }

  ghost predicate ListsOk(st: seq<nat>, lists: Lists) {
    && |lists| == MAX_ORDER + 1
    && (forall o: nat :: o < |lists| ==> Distinct(lists[o]))
    && (forall p: nat, o: nat :: Listed(lists, p, o) ==> BlockOk(st, p, o))
    && (forall p: nat, o: nat :: Listed(lists, p, o) && o < MAX_ORDER ==> !Listed(lists, BuddyOf(p, o), o))
  }

  /** A free page belongs to a listed block of the order its state names. */
  predicate Covered(st: seq<nat>, lists: Lists, x: nat)
    requires x < |st|
  {
    st[x] <= MAX_ORDER ==> Listed(lists, Base(x, st[x]), st[x])
  }

  ghost predicate Inv(st: seq<nat>, lists: Lists) {
    && ListsOk(st, lists)
    && forall x: nat :: x < |st| ==> Covered(st, lists, x)
  }

  predicate Apart(p: nat, o: nat, q: nat, k: nat) {
    p + Pow2(o) <= q || q + Pow2(k) <= p
  }

  /** `Inv`, except that the order-`o` block at `p` is in nobody's hands. */
  ghost predicate HoleInv(st: seq<nat>, lists: Lists, p: nat, o: nat) {
    && o <= MAX_ORDER
    && Aligned(p, o) && p + Pow2(o) <= |st|
    && ListsOk(st, lists)
    && (forall q: nat, k: nat :: Listed(lists, q, k) ==> Apart(p, o, q, k))
    && forall x: nat :: x < |st| && !InBlock(x, p, o) ==> Covered(st, lists, x)
  }

  function Fill(st: seq<nat>, p: nat, n: nat, v: nat): (r: seq<nat>)
    requires p + n <= |st|
    ensures |r| == |st|
    ensures forall x: nat :: x < |st| ==> r[x] == if p <= x < p + n then v else st[x]
  {
    st[..p] + seq(n, _ => v) + st[p + n..]
  }

  function ListRemove(lists: Lists, p: nat, o: nat): Lists
    requires o < |lists|
  {
    lists[o := Remove(lists[o], p)]
  }

  function ListAdd(lists: Lists, p: nat, o: nat): Lists
    requires o < |lists|
  {
    lists[o := [p] + lists[o]]
  }

  lemma ListRemoveListed(st: seq<nat>, lists: Lists, p: nat, o: nat)
    requires ListsOk(st, lists) && o < |lists|
    ensures ListsOk(st, ListRemove(lists, p, o))
    ensures forall q: nat, k: nat :: Listed(ListRemove(lists, p, o), q, k) <==> Listed(lists, q, k) && (q, k) != (p, o)
  {
    RemoveDistinct(lists[o], p);
  }

  /** Taking a listed block off its list leaves a hole. */
  lemma OpenFree(st: seq<nat>, lists: Lists, p: nat, o: nat)
    requires Inv(st, lists) && Listed(lists, p, o)
    ensures HoleInv(st, ListRemove(lists, p, o), p, o)
  {
    ListRemoveListed(st, lists, p, o);
    var l' := ListRemove(lists, p, o);
    assert BlockOk(st, p, o);
    forall q: nat, k: nat | Listed(l', q, k) ensures Apart(p, o, q, k) {
      if !Apart(p, o, q, k) {
        var x := if p < q then q else p;
        assert InBlock(x, p, o) && InBlock(x, q, k);
        assert BlockOk(st, q, k);
        MeetSameOrder(x, p, q, o);
      }
    }
    forall x: nat | x < |st| && !InBlock(x, p, o) ensures Covered(st, l', x) {
      assert Covered(st, lists, x);
      if st[x] <= MAX_ORDER { BaseAligned(x, st[x]); }
    }
  }

  /** A block none of whose pages is free can be treated as a hole. */
  lemma OpenUsed(st: seq<nat>, lists: Lists, p: nat, o: nat)
    requires Inv(st, lists) && o <= MAX_ORDER && Aligned(p, o) && p + Pow2(o) <= |st|
    requires forall x: nat :: InBlock(x, p, o) ==> st[x] > MAX_ORDER
    ensures HoleInv(st, lists, p, o)
  {
    forall q: nat, k: nat | Listed(lists, q, k) ensures Apart(p, o, q, k) {
      assert BlockOk(st, q, k);
      if !Apart(p, o, q, k) {
        var x := if p < q then q else p;
        assert InBlock(x, p, o) && InBlock(x, q, k);
      }
    }
  }

  /** A hole whose buddy page carries the hole's order absorbs that buddy, which is a listed block. */
  lemma Merge(st: seq<nat>, lists: Lists, p: nat, o: nat)
    requires HoleInv(st, lists, p, o) && o < MAX_ORDER
    requires BuddyOf(p, o) + Pow2(o) <= |st| && st[BuddyOf(p, o)] == o
    ensures Listed(lists, BuddyOf(p, o), o)
    ensures var b := BuddyOf(p, o);
            HoleInv(st, ListRemove(lists, b, o), if b < p then b else p, o + 1)
  {
    BuddyHalves(p, o);
    var b := BuddyOf(p, o);
    var lo := if b < p then b else p;
    assert !InBlock(b, p, o);
    assert Covered(st, lists, b);
    assert Listed(lists, b, o);
    ListRemoveListed(st, lists, b, o);
    var l' := ListRemove(lists, b, o);
    assert BlockOk(st, b, o);
    forall q: nat, k: nat | Listed(l', q, k) ensures Apart(lo, o + 1, q, k) {
      assert BlockOk(st, q, k) && Apart(p, o, q, k);
      if !Apart(b, o, q, k) {
        var x := if b < q then q else b;
        assert InBlock(x, b, o) && InBlock(x, q, k);
        MeetSameOrder(x, b, q, o);
      }
    }
    forall x: nat | x < |st| && !InBlock(x, lo, o + 1) ensures Covered(st, l', x) {
      assert !InBlock(x, p, o) && !InBlock(x, b, o);
      assert Covered(st, lists, x);
      if st[x] <= MAX_ORDER { BaseAligned(x, st[x]); }
    }
  }

  /** Writing inside a hole does not disturb anything outside it. */
  lemma FillHole(st: seq<nat>, lists: Lists, p: nat, o: nat, n: nat, at: nat, v: nat)
    requires HoleInv(st, lists, p, o) && p <= at && at + n <= p + Pow2(o)
    ensures HoleInv(Fill(st, at, n, v), lists, p, o)
  {
    var st' := Fill(st, at, n, v);
    forall q: nat, k: nat | Listed(lists, q, k) ensures BlockOk(st', q, k) {
      assert BlockOk(st, q, k) && Apart(p, o, q, k);
    }
    forall x: nat | x < |st'| && !InBlock(x, p, o) ensures Covered(st', lists, x) {
      assert Covered(st, lists, x);
    }
  }

  /** Closing a hole as a free block: legal exactly when its buddy is not a listed block. */
  lemma CloseFree(st: seq<nat>, lists: Lists, p: nat, o: nat)
    requires HoleInv(st, lists, p, o)
    requires o == MAX_ORDER || !Listed(lists, BuddyOf(p, o), o)
    ensures Inv(Fill(st, p, Pow2(o), o), ListAdd(lists, p, o))
  {
    FillHole(st, lists, p, o, Pow2(o), p, o);
    var st', l' := Fill(st, p, Pow2(o), o), ListAdd(lists, p, o);
    BuddyHalves(p, o);
    assert Listed(lists, p, o) ==> Apart(p, o, p, o);
    forall q: nat, k: nat ensures Listed(l', q, k) <==> Listed(lists, q, k) || (q, k) == (p, o) {}
    forall q: nat, k: nat | Listed(l', q, k) && k < MAX_ORDER ensures !Listed(l', BuddyOf(q, k), k) {
      if (q, k) != (p, o) {
        assert BlockOk(st', q, k);
        BuddyHalves(q, k);
      }
    }
    forall x: nat | x < |st'| ensures Covered(st', l', x) {
      if InBlock(x, p, o) {
        BaseAligned(x, o);
        MeetSameOrder(x, p, Base(x, o), o);
      }
    }
  }

  /** Closing a hole as a block that is not free. */
  lemma CloseUsed(st: seq<nat>, lists: Lists, p: nat, o: nat, v: nat)
    requires HoleInv(st, lists, p, o) && v > MAX_ORDER
    ensures Inv(Fill(st, p, Pow2(o), v), lists)
  {
    FillHole(st, lists, p, o, Pow2(o), p, v);
  }

  /** Splitting a hole: the upper half becomes a listed free block, the lower half stays the hole. */
  lemma SplitOff(st: seq<nat>, lists: Lists, p: nat, o: nat)
    requires HoleInv(st, lists, p, o + 1)
    ensures p + Pow2(o + 1) == p + Pow2(o) + Pow2(o)
    ensures HoleInv(Fill(st, p + Pow2(o), Pow2(o), o), ListAdd(lists, p + Pow2(o), o), p, o)
  {
    SplitHalves(p, o);
    BuddyHalves(p, o);
    var b := p + Pow2(o);
    FillHole(st, lists, p, o + 1, Pow2(o), b, o);
    var st', l' := Fill(st, b, Pow2(o), o), ListAdd(lists, b, o);
    assert Listed(lists, b, o) ==> Apart(p, o + 1, b, o);
    assert Listed(lists, p, o) ==> Apart(p, o + 1, p, o);
    forall q: nat, k: nat ensures Listed(l', q, k) <==> Listed(lists, q, k) || (q, k) == (b, o) {}
    forall q: nat, k: nat | Listed(l', q, k) && k < MAX_ORDER ensures !Listed(l', BuddyOf(q, k), k) {
      if (q, k) != (b, o) {
        assert BlockOk(st', q, k);
        BuddyHalves(q, k);
      }
    }
    forall q: nat, k: nat | Listed(l', q, k) ensures Apart(p, o, q, k) {
      if (q, k) != (b, o) { assert Apart(p, o + 1, q, k); }
    }
    forall x: nat | x < |st'| && !InBlock(x, p, o) ensures Covered(st', l', x) {
      if InBlock(x, b, o) {
        BaseAligned(x, o);
        MeetSameOrder(x, b, Base(x, o), o);
      } else {
        assert Covered(st, lists, x);
      }
    }
  }

  /** An aligned run of free pages lies inside one listed block of at least its order. */
  lemma {:induction false} FreeRunListed(st: seq<nat>, lists: Lists, p: nat, o: nat) returns (q: nat, k: nat)
    requires Inv(st, lists) && o <= MAX_ORDER && Aligned(p, o) && AllFree(st, p, o)
    ensures o <= k && Listed(lists, q, k) && forall x: nat :: InBlock(x, p, o) ==> InBlock(x, q, k)
    decreases o
  {
    if o == 0 {
      assert InBlock(p, p, 0) && Covered(st, lists, p);
      k := st[p];
      q := Base(p, k);
      BaseAligned(p, k);
    } else {
      SplitHalves(p, o - 1);
      var b := p + Pow2(o - 1);
      BuddyHalves(p, o - 1);
      assert forall x: nat :: InBlock(x, p, o - 1) || InBlock(x, b, o - 1) ==> InBlock(x, p, o);
      q, k := FreeRunListed(st, lists, p, o - 1);
      assert BlockOk(st, q, k) && InBlock(p, p, o - 1);
      if k >= o {
        MeetNested(p, p, o, q, k);
      } else {
        MeetSameOrder(p, p, q, o - 1);
        var q2, k2 := FreeRunListed(st, lists, b, o - 1);
        assert BlockOk(st, q2, k2) && InBlock(b, b, o - 1);
        if k2 == o - 1 { MeetSameOrder(b, b, q2, o - 1); }
        q, k := q2, k2;
        assert InBlock(b, p, o);
        MeetNested(b, p, o, q, k);
      }
    }
  }

  /** The aligned blocks of free pages that no larger aligned block of free pages contains. */
  ghost predicate Maximal(st: seq<nat>, p: nat, o: nat) {
    && o <= MAX_ORDER && Aligned(p, o) && AllFree(st, p, o)
    && (o < MAX_ORDER ==> !AllFree(st, Base(p, o + 1), o + 1))
  }

  /** The free lists hold exactly the maximal aligned runs of free pages. */
  lemma ListedIffMaximal(st: seq<nat>, lists: Lists, p: nat, o: nat)
    requires Inv(st, lists)
    ensures Listed(lists, p, o) <==> Maximal(st, p, o)
  {
    if Listed(lists, p, o) {
      assert BlockOk(st, p, o);
      if o < MAX_ORDER {
        var u := Base(p, o + 1);
        BaseAligned(p, o + 1);
        if AllFree(st, u, o + 1) {
          var q, k := FreeRunListed(st, lists, u, o + 1);
        }
      }
    }
    if Maximal(st, p, o) {
      var q, k := FreeRunListed(st, lists, p, o);
      assert BlockOk(st, q, k) && InBlock(p, p, o) && InBlock(p, q, k);
      if k == o {
        MeetSameOrder(p, p, q, o);
      } else {
        var u := Base(p, o + 1);
        BaseAligned(p, o + 1);
        MeetNested(p, u, o + 1, q, k);
      }
    }
  }

  /** Free lists forget history: two states with the same free pages list the same blocks. */
  lemma HistoryIndependent(st1: seq<nat>, lists1: Lists, st2: seq<nat>, lists2: Lists)
    requires Inv(st1, lists1) && Inv(st2, lists2)
    requires forall x: nat :: IsFree(st1, x) <==> IsFree(st2, x)
    ensures forall o: nat :: o <= MAX_ORDER ==> multiset(lists1[o]) == multiset(lists2[o])
  {
    forall p: nat, o: nat ensures Listed(lists1, p, o) <==> Listed(lists2, p, o) {
      ListedIffMaximal(st1, lists1, p, o);
      ListedIffMaximal(st2, lists2, p, o);
    }
    forall o: nat | o <= MAX_ORDER ensures multiset(lists1[o]) == multiset(lists2[o]) {
      assert forall p: nat :: p in lists1[o] <==> Listed(lists1, p, o);
      assert forall p: nat :: p in lists2[o] <==> Listed(lists2, p, o);
      SameElements(lists1[o], lists2[o]);
    }
  }

  lemma {:induction false} DistinctMultiset(s: seq<nat>)
    requires Distinct(s)
    ensures forall x: nat :: multiset(s)[x] == if x in s then 1 else 0
  {
    if s != [] {
      assert s == [s[0]] + s[1..];
      DistinctMultiset(s[1..]);
    }
  }

  lemma SameElements(a: seq<nat>, b: seq<nat>)
    requires Distinct(a) && Distinct(b) && forall x: nat :: x in a <==> x in b
    ensures multiset(a) == multiset(b)
  {
    DistinctMultiset(a);
    DistinctMultiset(b);
  }
}
