/** Naturally aligned power-of-two blocks of page numbers. */
module Blocks {

  function Pow2(n: nat): (r: nat)
    ensures r >= 1
  {
    if n == 0 then 1 else 2 * Pow2(n - 1)
  }

  /** The number of the order-`o` block that holds page `x`, that is `x >> o`. */
  function Idx(x: nat, o: nat): nat {
    if o == 0 then x else Idx(x, o - 1) / 2
  }

  /** The first page of the order-`o` block that holds page `x`, that is `x & ~((1 << o) - 1)`. */
  function Base(x: nat, o: nat): nat {
    Idx(x, o) * Pow2(o)
  }

  predicate Aligned(p: nat, o: nat) {
    Base(p, o) == p
  }

  predicate InBlock(x: nat, p: nat, o: nat) {
    p <= x < p + Pow2(o)
  }

  /** `page ^ (1 << order)`: flips bit `o`. */
  function BuddyOf(p: nat, o: nat): nat {
    if Idx(p, o) % 2 == 0 then p + Pow2(o)
    else
      IdxBounds(p, o);
      p - Pow2(o)
  }

  lemma {:induction false} IdxBounds(x: nat, o: nat)
    ensures Idx(x, o) * Pow2(o) <= x < Idx(x, o) * Pow2(o) + Pow2(o)
    ensures Idx(x, o) >= 1 ==> x >= Pow2(o)
  {
    if o > 0 {
      IdxBounds(x, o - 1);
      Double(Idx(x, o - 1), Pow2(o - 1));
    }
    if Idx(x, o) >= 1 { MulLess(0, Idx(x, o), Pow2(o)); }
  }

  lemma Double(j: nat, h: nat)
    ensures (j / 2) * (2 * h) == if j % 2 == 0 then j * h else j * h - h
  {
    var q := j / 2;
    if j % 2 == 0 {
      assert j == 2 * q;
    } else {
      assert j == 2 * q + 1;
      assert (2 * q + 1) * h == (2 * q) * h + h;
    }
    assert (2 * q) * h == q * (2 * h);
  }

  lemma MulLess(a: nat, b: nat, h: nat)
    requires a < b
    ensures a * h + h <= b * h
  {
    assert (a + 1) * h <= b * h;
  }

  /** Membership in an aligned block is equality of block numbers. */
  lemma InBlockIsIdx(x: nat, p: nat, o: nat)
    requires Aligned(p, o)
    ensures InBlock(x, p, o) <==> Idx(x, o) == Idx(p, o)
  {
    IdxBounds(x, o);
    IdxBounds(p, o);
    if Idx(x, o) < Idx(p, o) { MulLess(Idx(x, o), Idx(p, o), Pow2(o)); }
    if Idx(x, o) > Idx(p, o) { MulLess(Idx(p, o), Idx(x, o), Pow2(o)); }
  }

  /** The block number determines it: any `i` with `i * 2^o <= x < (i + 1) * 2^o` is `Idx(x, o)`. */
  lemma IdxUnique(x: nat, i: nat, o: nat)
    requires i * Pow2(o) <= x < i * Pow2(o) + Pow2(o)
    ensures Idx(x, o) == i
  {
    IdxBounds(x, o);
    if Idx(x, o) < i { MulLess(Idx(x, o), i, Pow2(o)); }
    if Idx(x, o) > i { MulLess(i, Idx(x, o), Pow2(o)); }
  }

  lemma BaseAligned(x: nat, o: nat)
    ensures Aligned(Base(x, o), o) && InBlock(x, Base(x, o), o)
    ensures Idx(Base(x, o), o) == Idx(x, o)
  {
    IdxBounds(x, o);
    IdxUnique(Base(x, o), Idx(x, o), o);
  }

  /** Pages of one block share every larger block. */
  lemma {:induction false} IdxNested(x: nat, y: nat, o: nat, k: nat)
    requires o <= k && Idx(x, o) == Idx(y, o)
    ensures Idx(x, k) == Idx(y, k)
    decreases k
  {
    if k > o { IdxNested(x, y, o, k - 1); }
  }

  /** Two aligned blocks that meet are nested. */
  lemma MeetNested(x: nat, p: nat, o: nat, q: nat, k: nat)
    requires o <= k && Aligned(p, o) && Aligned(q, k)
    requires InBlock(x, p, o) && InBlock(x, q, k)
    ensures forall y :: InBlock(y, p, o) ==> InBlock(y, q, k)
  {
    forall y | InBlock(y, p, o) ensures InBlock(y, q, k) {
      InBlockIsIdx(x, p, o);
      InBlockIsIdx(y, p, o);
      IdxNested(x, y, o, k);
      InBlockIsIdx(x, q, k);
      InBlockIsIdx(y, q, k);
    }
  }

  /** The larger of two nested blocks starts no later than the smaller and contains it. */
  lemma MeetSameOrder(x: nat, p: nat, q: nat, o: nat)
    requires Aligned(p, o) && Aligned(q, o) && InBlock(x, p, o) && InBlock(x, q, o)
    ensures p == q
  {
    InBlockIsIdx(x, p, o);
    InBlockIsIdx(x, q, o);
  }

  function Flip(i: nat): nat { if i % 2 == 0 then i + 1 else i - 1 }

  lemma BuddyIdx(p: nat, o: nat)
    requires Aligned(p, o)
    ensures Aligned(BuddyOf(p, o), o) && Idx(BuddyOf(p, o), o) == Flip(Idx(p, o))
  {
    var i, h := Idx(p, o), Pow2(o);
    IdxBounds(p, o);
    if i % 2 == 0 {
      assert (i + 1) * h == i * h + h;
      IdxUnique(p + h, i + 1, o);
    } else {
      assert (i - 1) * h == i * h - h;
      IdxUnique(p - h, i - 1, o);
    }
  }

  /** A block and its buddy are the two halves of the parent block. */
  lemma BuddyHalves(p: nat, o: nat)
    requires Aligned(p, o)
    ensures Aligned(BuddyOf(p, o), o) && BuddyOf(p, o) != p && BuddyOf(BuddyOf(p, o), o) == p
    ensures var b := BuddyOf(p, o);
            var lo := if b < p then b else p;
            && Aligned(lo, o + 1)
            && Pow2(o + 1) == 2 * Pow2(o)
            && ((lo == p && b == lo + Pow2(o)) || (lo == b && p == lo + Pow2(o)))
  {
    BuddyIdx(p, o);
    var b := BuddyOf(p, o);
    var lo := if b < p then b else p;
    assert Idx(lo, o) % 2 == 0;
    Double(Idx(lo, o), Pow2(o));
  }

  /** The lower half of an aligned block is aligned, and the upper half is its buddy. */
  lemma SplitHalves(p: nat, o: nat)
    requires Aligned(p, o + 1)
    ensures Aligned(p, o) && BuddyOf(p, o) == p + Pow2(o)
  {
    var q, h := Idx(p, o + 1), Pow2(o);
    Double(2 * q, h);
    IdxUnique(p, 2 * q, o);
  }

  /** Bit length: the `64 - clz(n)` of the source, and 0 for 0. */
  function BitLen(n: nat): nat {
    if n == 0 then 0 else 1 + BitLen(n / 2)
  }

  lemma {:induction false} BitLenBounds(n: nat)
    ensures n < Pow2(BitLen(n))
    ensures n >= 1 ==> Pow2(BitLen(n) - 1) <= n
  {
    if n > 0 { BitLenBounds(n / 2); }
  }

  lemma {:induction false} Pow2Mono(a: nat, b: nat)
    requires a <= b
    ensures Pow2(a) <= Pow2(b) && (a < b ==> Pow2(a) < Pow2(b))
  {
    if a < b { Pow2Mono(a, b - 1); }
  }

  lemma {:induction false} Pow2Add(k: nat, s: nat)
    ensures Pow2(k + s) == Pow2(k) * Pow2(s)
  {
    if s > 0 {
      Pow2Add(k, s - 1);
      assert Pow2(k) * (2 * Pow2(s - 1)) == 2 * (Pow2(k) * Pow2(s - 1));
    }
  }

  /** 64-bit arithmetic wraps here. */
  const WORD: nat := 0x1_0000_0000_0000_0000

  lemma Squared(n: nat, p: nat)
    requires Pow2(n) == p
    ensures Pow2(2 * n) == p * p
  {
    Pow2Add(n, n);
  }

  lemma WordPower(n: nat)
    requires n == 64
    ensures WORD == Pow2(n)
  {
    var e: nat := 4;
    assert Pow2(e) == 16;
    Squared(e, 16);
    Squared(2 * e, 256);
    Squared(4 * e, 65536);
    Squared(8 * e, 0x1_0000_0000);
  }
}
