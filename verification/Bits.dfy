/** Bitwise operators on unsigned integers, digit by digit. */
module Bits {
  import opened Blocks

  /** Bit `p` of `a`, that is `a >> p & 1`. */
  predicate Bit(a: nat, p: nat) {
    Idx(a, p) % 2 == 1
  }

  lemma {:induction false} Shift(a: nat, p: nat)
    ensures Idx(a, p + 1) == Idx(a / 2, p)
  {
    if p > 0 { Shift(a, p - 1); }
  }

  function And(a: nat, b: nat): nat {
    if a == 0 then 0 else (if a % 2 == 1 && b % 2 == 1 then 1 else 0) + 2 * And(a / 2, b / 2)
  }

  function Or(a: nat, b: nat): nat
    decreases a + b
  {
    if a == 0 && b == 0 then 0 else (if a % 2 == 1 || b % 2 == 1 then 1 else 0) + 2 * Or(a / 2, b / 2)
  }

  lemma {:induction false} ZeroBits(p: nat)
    ensures !Bit(0, p)
  {
    if p > 0 { Shift(0, p - 1); ZeroBits(p - 1); }
  }

  lemma {:induction false} AndBits(a: nat, b: nat, p: nat)
    ensures Bit(And(a, b), p) <==> Bit(a, p) && Bit(b, p)
    decreases a
  {
    if a == 0 {
      ZeroBits(p);
    } else {
      assert And(a, b) / 2 == And(a / 2, b / 2);
      if p > 0 {
        AndBits(a / 2, b / 2, p - 1);
        Shift(And(a, b), p - 1);
        Shift(a, p - 1);
        Shift(b, p - 1);
      }
    }
  }

  lemma {:induction false} OrBits(a: nat, b: nat, p: nat)
    ensures Bit(Or(a, b), p) <==> Bit(a, p) || Bit(b, p)
    decreases a + b
  {
    if a == 0 && b == 0 {
      ZeroBits(p);
    } else {
      assert Or(a, b) / 2 == Or(a / 2, b / 2);
      if p > 0 {
        OrBits(a / 2, b / 2, p - 1);
        Shift(Or(a, b), p - 1);
        Shift(a, p - 1);
        Shift(b, p - 1);
      }
    }
  }

  /** `1 << n` has exactly bit `n`. */
  lemma {:induction false} PowerBits(n: nat, p: nat)
    ensures Bit(Pow2(n), p) <==> p == n
  {
    if n == 0 {
      if p > 0 { Shift(1, p - 1); ZeroBits(p - 1); }
    } else {
      assert Pow2(n) / 2 == Pow2(n - 1);
      if p > 0 { Shift(Pow2(n), p - 1); PowerBits(n - 1, p - 1); }
    }
  }

  /** `(1 << n) - 1` has exactly the bits below `n`. */
  lemma {:induction false} LowBits(n: nat, p: nat)
    ensures Bit(Pow2(n) - 1, p) <==> p < n
  {
    if n == 0 {
      ZeroBits(p);
    } else {
      assert (Pow2(n) - 1) % 2 == 1 && (Pow2(n) - 1) / 2 == Pow2(n - 1) - 1;
      if p > 0 { Shift(Pow2(n) - 1, p - 1); LowBits(n - 1, p - 1); }
    }
  }

  /** Numbers with the same bits are equal. */
  lemma {:induction false} SameBits(a: nat, b: nat)
    requires forall p: nat :: Bit(a, p) <==> Bit(b, p)
    ensures a == b
    decreases a + b
  {
    if a != 0 || b != 0 {
      assert Bit(a, 0) <==> Bit(b, 0);
      forall p: nat ensures Bit(a / 2, p) <==> Bit(b / 2, p) {
        Shift(a, p);
        Shift(b, p);
        assert Bit(a, p + 1) <==> Bit(b, p + 1);
      }
      SameBits(a / 2, b / 2);
    }
  }

  /** A mask covers the `n` low bits exactly when it has each of them. */
  lemma CoversLow(m: nat, n: nat)
    ensures And(m, Pow2(n) - 1) == Pow2(n) - 1 <==> forall p: nat :: p < n ==> Bit(m, p)
  {
    var need := Pow2(n) - 1;
    var both := And(m, need);
    forall p: nat ensures Bit(need, p) <==> p < n { LowBits(n, p); }
    forall p: nat ensures Bit(both, p) <==> Bit(m, p) && p < n { AndBits(m, need, p); }
    if forall p: nat :: p < n ==> Bit(m, p) {
      SameBits(both, need);
    } else {
      var p: nat :| p < n && !Bit(m, p);
      assert !Bit(m, p) && Bit(need, p) && !Bit(both, p);
    }
  }

  lemma {:induction false} AndBelow(a: nat, b: nat)
    ensures And(a, b) <= a && And(a, b) <= b
  {
    if a != 0 { AndBelow(a / 2, b / 2); }
  }

  /** A mask and its complement in `n` bits split a number in two. */
  lemma {:induction false} AndSplit(x: nat, c: nat, n: nat)
    requires x < Pow2(n) && c < Pow2(n)
    ensures And(x, c) + And(x, Pow2(n) - 1 - c) == x
  {
    if x != 0 {
      var d := Pow2(n) - 1 - c;
      assert d / 2 == Pow2(n - 1) - 1 - c / 2 && d % 2 == 1 - c % 2;
      AndSplit(x / 2, c / 2, n - 1);
    }
  }
}
