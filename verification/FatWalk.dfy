/** Following links through a table that need not be well formed. */
module FatWalk {
  import opened FatTable
  import opened Options

  /** `fat_next`. */
  function Next(fat: Fat, c: nat): Option<nat> {
    if InVolume(fat, c) && FIRST_CLUSTER <= fat[c] < EOC_MIN then Some(fat[c]) else None
  }

  /** The cluster `n` links after `c`. */
  function Nth(fat: Fat, c: nat, n: nat): Option<nat>
    decreases n
  {
    if n == 0 then Some(c) else match Next(fat, c) case None => None case Some(d) => Nth(fat, d, n - 1)
  }

  /** Walking from `c` comes to cluster `d` of the volume. */
  ghost predicate Reaches(fat: Fat, c: nat, d: nat) {
    InVolume(fat, d) && exists n: nat :: Nth(fat, c, n) == Some(d)
  }

  /** Walking from `c` comes to a number beyond the volume's last cluster. */
  ghost predicate Strays(fat: Fat, c: nat) {
    exists n: nat, d: nat :: |fat| <= d && FIRST_CLUSTER <= d < BAD_CLUSTER && Nth(fat, c, n) == Some(d)
  }

  lemma {:induction false} NthStep(fat: Fat, c: nat, n: nat)
    ensures Nth(fat, c, n + 1) == match Nth(fat, c, n) case None => None case Some(d) => Next(fat, d)
    decreases n
  {
    if n > 0 && Next(fat, c).Some? { NthStep(fat, Next(fat, c).value, n - 1); }
  }

  /** A set that holds `c` and the links out of its members holds all that is reached from `c`. */
  lemma {:induction false} ClosedReach(fat: Fat, c: nat, all: set<nat>, n: nat)
    requires forall d: nat :: d in all ==> Next(fat, d).None? || !InVolume(fat, Next(fat, d).value) || Next(fat, d).value in all
    requires InVolume(fat, c) ==> c in all
    requires Nth(fat, c, n).Some? && InVolume(fat, Nth(fat, c, n).value)
    ensures Nth(fat, c, n).value in all
    decreases n
  {
    if n > 0 { ClosedReach(fat, Next(fat, c).value, all, n - 1); }
  }

  /** If all links out of a set stay in it, or lead to no cluster number, then a walk from it does not stray. */
  lemma {:induction false} ClosedStays(fat: Fat, c: nat, all: set<nat>, n: nat)
    requires forall d: nat :: d in all ==> InVolume(fat, d) && (Next(fat, d).None? || Next(fat, d).value in all || Next(fat, d).value >= BAD_CLUSTER)
    requires c in all || c < FIRST_CLUSTER || c >= BAD_CLUSTER
    ensures var v := Nth(fat, c, n); v.Some? ==> v.value in all || v.value < FIRST_CLUSTER || v.value >= BAD_CLUSTER
    decreases n
  {
    if n > 0 && Next(fat, c).Some? && c in all { ClosedStays(fat, Next(fat, c).value, all, n - 1); }
  }

  /** From cluster number `k` of a chain, the walk goes through the rest of the chain and ends there. */
  lemma {:induction false} NthInChain(fat: Fat, ch: seq<nat>, k: nat, n: nat)
    requires IsChain(fat, ch) && k < |ch|
    ensures Nth(fat, ch[k], n) == if k + n < |ch| then Some(ch[k + n]) else None
    decreases n
  {
    assert InVolume(fat, ch[k]);
    if k + 1 < |ch| {
      assert InVolume(fat, ch[k + 1]);
      if n > 0 { NthInChain(fat, ch, k + 1, n - 1); }
    }
  }

  lemma ChainReach(fat: Fat, ch: seq<nat>, k: nat)
    requires IsChain(fat, ch) && k < |ch|
    ensures !Strays(fat, ch[k])
    ensures forall d: nat :: Reaches(fat, ch[k], d) <==> d in ch[k..]
  {
    forall n: nat ensures Nth(fat, ch[k], n) == if k + n < |ch| then Some(ch[k + n]) else None { NthInChain(fat, ch, k, n); }
    forall d: nat | d in ch[k..] ensures Reaches(fat, ch[k], d) {
      var i: nat :| i < |ch[k..]| && ch[k..][i] == d;
      assert Nth(fat, ch[k], i) == Some(d);
    }
  }

  /** The entries that are not free. */
  ghost function NonZero(fat: Fat): set<nat> {
    set c: nat | c < |fat| && fat[c] != 0
  }

  lemma ClearLess(fat: Fat, c: nat)
    requires c < |fat| && fat[c] != 0
    ensures |NonZero(fat[c := 0])| < |NonZero(fat)|
  {
    assert NonZero(fat[c := 0]) == NonZero(fat) - {c};
  }
}
