/** The FAT16 file allocation table as a forest of cluster chains. */
module FatTable {
  import opened Counting

  const FIRST_CLUSTER: nat := 2
  const BAD_CLUSTER: nat := 0xFFF7
  const EOC_MIN: nat := 0xFFF8
  const SECTOR: nat := 512
  const ENTRIES_PER_SECTOR: nat := SECTOR / 2
  const U32: nat := 0x1_0000_0000

  /** One entry per cluster number, entries 0 and 1 included. */
  type Fat = seq<nat>

  /** From the number of a chain's first cluster to the chain. */
  type Forest = map<nat, seq<nat>>

  predicate InVolume(fat: Fat, c: nat) {
    FIRST_CLUSTER <= c < |fat| && c < BAD_CLUSTER
  }

  /** `ch` is linked through the table, never meets itself and ends in an end-of-chain mark. */
  predicate IsChain(fat: Fat, ch: seq<nat>) {
    && ch != [] && Distinct(ch)
    && (forall i :: 0 <= i < |ch| ==> InVolume(fat, ch[i]))
    && (forall i :: 0 <= i < |ch| - 1 ==> fat[ch[i]] == ch[i + 1])
    && fat[ch[|ch| - 1]] >= EOC_MIN
  }

  /** Cluster `c` is in use by a chain. */
  predicate InUse(fat: Fat, c: nat) {
    InVolume(fat, c) && fat[c] != 0 && fat[c] != BAD_CLUSTER
  }

  predicate Holds(forest: Forest, h: nat, i: nat, c: nat) {
    h in forest && i < |forest[h]| && forest[h][i] == c
  }

  ghost predicate Owned(forest: Forest, c: nat) {
    exists h: nat, i: nat :: Holds(forest, h, i, c)
  }

  /** The clusters in use are exactly those of the chains, and no two chains share one. */
  ghost predicate IsForest(fat: Fat, forest: Forest) {
    && |fat| <= BAD_CLUSTER
    && (forall h :: h in forest ==> IsChain(fat, forest[h]) && forest[h][0] == h)
    && (forall h: nat, i: nat, g: nat, j: nat, c: nat {:trigger Holds(forest, h, i, c), Holds(forest, g, j, c)} ::
          Holds(forest, h, i, c) && Holds(forest, g, j, c) ==> h == g && i == j)
    && (forall c: nat {:trigger Owned(forest, c)} :: InUse(fat, c) ==> Owned(forest, c))
  }

  lemma HeadsInVolume(fat: Fat, forest: Forest)
    requires IsForest(fat, forest)
    ensures forall h :: h in forest ==> h >= FIRST_CLUSTER
  {
    forall h | h in forest ensures h >= FIRST_CLUSTER { assert InVolume(fat, forest[h][0]); }
  }

  lemma HeldInUse(fat: Fat, forest: Forest, h: nat, i: nat, c: nat)
    requires IsForest(fat, forest) && Holds(forest, h, i, c)
    ensures InUse(fat, c)
  {
    var ch := forest[h];
    if i < |ch| - 1 { assert fat[ch[i]] == ch[i + 1] && InVolume(fat, ch[i + 1]); }
  }

  /** A table agrees with another on a chain if it agrees on its clusters. */
  lemma ChainKept(fat: Fat, fat': Fat, ch: seq<nat>)
    requires IsChain(fat, ch) && |fat'| == |fat| && forall i :: 0 <= i < |ch| ==> fat'[ch[i]] == fat[ch[i]]
    ensures IsChain(fat', ch)
  {
  }

  /** A free cluster marked as end of chain starts a chain of its own. */
  lemma NewChain(fat: Fat, forest: Forest, c: nat)
    requires IsForest(fat, forest) && InVolume(fat, c) && fat[c] == 0
    ensures c !in forest && IsForest(fat[c := EOC_MIN], forest[c := [c]])
  {
    var fat', f' := fat[c := EOC_MIN], forest[c := [c]];
    forall h: nat, i: nat | Holds(forest, h, i, c) ensures false { HeldInUse(fat, forest, h, i, c); }
    assert c in forest ==> Holds(forest, c, 0, c);
    forall h | h in f' ensures IsChain(fat', f'[h]) && f'[h][0] == h {
      if h != c {
        forall i: nat | i < |forest[h]| ensures forest[h][i] != c { assert Holds(forest, h, i, c) || forest[h][i] != c; }
        ChainKept(fat, fat', forest[h]);
      }
    }
    forall h: nat, i: nat, g: nat, j: nat, d: nat | Holds(f', h, i, d) && Holds(f', g, j, d) ensures h == g && i == j {
      assert h != c ==> Holds(forest, h, i, d);
      assert g != c ==> Holds(forest, g, j, d);
    }
    forall d: nat | InUse(fat', d) ensures Owned(f', d) {
      if d == c {
        assert Holds(f', c, 0, c);
      } else {
        assert Owned(forest, d);
        var h: nat, i: nat :| Holds(forest, h, i, d);
        assert Holds(f', h, i, d);
      }
    }
  }

  /** A free cluster linked behind the last one lengthens the chain. */
  lemma LongerChain(fat: Fat, forest: Forest, h: nat, c: nat)
    requires IsForest(fat, forest) && h in forest && InVolume(fat, c) && fat[c] == 0
    ensures var last := forest[h][|forest[h]| - 1];
      last != c && IsForest(fat[c := EOC_MIN][last := c], forest[h := forest[h] + [c]])
  {
    var ch := forest[h];
    var n := |ch| - 1;
    var last := ch[n];
    assert Holds(forest, h, n, last);
    HeldInUse(fat, forest, h, n, last);
    var fat', f' := fat[c := EOC_MIN][last := c], forest[h := ch + [c]];
    forall g: nat, i: nat | Holds(forest, g, i, c) ensures false { HeldInUse(fat, forest, g, i, c); }
    forall i: nat | i < |ch| ensures ch[i] != c { assert Holds(forest, h, i, ch[i]); }
    assert IsChain(fat', ch + [c]);
    forall g | g in f' ensures IsChain(fat', f'[g]) && f'[g][0] == g {
      if g != h {
        forall i: nat | i < |forest[g]| ensures forest[g][i] != c && forest[g][i] != last { assert Holds(forest, g, i, forest[g][i]); }
        ChainKept(fat, fat', forest[g]);
      }
    }
    forall a: nat, i: nat, g: nat, j: nat, d: nat | Holds(f', a, i, d) && Holds(f', g, j, d) ensures a == g && i == j {
      assert a != h || i < |ch| ==> Holds(forest, a, i, d);
      assert g != h || j < |ch| ==> Holds(forest, g, j, d);
    }
    forall d: nat | InUse(fat', d) ensures Owned(f', d) {
      if d == c {
        assert Holds(f', h, |ch|, c);
      } else {
        assert InUse(fat, d) && Owned(forest, d);
        var g: nat, i: nat :| Holds(forest, g, i, d);
        assert Holds(f', g, i, d);
      }
    }
  }

  /** `fat` with every cluster of `ch` freed. */
  function Freed(fat: Fat, ch: seq<nat>): (r: Fat)
    ensures |r| == |fat|
    ensures forall c: nat :: c < |fat| ==> r[c] == if c in ch then 0 else fat[c]
  {
    seq(|fat|, c requires 0 <= c < |fat| => if c in ch then 0 else fat[c])
  }

  /** Freeing a whole chain leaves the other chains. */
  lemma FreeWhole(fat: Fat, forest: Forest, h: nat)
    requires IsForest(fat, forest) && h in forest
    ensures IsForest(Freed(fat, forest[h]), forest - {h})
  {
    var fat', f' := Freed(fat, forest[h]), forest - {h};
    forall g | g in f' ensures IsChain(fat', f'[g]) && f'[g][0] == g {
      forall i: nat | i < |forest[g]| ensures forest[g][i] !in forest[h] { NotShared(fat, forest, g, i, h); }
      ChainKept(fat, fat', forest[g]);
    }
    forall a: nat, i: nat, g: nat, j: nat, d: nat | Holds(f', a, i, d) && Holds(f', g, j, d) ensures a == g && i == j {
      assert Holds(forest, a, i, d) && Holds(forest, g, j, d);
    }
    forall d: nat | InUse(fat', d) ensures Owned(f', d) {
      assert InUse(fat, d) && Owned(forest, d);
      var g: nat, i: nat :| Holds(forest, g, i, d);
      assert Holds(f', g, i, d);
    }
  }

  lemma NotShared(fat: Fat, forest: Forest, g: nat, i: nat, h: nat)
    requires IsForest(fat, forest) && g in forest && i < |forest[g]| && h in forest && g != h
    ensures forest[g][i] !in forest[h]
  {
    if forest[g][i] in forest[h] {
      var j: nat :| j < |forest[h]| && forest[h][j] == forest[g][i];
      assert Holds(forest, g, i, forest[g][i]) && Holds(forest, h, j, forest[g][i]);
    }
  }

  /** Cutting a chain after its first `k` clusters. */
  lemma CutChain(fat: Fat, forest: Forest, h: nat, k: nat)
    requires IsForest(fat, forest) && h in forest && 1 <= k < |forest[h]|
    ensures forest[h][k - 1] < |fat|
    ensures IsForest(Freed(fat, forest[h][k..])[forest[h][k - 1] := EOC_MIN], forest[h := forest[h][..k]])
  {
    var ch := forest[h];
    var fat', f' := Freed(fat, ch[k..])[ch[k - 1] := EOC_MIN], forest[h := ch[..k]];
    CutHead(fat, ch, k);
    forall g | g in f' ensures IsChain(fat', f'[g]) && f'[g][0] == g {
      if g != h {
        forall i: nat | i < |forest[g]| ensures forest[g][i] !in ch[k..] && forest[g][i] != ch[k - 1] {
          NotShared(fat, forest, g, i, h);
        }
        ChainKept(fat, fat', forest[g]);
      }
    }
    forall a: nat, i: nat, g: nat, j: nat, d: nat | Holds(f', a, i, d) && Holds(f', g, j, d) ensures a == g && i == j {
      assert Holds(forest, a, i, d) && Holds(forest, g, j, d);
    }
    forall d: nat | InUse(fat', d) ensures Owned(f', d) { StillOwned(fat, forest, h, k, d); }
  }

  lemma CutHead(fat: Fat, ch: seq<nat>, k: nat)
    requires IsChain(fat, ch) && 1 <= k < |ch|
    ensures IsChain(Freed(fat, ch[k..])[ch[k - 1] := EOC_MIN], ch[..k])
  {
    forall i: nat | i < k ensures ch[i] !in ch[k..] {}
  }

  /** The clusters in use after a chain is cut are on the chains that are left. */
  lemma StillOwned(fat: Fat, forest: Forest, h: nat, k: nat, d: nat)
    requires IsForest(fat, forest) && h in forest && 1 <= k < |forest[h]| && forest[h][k - 1] < |fat|
    requires InUse(Freed(fat, forest[h][k..])[forest[h][k - 1] := EOC_MIN], d)
    ensures Owned(forest[h := forest[h][..k]], d)
  {
    var ch, f' := forest[h], forest[h := forest[h][..k]];
    if d == ch[k - 1] {
      assert Holds(f', h, k - 1, d);
    } else {
      assert Owned(forest, d);
      var g: nat, i: nat :| Holds(forest, g, i, d);
      assert ch == ch[..k] + ch[k..] && d !in ch[k..];
      assert Holds(f', g, i, d);
    }
  }
}
