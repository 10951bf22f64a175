/** Page-table entries and the radix arithmetic of virtual page numbers. */
module Paging {

  const ENTRIES: nat := 512

  /** The flag bits of a present entry that the kernel reads or writes. */
  datatype Flags = Flags(write: bool, user: bool, nx: bool, owned: bool, cow: bool, pinned: bool, sharedref: bool)

  /** The kernel stores either 0 or a present entry, so an entry that is not 0 is present. */
  datatype Pte = Zero | Pte(frame: nat, flags: Flags)

  /** The part of virtual page number `v` above the lowest `l` table levels: `v >> 9 * l`. */
  function Pre(v: nat, l: nat): nat {
    if l == 0 then v else Pre(v, l - 1) / ENTRIES
  }

  /** The index that level `l` (1 is the leaf level) takes from `v`. */
  function Index(v: nat, l: nat): (i: nat)
    requires l >= 1
    ensures i < ENTRIES
  {
    Pre(v, l - 1) % ENTRIES
  }

  lemma {:induction false} PreMono(v: nat, w: nat, l: nat)
    requires v <= w
    ensures Pre(v, l) <= Pre(w, l)
  {
    if l > 0 { PreMono(v, w, l - 1); }
  }

  /** A page number is its prefix and its index. */
  lemma PreIndex(v: nat, l: nat)
    requires l >= 1
    ensures Pre(v, l - 1) == Pre(v, l) * ENTRIES + Index(v, l)
  {
  }

  /** Where a table sits: its level and the page-number prefix it serves. */
  datatype Pos = Pos(level: nat, prefix: nat)

  predicate OnPath(p: Pos, v: nat) { p.prefix == Pre(v, p.level) }

  function Child(p: Pos, i: nat): Pos
    requires p.level >= 1
  {
    Pos(p.level - 1, p.prefix * ENTRIES + i)
  }

  lemma ChildOnPath(p: Pos, i: nat, v: nat)
    requires p.level >= 1 && i < ENTRIES
    ensures OnPath(Child(p, i), v) <==> OnPath(p, v) && Index(v, p.level) == i
  {
    PreIndex(v, p.level);
    ChildParts(p.prefix, i);
  }

  lemma ChildParts(p: nat, i: nat)
    requires i < ENTRIES
    ensures (p * ENTRIES + i) / ENTRIES == p && (p * ENTRIES + i) % ENTRIES == i
  {
  }

  lemma ChildInjective(p: Pos, i: nat, q: Pos, j: nat)
    requires p.level >= 1 && q.level >= 1 && i < ENTRIES && j < ENTRIES && Child(p, i) == Child(q, j)
    ensures p == q && i == j
  {
    ChildParts(p.prefix, i);
    ChildParts(q.prefix, j);
  }
}
