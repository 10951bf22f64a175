/**
 The table pages of one user address space, as they lie in physical memory.

 `t` maps a table frame to its 512 entries. The ghost map `pos` records where each table sits in the
 radix tree; well-formedness says that the entries agree with it.
 */
module PageTree {
  import opened Paging

  datatype Mem = Mem(root: nat, levels: nat, t: map<nat, seq<Pte>>, pos: map<nat, Pos>, pool: set<nat>)

  /** The lower half: the root index is below 256, so nothing else of the number is left above it. */
  predicate Low(m: Mem, v: nat)
  {
    m.levels >= 1 && Pre(v, m.levels - 1) < ENTRIES / 2
  }

  predicate Empty(t: map<nat, seq<Pte>>, f: nat)
    requires f in t
  {
    forall i :: 0 <= i < |t[f]| ==> t[f][i].Zero?
  }

  /** Entry `i` of table `f` belongs to the user half. */
  predicate UserHalf(m: Mem, f: nat, i: nat) {
    f == m.root ==> i < ENTRIES / 2
  }

  /** Entry `i` of `f` leads to a table that sits right below it. */
  predicate LinkOk(m: Mem, f: nat, i: nat)
    requires f in m.t && f in m.pos && i < |m.t[f]|
  {
    m.pos[f].level >= 2 && UserHalf(m, f, i) && m.t[f][i].Pte? ==>
      var g := m.t[f][i].frame;
      g in m.t && g in m.pos && m.pos[g] == Child(m.pos[f], i)
  }

  /** `f` holds the entry that leads to `g`, at index `i`. */
  predicate ParentOf(m: Mem, f: nat, i: nat, g: nat) {
    && f in m.t && f in m.pos && g in m.pos && i < |m.t[f]|
    && m.pos[f].level >= 2 && UserHalf(m, f, i)
    && m.pos[g] == Child(m.pos[f], i) && m.t[f][i].Pte? && m.t[f][i].frame == g
  }

  ghost predicate HasParent(m: Mem, g: nat) {
    exists f: nat, i: nat :: ParentOf(m, f, i, g)
  }

  predicate SameAt(m: Mem, f: nat, g: nat) {
    f in m.t && g in m.t && f in m.pos && g in m.pos && m.pos[f] == m.pos[g]
  }

  ghost predicate Valid(m: Mem) {
    && m.levels >= 2 && m.root in m.t && m.pos.Keys == m.t.Keys
    && m.pos[m.root] == Pos(m.levels, 0)
    && m.t.Keys !! m.pool
    && (forall f: nat :: f in m.t ==> |m.t[f]| == ENTRIES && 1 <= m.pos[f].level <= m.levels)
    && (forall f: nat, g: nat {:trigger SameAt(m, f, g)} :: SameAt(m, f, g) ==> f == g)
    && (forall f: nat, i: nat {:trigger LinkOk(m, f, i)} :: f in m.t && i < ENTRIES ==> LinkOk(m, f, i))
    && (forall g: nat {:trigger HasParent(m, g)} :: g in m.t && g != m.root ==> HasParent(m, g))
  }

  ghost predicate NoEmpty(m: Mem) {
    forall f: nat :: f in m.t && f != m.root ==> !Empty(m.t, f)
  }

  predicate On(m: Mem, f: nat, v: nat) {
    f in m.t && f in m.pos && OnPath(m.pos[f], v)
  }

  /** What the walk from table `f` at level `l` finds for `v`. */
  function Lookup(t: map<nat, seq<Pte>>, f: nat, l: nat, v: nat): Pte
    decreases l
  {
    if l == 0 || f !in t || |t[f]| != ENTRIES then Zero
    else
      var e := t[f][Index(v, l)];
      if l == 1 || e.Zero? then e else Lookup(t, e.frame, l - 1, v)
  }

  /** The flat map the tree stands for: `vmm_query_in`. */
  function Query(m: Mem, v: nat): Pte {
    Lookup(m.t, m.root, m.levels, v)
  }

  lemma LowRoot(m: Mem, v: nat)
    requires Valid(m) && Low(m, v)
    ensures On(m, m.root, v) && Index(v, m.levels) < ENTRIES / 2
  {
  }

  /** The walk's next table is the one below. */
  lemma Step(m: Mem, f: nat, v: nat)
    requires Valid(m) && Low(m, v) && On(m, f, v) && m.pos[f].level >= 2
    ensures var e := m.t[f][Index(v, m.pos[f].level)];
            e.Pte? ==> On(m, e.frame, v) && m.pos[e.frame].level == m.pos[f].level - 1
  {
    var i := Index(v, m.pos[f].level);
    LowRoot(m, v);
    assert LinkOk(m, f, i);
    ChildOnPath(m.pos[f], i, v);
  }

  /** From a table on the path, the rest of the walk decides the query. */
  lemma {:induction false} Reach(m: Mem, f: nat, v: nat)
    requires Valid(m) && On(m, f, v) && f != m.root
    ensures Low(m, v) && Query(m, v) == Lookup(m.t, f, m.pos[f].level, v)
    decreases m.levels - m.pos[f].level
  {
    assert HasParent(m, f);
    var g: nat, i: nat :| ParentOf(m, g, i, f);
    ChildOnPath(m.pos[g], i, v);
    if g != m.root { Reach(m, g, v); }
  }

  /** A page that is mapped has a table at every level of its path. */
  lemma {:induction false} AtLevel(m: Mem, v: nat, l: nat) returns (f: nat)
    requires Valid(m) && Low(m, v) && Query(m, v).Pte? && 1 <= l <= m.levels
    ensures On(m, f, v) && m.pos[f].level == l && Lookup(m.t, f, l, v).Pte?
    decreases m.levels - l
  {
    LowRoot(m, v);
    if l == m.levels {
      f := m.root;
    } else {
      var g := AtLevel(m, v, l + 1);
      Step(m, g, v);
      f := m.t[g][Index(v, l + 1)].frame;
    }
  }

  /** Under a table with no empty table at or below it there is a mapped page. */
  lemma {:induction false} Descend(m: Mem, f: nat) returns (v: nat)
    requires Valid(m) && NoEmpty(m) && f in m.t && f != m.root
    ensures On(m, f, v) && Low(m, v) && Query(m, v).Pte?
    decreases m.pos[f].level
  {
    var l := m.pos[f].level;
    var i: nat :| i < ENTRIES && m.t[f][i].Pte?;
    if l == 1 {
      v := m.pos[f].prefix * ENTRIES + i;
      ChildParts(m.pos[f].prefix, i);
      assert Pre(v, 1) == Pre(v, 0) / ENTRIES;
    } else {
      assert LinkOk(m, f, i);
      var g := m.t[f][i].frame;
      if g == m.root {
        LevelBelow(m, f);
      }
      v := Descend(m, g);
      ChildOnPath(m.pos[f], i, v);
    }
    Reach(m, f, v);
  }

  /** Only the root is at the top level. */
  lemma LevelBelow(m: Mem, f: nat)
    requires Valid(m) && f in m.t && f != m.root
    ensures m.pos[f].level < m.levels
  {
    assert HasParent(m, f);
  }

  /** The flat map from page numbers of the lower half to leaf entries. */
  ghost function Flat(m: Mem): imap<nat, Pte> {
    imap v: nat | Low(m, v) :: Query(m, v)
  }

  lemma FlatAt(m: Mem, n: Mem, v: nat)
    requires Flat(m) == Flat(n) && Low(m, v)
    ensures Query(m, v) == Query(n, v)
  {
    assert Flat(m)[v] == Query(m, v);
    assert v in Flat(n) && Flat(n)[v] == Query(n, v);
  }

  /** No place is served by two different frames. */
  ghost predicate SamePlaces(m: Mem, n: Mem) {
    forall f: nat, g: nat :: f in m.pos && g in n.pos && m.pos[f] == n.pos[g] ==> f == g
  }

  predicate BothLink(m: Mem, n: Mem, f: nat, i: nat) {
    && f in m.t && f in n.t && f in m.pos && i < |m.t[f]| && i < |n.t[f]|
    && m.pos[f].level >= 2 && m.t[f][i].Pte? && n.t[f][i].Pte?
  }

  ghost predicate SameLinks(m: Mem, n: Mem) {
    forall f: nat, i: nat :: BothLink(m, n, f, i) ==> m.t[f][i] == n.t[f][i]
  }

  ghost predicate SameKernelHalf(m: Mem, n: Mem)
    requires Valid(m) && Valid(n) && m.root == n.root
  {
    forall i: nat :: ENTRIES / 2 <= i < ENTRIES ==> m.t[m.root][i] == n.t[n.root][i]
  }

  /**
   Canonical form. Two trees without empty tables that answer every query alike, put no two different
   frames at one place, and agree on the flags of inner entries are the same tree, frame by frame.
   */
  lemma SameTree(m: Mem, n: Mem)
    requires Valid(m) && Valid(n) && NoEmpty(m) && NoEmpty(n) && m.root == n.root && m.levels == n.levels
    requires Flat(m) == Flat(n) && SamePlaces(m, n) && SameLinks(m, n) && SameKernelHalf(m, n)
    ensures m.t == n.t && m.pos == n.pos
  {
    forall f: nat | f in m.t ensures f in n.t && n.pos[f] == m.pos[f] { SamePlace(m, n, f); }
    forall f: nat | f in n.t ensures f in m.t { SamePlace(n, m, f); }
    assert m.pos == n.pos;
    forall f: nat | f in m.t ensures m.t[f] == n.t[f] {
      forall i: nat | i < ENTRIES ensures m.t[f][i] == n.t[f][i] { SameEntry(m, n, f, i); }
    }
  }

  lemma SamePlace(m: Mem, n: Mem, f: nat)
    requires Valid(m) && Valid(n) && NoEmpty(m) && m.root == n.root && m.levels == n.levels && f in m.t
    requires Flat(m) == Flat(n) && SamePlaces(m, n)
    ensures f in n.t && n.pos[f] == m.pos[f]
  {
    if f != m.root {
      var v := Descend(m, f);
      FlatAt(m, n, v);
      var g := AtLevel(n, v, m.pos[f].level);
    }
  }

  lemma SameEntry(m: Mem, n: Mem, f: nat, i: nat)
    requires Valid(m) && Valid(n) && m.root == n.root && m.levels == n.levels
    requires m.pos == n.pos && m.t.Keys == n.t.Keys && f in m.t && i < ENTRIES
    requires Flat(m) == Flat(n) && SameLinks(m, n) && SameKernelHalf(m, n)
    ensures m.t[f][i] == n.t[f][i]
  {
    if !UserHalf(m, f, i) {
    } else if m.pos[f].level == 1 {
      var v := m.pos[f].prefix * ENTRIES + i;
      ChildParts(m.pos[f].prefix, i);
      assert Pre(v, 1) == Pre(v, 0) / ENTRIES;
      Reach(m, f, v);
      Reach(n, f, v);
      FlatAt(m, n, v);
    } else {
      assert BothLink(m, n, f, i) ==> m.t[f][i] == n.t[f][i];
      if m.t[f][i].Pte? { LinkStays(m, n, f, i); }
      if n.t[f][i].Pte? { LinkStays(n, m, f, i); }
    }
  }

  /** A link to a table that still exists at its place is still there. */
  lemma LinkStays(m: Mem, n: Mem, f: nat, i: nat)
    requires Valid(m) && Valid(n) && m.root == n.root && m.levels == n.levels
    requires m.pos == n.pos && m.t.Keys == n.t.Keys && f in m.t && i < ENTRIES
    requires m.pos[f].level >= 2 && UserHalf(m, f, i) && m.t[f][i].Pte?
    ensures n.t[f][i].Pte? && n.t[f][i].frame == m.t[f][i].frame
  {
    assert LinkOk(m, f, i);
    var g := m.t[f][i].frame;
    assert HasParent(n, g);
    var h: nat, j: nat :| ParentOf(n, h, j, g);
    ChildInjective(m.pos[f], i, n.pos[h], j);
    assert SameAt(n, f, h);
  }
}
