/** How growing and reclaiming change a page-table tree, and when they cancel out. */
module PageRel {
  import opened Paging
  import opened PageTree
  import opened PageEdit

  predicate OnPaths(p: Pos, v: nat, n: nat) {
    exists w: nat :: v <= w < v + n && OnPath(p, w)
  }

  /** Frames only move between the pool and the tables. */
  ghost predicate SameFrames(m: Mem, n: Mem) {
    forall f: nat {:trigger f in m.pool} {:trigger f in n.pool} :: f in m.pool || f in m.t <==> f in n.pool || f in n.t
  }

  predicate Upgraded(e: Pte, e': Pte) {
    e.Pte? && e' == e.(flags := e.flags.(user := true))
  }

  /** An inner entry is kept; if its table was empty it may have become accessible to user mode. */
  predicate InnerKept(m: Mem, n: Mem, f: nat, i: nat)
    requires f in m.t && f in n.t && i < |m.t[f]| && i < |n.t[f]|
  {
    m.t[f][i].Pte? ==>
      || n.t[f][i] == m.t[f][i]
      || (UserHalf(m, f, i) && Upgraded(m.t[f][i], n.t[f][i]) && m.t[f][i].frame in m.t && Empty(m.t, m.t[f][i].frame))
  }

  /** `n` has the tables of `m`, and further ones only on the paths of `v .. v + k`. */
  ghost predicate GrewInner(m: Mem, n: Mem, v: nat, k: nat) {
    && Valid(m) && Valid(n) && m.root == n.root && m.levels == n.levels
    && (forall f: nat {:trigger f in m.t} :: f in m.t ==> f in n.t && n.pos[f] == m.pos[f])
    && (forall g: nat {:trigger OnPaths(n.pos[g], v, k)} :: g in n.t && g !in m.t ==> OnPaths(n.pos[g], v, k))
    && (forall f: nat, i: nat {:trigger InnerKept(m, n, f, i)} :: f in m.t && i < ENTRIES && m.pos[f].level >= 2 ==> InnerKept(m, n, f, i))
    && SameKernelHalf(m, n)
    && SameFrames(m, n)
  }

  /** In addition, no leaf entry changed. */
  ghost predicate Grew(m: Mem, n: Mem, v: nat, k: nat) {
    && GrewInner(m, n, v, k)
    && (forall f: nat :: f in m.t && m.pos[f].level == 1 ==> n.t[f] == m.t[f])
    && (forall f: nat {:trigger Empty(n.t, f)} :: f in n.t && f !in m.t && n.pos[f].level == 1 ==> Empty(n.t, f))
    && Flat(m) == Flat(n)
  }

  predicate InnerShrunk(m: Mem, n: Mem, f: nat, i: nat)
    requires f in m.t && f in n.t && i < |m.t[f]| && i < |n.t[f]|
  {
    || n.t[f][i] == m.t[f][i]
    || (n.t[f][i].Zero? && UserHalf(m, f, i) && m.t[f][i].Pte? && m.t[f][i].frame !in n.t)
  }

  /** `n` is `m` without some of its tables. */
  ghost predicate ShrunkInner(m: Mem, n: Mem) {
    && Valid(m) && Valid(n) && m.root == n.root && m.levels == n.levels
    && (forall f: nat :: f in n.t ==> f in m.t && n.pos[f] == m.pos[f])
    && (forall f: nat, i: nat {:trigger InnerShrunk(m, n, f, i)} :: f in n.t && i < ENTRIES && n.pos[f].level >= 2 ==> InnerShrunk(m, n, f, i))
    && SameKernelHalf(m, n)
    && SameFrames(m, n)
  }

  ghost predicate Shrunk(m: Mem, n: Mem) {
    && ShrunkInner(m, n)
    && (forall f: nat :: f in n.t && n.pos[f].level == 1 ==> n.t[f] == m.t[f])
    && Flat(m) == Flat(n)
  }

  lemma GrewEmpty(m: Mem, n: Mem, v: nat, k: nat, f: nat)
    requires GrewInner(m, n, v, k) && f in m.t && Empty(n.t, f)
    requires m.pos[f].level == 1 ==> n.t[f] == m.t[f]
    ensures Empty(m.t, f)
  {
    forall i: nat | i < ENTRIES ensures m.t[f][i].Zero? {
      if m.pos[f].level >= 2 { assert InnerKept(m, n, f, i); }
    }
  }

  lemma GrewRefl(m: Mem, v: nat, k: nat)
    requires Valid(m)
    ensures Grew(m, m, v, k)
  {
  }

  lemma InnerKeptTrans(m: Mem, n: Mem, o: Mem, v: nat, k: nat, w: nat, f: nat, i: nat)
    requires Grew(m, n, v, k) && Grew(n, o, w, 1) && f in m.t && i < ENTRIES && m.pos[f].level >= 2
    ensures InnerKept(m, o, f, i)
  {
    assert InnerKept(m, n, f, i) && InnerKept(n, o, f, i);
    if m.t[f][i].Pte? && UserHalf(m, f, i) {
      assert LinkOk(m, f, i);
      var c := m.t[f][i].frame;
      if Empty(n.t, c) { GrewEmpty(m, n, v, k, c); }
    }
  }

  lemma OnPathsMore(p: Pos, v: nat, k: nat, w: nat, k2: nat)
    requires (OnPaths(p, v, k) && k <= k2) || (OnPaths(p, w, 1) && v <= w < v + k2)
    ensures OnPaths(p, v, k2)
  {
  }

  /** `k2` covers the paths of the first growth and the one path of the second. */
  lemma GrewTrans(m: Mem, n: Mem, o: Mem, v: nat, k: nat, w: nat, k2: nat)
    requires Grew(m, n, v, k) && Grew(n, o, w, 1) && k <= k2 && v <= w < v + k2
    ensures Grew(m, o, v, k2)
  {
    forall g: nat | g in o.t && g !in m.t ensures OnPaths(o.pos[g], v, k2) {
      if g in n.t { assert OnPaths(n.pos[g], v, k); } else { assert OnPaths(o.pos[g], w, 1); }
      OnPathsMore(o.pos[g], v, k, w, k2);
    }
    forall f: nat, i: nat | f in m.t && i < ENTRIES && m.pos[f].level >= 2 ensures InnerKept(m, o, f, i) {
      InnerKeptTrans(m, n, o, v, k, w, f, i);
    }
    forall f: nat | f in o.t && f !in m.t && o.pos[f].level == 1 ensures Empty(o.t, f) {
      if f in n.t { assert Empty(n.t, f); }
    }
  }

  lemma ShrunkRefl(m: Mem)
    requires Valid(m)
    ensures Shrunk(m, m)
  {
    forall f: nat, i: nat | f in m.t && i < ENTRIES && m.pos[f].level >= 2 ensures InnerShrunk(m, m, f, i) {}
  }

  lemma ShrunkTrans(m: Mem, n: Mem, o: Mem)
    requires Shrunk(m, n) && Shrunk(n, o)
    ensures Shrunk(m, o)
  {
    forall f: nat, i: nat | f in o.t && i < ENTRIES && o.pos[f].level >= 2 ensures InnerShrunk(m, o, f, i) {
      assert InnerShrunk(m, n, f, i) && InnerShrunk(n, o, f, i);
    }
  }

  /** Growing and then reclaiming down to a tree without empty tables gives the original back. */
  lemma Restores(m: Mem, n: Mem, o: Mem, v: nat, k: nat)
    requires GrewInner(m, n, v, k) && ShrunkInner(n, o)
    requires NoEmpty(m) && NoEmpty(o) && Flat(m) == Flat(o)
    ensures o == m
  {
    forall f: nat, i: nat | BothLink(m, o, f, i) ensures m.t[f][i] == o.t[f][i] {
      assert InnerKept(m, n, f, i) && InnerShrunk(n, o, f, i);
      if UserHalf(m, f, i) {
        assert LinkOk(m, f, i);
        LevelBelowOrRoot(m, f);
      }
    }
    forall f: nat, g: nat | f in m.pos && g in o.pos && m.pos[f] == o.pos[g] ensures f == g { assert SameAt(n, f, g); }
    SameTree(m, o);
    assert o.pool == m.pool;
  }

  /** Whatever reclaiming keeps that growing had added would be a table without a mapped page below. */
  lemma {:induction false} NewGone(m: Mem, n: Mem, o: Mem, v: nat, k: nat, g: nat)
    requires Grew(m, n, v, k) && Shrunk(n, o) && g in o.t
    requires forall f: nat :: f in o.t && f !in m.t ==> !Empty(o.t, f)
    ensures g in m.t
    decreases n.pos[g].level
  {
    assert g !in m.t && n.pos[g].level == 1 ==> Empty(n.t, g);
    if g !in m.t {
      var i: nat :| i < ENTRIES && o.t[g][i].Pte?;
      if n.pos[g].level >= 2 {
        assert InnerShrunk(n, o, g, i) && LinkOk(o, g, i);
        var c := o.t[g][i].frame;
        NewGone(m, n, o, v, k, c);
        OldParent(m, n, g, i, v, k, c);
      }
    }
  }

  /** The table above an old table is old. */
  lemma OldParent(m: Mem, n: Mem, g: nat, i: nat, v: nat, k: nat, c: nat)
    requires GrewInner(m, n, v, k) && g in n.t && i < ENTRIES && n.pos[g].level >= 2
    requires c in m.t && c != m.root && n.pos[c] == Child(n.pos[g], i)
    ensures g in m.t
  {
    assert HasParent(m, c);
    var f: nat, j: nat :| ParentOf(m, f, j, c);
    ChildInjective(m.pos[f], j, n.pos[g], i);
    assert SameAt(n, f, g);
  }

  /** A path whose entry at `f` is zero has no tables further down. */
  lemma {:induction false} NoneBelow(m: Mem, f: nat, v: nat, h: nat)
    requires Valid(m) && On(m, f, v) && m.pos[f].level >= 2 && m.t[f][Index(v, m.pos[f].level)].Zero?
    requires On(m, h, v)
    ensures m.pos[h].level >= m.pos[f].level
    decreases m.levels - m.pos[h].level
  {
    if h != m.root {
      assert HasParent(m, h);
      var g: nat, i: nat :| ParentOf(m, g, i, h);
      ChildOnPath(m.pos[g], i, v);
      assert SameAt(m, f, g) ==> f == g;
      if m.pos[h].level < m.pos[f].level {
        if m.pos[g].level < m.pos[f].level { NoneBelow(m, f, v, g); }
      }
    }
  }
}
