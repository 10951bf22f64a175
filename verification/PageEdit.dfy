/** The single writes the kernel makes to a page-table tree, and what they do to the flat map. */
module PageEdit {
  import opened Paging
  import opened PageTree

  function WithEntry(m: Mem, g: nat, i: nat, e: Pte): Mem
    requires g in m.t && i < |m.t[g]|
  {
    m.(t := m.t[g := m.t[g][i := e]])
  }

  function Zeros(): (z: seq<Pte>)
    ensures |z| == ENTRIES && forall i :: 0 <= i < ENTRIES ==> z[i].Zero?
  {
    seq(ENTRIES, _ => Zero)
  }

  /** A fresh, zeroed table `e.frame` hung below entry `i` of `g`. */
  function Link(m: Mem, g: nat, i: nat, e: Pte): Mem
    requires g in m.t && g in m.pos && m.pos[g].level >= 1 && i < |m.t[g]| && e.Pte?
  {
    m.(t := m.t[e.frame := Zeros()][g := m.t[g][i := e]],
       pos := m.pos[e.frame := Child(m.pos[g], i)],
       pool := m.pool - {e.frame})
  }

  /** The table below entry `i` of `g` returned to the pool. */
  function Unlink(m: Mem, g: nat, i: nat): Mem
    requires g in m.t && i < |m.t[g]| && m.t[g][i].Pte?
  {
    var h := m.t[g][i].frame;
    m.(t := m.t[g := m.t[g][i := Zero]] - {h}, pos := m.pos - {h}, pool := m.pool + {h})
  }

  /** The walk for `v` from table `f` at level `l` reads entry `i` of `g`. */
  predicate Uses(t: map<nat, seq<Pte>>, f: nat, l: nat, v: nat, g: nat, i: nat)
    decreases l
  {
    && l >= 1 && f in t && |t[f]| == ENTRIES
    && (|| (f == g && Index(v, l) == i)
        || (l >= 2 && t[f][Index(v, l)].Pte? && Uses(t, t[f][Index(v, l)].frame, l - 1, v, g, i)))
  }

  /** An entry matters only to the walks that read it. */
  lemma {:induction false} EntryLookup(t: map<nat, seq<Pte>>, g: nat, i: nat, e: Pte, f: nat, l: nat, v: nat)
    requires g in t && |t[g]| == ENTRIES && i < ENTRIES && !Uses(t, f, l, v, g, i)
    ensures Lookup(t[g := t[g][i := e]], f, l, v) == Lookup(t, f, l, v)
    decreases l
  {
    if l >= 2 && f in t && |t[f]| == ENTRIES {
      var c := t[f][Index(v, l)];
      if c.Pte? { EntryLookup(t, g, i, e, c.frame, l - 1, v); }
    }
  }

  /** In a valid tree a walk reads an entry only if the entry lies on its path. */
  lemma {:induction false} UsesOnPath(m: Mem, f: nat, v: nat, g: nat, i: nat)
    requires Valid(m) && Low(m, v) && On(m, f, v) && Uses(m.t, f, m.pos[f].level, v, g, i)
    ensures g in m.t && OnPath(m.pos[g], v) && Index(v, m.pos[g].level) == i && m.pos[g].level <= m.pos[f].level
    decreases m.pos[f].level
  {
    if !(f == g && Index(v, m.pos[f].level) == i) {
      Step(m, f, v);
      UsesOnPath(m, m.t[f][Index(v, m.pos[f].level)].frame, v, g, i);
    }
  }

  /** Same links and same table places make the edited tree valid. */
  lemma EntryValid(m: Mem, g: nat, i: nat, e: Pte)
    requires Valid(m) && g in m.t && i < ENTRIES
    requires m.pos[g].level == 1 || (UserHalf(m, g, i) && m.t[g][i].Pte? && e.Pte? && e.frame == m.t[g][i].frame)
    ensures Valid(WithEntry(m, g, i, e))
  {
    var n := WithEntry(m, g, i, e);
    forall f: nat, h: nat | SameAt(n, f, h) ensures f == h { assert SameAt(m, f, h); }
    forall f: nat, j: nat | f in n.t && j < ENTRIES ensures LinkOk(n, f, j) { assert LinkOk(m, f, j); }
    forall h: nat | h in n.t && h != n.root ensures HasParent(n, h) {
      assert HasParent(m, h);
      var f: nat, j: nat :| ParentOf(m, f, j, h);
      assert ParentOf(n, f, j, h);
    }
  }

  /** Off its path, an entry does not matter. */
  lemma EntryQuery(m: Mem, g: nat, i: nat, e: Pte, v: nat)
    requires Valid(m) && g in m.t && i < ENTRIES && Low(m, v)
    requires !(OnPath(m.pos[g], v) && Index(v, m.pos[g].level) == i)
    ensures Query(WithEntry(m, g, i, e), v) == Query(m, v)
  {
    LowRoot(m, v);
    if Uses(m.t, m.root, m.levels, v, g, i) { UsesOnPath(m, m.root, v, g, i); }
    EntryLookup(m.t, g, i, e, m.root, m.levels, v);
  }

  /** Writing a leaf entry changes the flat map at one page. */
  lemma LeafWrite(m: Mem, g: nat, i: nat, e: Pte)
    requires Valid(m) && g in m.t && i < ENTRIES && m.pos[g].level == 1
    ensures Valid(WithEntry(m, g, i, e))
    ensures forall v: nat :: Low(m, v) ==>
      Query(WithEntry(m, g, i, e), v) == if OnPath(m.pos[g], v) && Index(v, 1) == i then e else Query(m, v)
  {
    EntryValid(m, g, i, e);
    var n := WithEntry(m, g, i, e);
    forall v: nat | Low(m, v)
      ensures Query(n, v) == if OnPath(m.pos[g], v) && Index(v, 1) == i then e else Query(m, v)
    {
      if OnPath(m.pos[g], v) && Index(v, 1) == i {
        Reach(n, g, v);
      } else {
        EntryQuery(m, g, i, e, v);
      }
    }
  }

  /** Below entry `i` of `g` the walk no longer reads it. */
  lemma BelowLookup(m: Mem, g: nat, i: nat, e: Pte, f: nat, v: nat)
    requires Valid(m) && g in m.t && i < ENTRIES && Low(m, v) && On(m, f, v) && m.pos[f].level < m.pos[g].level
    ensures Lookup(WithEntry(m, g, i, e).t, f, m.pos[f].level, v) == Lookup(m.t, f, m.pos[f].level, v)
  {
    if Uses(m.t, f, m.pos[f].level, v, g, i) { UsesOnPath(m, f, v, g, i); }
    EntryLookup(m.t, g, i, e, f, m.pos[f].level, v);
  }

  /** Where the walk through table `g` ends up. */
  lemma ReachAny(m: Mem, g: nat, v: nat)
    requires Valid(m) && On(m, g, v) && Low(m, v)
    ensures Query(m, v) == Lookup(m.t, g, m.pos[g].level, v)
  {
    if g != m.root { Reach(m, g, v); }
  }

  /** Changing only the flags of an inner entry leaves the flat map alone. */
  lemma FlagWrite(m: Mem, g: nat, i: nat, e: Pte)
    requires Valid(m) && g in m.t && i < ENTRIES && m.pos[g].level >= 2 && UserHalf(m, g, i)
    requires m.t[g][i].Pte? && e.Pte? && e.frame == m.t[g][i].frame
    ensures Valid(WithEntry(m, g, i, e)) && Flat(m) == Flat(WithEntry(m, g, i, e))
  {
    EntryValid(m, g, i, e);
    var n := WithEntry(m, g, i, e);
    forall v: nat | Low(m, v) ensures Query(m, v) == Query(n, v) {
      if OnPath(m.pos[g], v) && Index(v, m.pos[g].level) == i {
        Step(m, g, v);
        BelowLookup(m, g, i, e, e.frame, v);
        ReachAny(m, g, v);
        ReachAny(n, g, v);
      } else {
        EntryQuery(m, g, i, e, v);
      }
    }
  }

  /** `n` is `m` with an empty table hung below entry `i` of `g`. */
  ghost predicate Linked(m: Mem, n: Mem, g: nat, i: nat, e: Pte) {
    && g in m.t && g in m.pos && i < ENTRIES && |m.t[g]| == ENTRIES && m.pos[g].level >= 2 && UserHalf(m, g, i)
    && m.t[g][i].Zero? && e.Pte? && e.frame !in m.t && e.frame !in m.pos && e.frame != g && e.frame in m.pool
    && n == Link(m, g, i, e)
  }

  /** Hanging an empty table keeps the tree valid. */
  lemma LinkValid(m: Mem, n: Mem, g: nat, i: nat, e: Pte)
    requires Valid(m) && Linked(m, n, g, i, e)
    ensures Valid(n)
  {
    var h := e.frame;
    PlaceUnused(m, g, i);
    forall f: nat, k: nat | SameAt(n, f, k) ensures f == k { assert f != h && k != h ==> SameAt(m, f, k); }
    forall f: nat, j: nat | f in n.t && j < ENTRIES ensures LinkOk(n, f, j) {
      if f != h { assert LinkOk(m, f, j); }
    }
    forall k: nat | k in n.t && k != n.root ensures HasParent(n, k) {
      if k == h {
        assert ParentOf(n, g, i, h);
      } else {
        assert HasParent(m, k);
        var f: nat, j: nat :| ParentOf(m, f, j, k);
        assert ParentOf(n, f, j, k);
      }
    }
  }

  /** A table nobody leads to is invisible. */
  lemma {:induction false} AddLookup(m: Mem, h: nat, z: seq<Pte>, f: nat, v: nat)
    requires Valid(m) && h !in m.t && Low(m, v) && On(m, f, v)
    ensures Lookup(m.t[h := z], f, m.pos[f].level, v) == Lookup(m.t, f, m.pos[f].level, v)
    ensures forall g: nat, i: nat :: Uses(m.t[h := z], f, m.pos[f].level, v, g, i) <==> Uses(m.t, f, m.pos[f].level, v, g, i)
    decreases m.pos[f].level
  {
    if m.pos[f].level >= 2 {
      Step(m, f, v);
      var c := m.t[f][Index(v, m.pos[f].level)];
      if c.Pte? { AddLookup(m, h, z, c.frame, v); }
    }
  }

  lemma LinkQuery(m: Mem, n: Mem, g: nat, i: nat, e: Pte, v: nat)
    requires Valid(m) && Valid(n) && Linked(m, n, g, i, e) && Low(m, v)
    ensures Query(m, v) == Query(n, v)
  {
    LowRoot(m, v);
    if OnPath(m.pos[g], v) && Index(v, m.pos[g].level) == i {
      ReachAny(m, g, v);
      ReachAny(n, g, v);
      assert n.t[e.frame] == Zeros();
    } else {
      AddLookup(m, e.frame, Zeros(), m.root, v);
      if Uses(m.t, m.root, m.levels, v, g, i) { UsesOnPath(m, m.root, v, g, i); }
      EntryLookup(m.t[e.frame := Zeros()], g, i, e, m.root, m.levels, v);
    }
  }

  /** Hanging an empty table keeps the tree valid and the flat map unchanged. */
  lemma LinkKeeps(m: Mem, n: Mem, g: nat, i: nat, e: Pte)
    requires Valid(m) && Linked(m, n, g, i, e)
    ensures Valid(n) && Flat(m) == Flat(n)
  {
    LinkValid(m, n, g, i, e);
    forall v: nat | Low(m, v) ensures Query(m, v) == Query(n, v) { LinkQuery(m, n, g, i, e, v); }
  }

  /** Where an entry is zero, no table sits below it. */
  lemma PlaceUnused(m: Mem, g: nat, i: nat)
    requires Valid(m) && g in m.t && i < ENTRIES && m.pos[g].level >= 2 && m.t[g][i].Zero?
    ensures forall f: nat :: f in m.t ==> m.pos[f] != Child(m.pos[g], i)
  {
    forall f: nat | f in m.t ensures m.pos[f] != Child(m.pos[g], i) {
      if f != m.root {
        assert HasParent(m, f);
        var p: nat, j: nat :| ParentOf(m, p, j, f);
        assert SameAt(m, p, g) ==> p == g;
        if m.pos[f] == Child(m.pos[g], i) { ChildInjective(m.pos[p], j, m.pos[g], i); }
      }
    }
  }

  lemma UnlinkIsReverse(n: Mem, g: nat, i: nat)
    requires Valid(n) && g in n.t && i < ENTRIES && n.pos[g].level >= 2 && UserHalf(n, g, i)
    requires n.t[g][i].Pte? && n.t[g][i].frame in n.t && Empty(n.t, n.t[g][i].frame)
    ensures n.t[g][i].frame != g && n.t[g][i].frame != n.root
    ensures Linked(Unlink(n, g, i), n, g, i, n.t[g][i])
  {
    var e := n.t[g][i];
    var h := e.frame;
    var m := Unlink(n, g, i);
    assert LinkOk(n, g, i);
    LevelBelowOrRoot(n, g);
    assert h != g && h != n.root;
    assert n.t[h] == Zeros();
    var r := Link(m, g, i, e);
    assert r.t.Keys == n.t.Keys;
    assert r.t[g] == n.t[g];
    assert r.t == n.t;
    assert r.pos == n.pos;
    assert r.pool == n.pool;
  }

  lemma UnlinkValid(n: Mem, g: nat, i: nat)
    requires Valid(n) && g in n.t && i < ENTRIES && n.pos[g].level >= 2 && UserHalf(n, g, i)
    requires n.t[g][i].Pte? && n.t[g][i].frame in n.t && Empty(n.t, n.t[g][i].frame)
    requires n.t[g][i].frame != g && n.t[g][i].frame != n.root
    ensures Valid(Unlink(n, g, i))
  {
    var h := n.t[g][i].frame;
    var m := Unlink(n, g, i);
    forall f: nat, k: nat | SameAt(m, f, k) ensures f == k { assert SameAt(n, f, k); }
    forall f: nat, j: nat | f in m.t && j < ENTRIES ensures LinkOk(m, f, j) { UnlinkLink(n, g, i, f, j); }
    forall k: nat | k in m.t && k != m.root ensures HasParent(m, k) {
      assert HasParent(n, k);
      var f: nat, j: nat :| ParentOf(n, f, j, k);
      assert ParentOf(m, f, j, k);
    }
  }

  /** Taking away an empty table is the reverse of hanging it, so it keeps the same things. */
  lemma UnlinkKeeps(n: Mem, g: nat, i: nat)
    requires Valid(n) && g in n.t && i < ENTRIES && n.pos[g].level >= 2 && UserHalf(n, g, i)
    requires n.t[g][i].Pte? && n.t[g][i].frame in n.t && Empty(n.t, n.t[g][i].frame)
    ensures Valid(Unlink(n, g, i)) && Flat(n) == Flat(Unlink(n, g, i))
    ensures n.t[g][i].frame != g && n.t[g][i].frame != n.root
  {
    UnlinkIsReverse(n, g, i);
    UnlinkValid(n, g, i);
    LinkKeeps(Unlink(n, g, i), n, g, i, n.t[g][i]);
  }

  lemma LevelBelowOrRoot(m: Mem, f: nat)
    requires Valid(m) && f in m.t
    ensures f == m.root || m.pos[f].level < m.levels
  {
    if f != m.root { LevelBelow(m, f); }
  }

  /** No other entry leads to the table that is taken away. */
  lemma UnlinkLink(n: Mem, g: nat, i: nat, f: nat, j: nat)
    requires Valid(n) && g in n.t && i < ENTRIES && n.pos[g].level >= 2 && UserHalf(n, g, i)
    requires n.t[g][i].Pte? && n.t[g][i].frame in n.t
    requires f in Unlink(n, g, i).t && f in Unlink(n, g, i).pos && j < ENTRIES
    ensures LinkOk(Unlink(n, g, i), f, j)
  {
    assert LinkOk(n, g, i) && LinkOk(n, f, j);
    assert SameAt(n, f, g) ==> f == g;
    if n.pos[f].level >= 2 && UserHalf(n, f, j) && n.t[f][j].Pte? && n.t[f][j].frame == n.t[g][i].frame {
      ChildInjective(n.pos[f], j, n.pos[g], i);
    }
  }
}
