/** What walking, mapping, unmapping and reclaiming do to the tree of tables, step by step. */
module PageWalk {
  import opened Options
  import opened Paging
  import opened PageTree
  import opened PageEdit
  import opened PageRel

  const PAGE_SIZE: nat := 4096

  /** The whole path of `v` exists and is open to the requested mode. */
  predicate Ready(t: map<nat, seq<Pte>>, f: nat, l: nat, v: nat, user: bool)
    decreases l
  {
    && l >= 1 && f in t && |t[f]| == ENTRIES
    && (l >= 2 ==>
          var e := t[f][Index(v, l)];
          e.Pte? && (user ==> e.flags.user) && Ready(t, e.frame, l - 1, v, user))
  }

  /** Growing keeps a ready path ready. */
  lemma {:induction false} ReadyGrew(m: Mem, n: Mem, w: nat, k: nat, f: nat, v: nat, user: bool)
    requires Grew(m, n, w, k) && Low(m, v) && On(m, f, v) && Ready(m.t, f, m.pos[f].level, v, user)
    ensures Ready(n.t, f, m.pos[f].level, v, user)
    decreases m.pos[f].level
  {
    if m.pos[f].level >= 2 {
      Step(m, f, v);
      assert InnerKept(m, n, f, Index(v, m.pos[f].level));
      ReadyGrew(m, n, w, k, m.t[f][Index(v, m.pos[f].level)].frame, v, user);
    }
  }

  /** Writing leaf entries keeps a ready path ready. */
  lemma {:induction false} ReadyLeaf(m: Mem, g: nat, i: nat, e: Pte, f: nat, v: nat, user: bool)
    requires Valid(m) && g in m.t && m.pos[g].level == 1 && i < ENTRIES
    requires Low(m, v) && On(m, f, v) && Ready(m.t, f, m.pos[f].level, v, user)
    ensures Ready(WithEntry(m, g, i, e).t, f, m.pos[f].level, v, user)
    decreases m.pos[f].level
  {
    if m.pos[f].level >= 2 {
      Step(m, f, v);
      ReadyLeaf(m, g, i, e, m.t[f][Index(v, m.pos[f].level)].frame, v, user);
    }
  }

  /** The leaf table of `v`, if its path exists: the walk without allocation. */
  function WalkTo(t: map<nat, seq<Pte>>, f: nat, l: nat, v: nat): Option<nat>
    decreases l
  {
    if l == 0 || f !in t || |t[f]| != ENTRIES then None
    else if l == 1 then Some(f)
    else if t[f][Index(v, l)].Zero? then None
    else WalkTo(t, t[f][Index(v, l)].frame, l - 1, v)
  }

  lemma {:induction false} WalkToLeaf(m: Mem, f: nat, v: nat)
    requires Valid(m) && Low(m, v) && On(m, f, v)
    ensures var r := WalkTo(m.t, f, m.pos[f].level, v);
            && (r.Some? ==> On(m, r.value, v) && m.pos[r.value].level == 1
                            && Lookup(m.t, f, m.pos[f].level, v) == m.t[r.value][Index(v, 1)])
            && (r.None? ==> Lookup(m.t, f, m.pos[f].level, v).Zero?)
    decreases m.pos[f].level
  {
    if m.pos[f].level >= 2 {
      Step(m, f, v);
      var e := m.t[f][Index(v, m.pos[f].level)];
      if e.Pte? { WalkToLeaf(m, e.frame, v); }
    }
  }

  lemma GrewFlag(m: Mem, f: nat, i: nat)
    requires Valid(m) && f in m.t && i < ENTRIES && m.pos[f].level >= 2 && UserHalf(m, f, i) && m.t[f][i].Pte?
    requires m.t[f][i].frame in m.t && Empty(m.t, m.t[f][i].frame)
    ensures var e := m.t[f][i]; forall v: nat ::
      Grew(m, WithEntry(m, f, i, e.(flags := e.flags.(user := true))), v, 1)
  {
    var e := m.t[f][i];
    var n := WithEntry(m, f, i, e.(flags := e.flags.(user := true)));
    FlagWrite(m, f, i, n.t[f][i]);
    forall g: nat, j: nat | g in m.t && j < ENTRIES && m.pos[g].level >= 2 ensures InnerKept(m, n, g, j) {}
  }

  /** One level of the walk: the next table, hung in if need be. */
  ghost predicate Stepped(m: Mem, n: Mem, f: nat, v: nat, user: bool, r: Option<nat>) {
    && Grew(m, n, v, 1) && f in m.t && m.pos[f].level >= 2
    && (var i := Index(v, m.pos[f].level);
        && (r.Some? ==>
              && On(n, r.value, v) && n.pos[r.value].level == m.pos[f].level - 1
              && n.t[f][i].Pte? && n.t[f][i].frame == r.value && (user ==> n.t[f][i].flags.user))
        && (m.t[f][i].Pte? && (user ==> m.t[f][i].flags.user) ==> r.Some? && n == m))
    && Supply(m, n, 1, user, r)
  }

  /** An inner entry of the user half is open to user mode. */
  predicate UserLink(m: Mem, f: nat, i: nat) {
    f in m.t && f in m.pos && i < |m.t[f]| && m.pos[f].level >= 2 && UserHalf(m, f, i) && m.t[f][i].Pte? ==>
      m.t[f][i].flags.user
  }

  /** What every user root keeps, since all mappings made in it are user mappings. */
  ghost predicate AllUser(m: Mem) {
    forall f: nat, i: nat {:trigger UserLink(m, f, i)} :: UserLink(m, f, i)
  }

  /** An inner entry of the user half lets writes and fetches through, and has none of the kernel's own marks. */
  predicate OpenLink(m: Mem, f: nat, i: nat) {
    f in m.t && f in m.pos && i < |m.t[f]| && m.pos[f].level >= 2 && UserHalf(m, f, i) && m.t[f][i].Pte? ==>
      var b := m.t[f][i].flags; b.write && !b.nx && !b.owned && !b.cow && !b.pinned && !b.sharedref
  }

  /** What every user root keeps, so that only the leaf decides what may be done with a page. */
  ghost predicate AllOpen(m: Mem) {
    forall f: nat, i: nat {:trigger OpenLink(m, f, i)} :: OpenLink(m, f, i)
  }

  /** What the processor lets user mode do with a page. */
  datatype Rights = Rights(read: bool, write: bool, fetch: bool)

  /** The processor's own walk: every entry on the way has to allow what is done, and all of them user mode. */
  function RightsFrom(t: map<nat, seq<Pte>>, f: nat, l: nat, v: nat): Rights
    decreases l
  {
    if l == 0 || f !in t || |t[f]| != ENTRIES then Rights(false, false, false)
    else
      var e := t[f][Index(v, l)];
      if e.Zero? || !e.flags.user then Rights(false, false, false)
      else if l == 1 then Rights(true, e.flags.write, !e.flags.nx)
      else
        var r := RightsFrom(t, e.frame, l - 1, v);
        Rights(r.read, r.write && e.flags.write, r.fetch && !e.flags.nx)
  }

  /** In a root whose inner entries are open, the leaf alone decides. */
  lemma {:induction false} LeafDecides(m: Mem, f: nat, v: nat)
    requires Valid(m) && AllUser(m) && AllOpen(m) && Low(m, v) && On(m, f, v)
    ensures RightsFrom(m.t, f, m.pos[f].level, v) == match Lookup(m.t, f, m.pos[f].level, v)
      case Zero => Rights(false, false, false)
      case Pte(_, flags) => Rights(flags.user, flags.user && flags.write, flags.user && !flags.nx)
    decreases m.pos[f].level
  {
    var i := Index(v, m.pos[f].level);
    if m.pos[f].level >= 2 && m.t[f][i].Pte? {
      LowRoot(m, v);
      Step(m, f, v);
      assert UserLink(m, f, i) && OpenLink(m, f, i);
      LeafDecides(m, m.t[f][i].frame, v);
    }
  }

  /** After a user mapping, user mode may do with each page of the range just what the flags say. */
  lemma MappedRights(m: Mem, n: Mem, v: nat, pages: nat, p: nat, flags: Flags, w: nat)
    requires MapDone(m, n, v, pages, p, flags) && AllUser(n) && AllOpen(n) && Low(m, w)
    ensures v <= w < v + pages && flags.user ==> RightsFrom(n.t, n.root, n.levels, w) == Rights(true, flags.write, !flags.nx)
    ensures !(v <= w < v + pages) && AllUser(m) && AllOpen(m) ==> RightsFrom(n.t, n.root, n.levels, w) == RightsFrom(m.t, m.root, m.levels, w)
  {
    LowRoot(n, w);
    LeafDecides(n, n.root, w);
    assert if v <= w < v + pages then Query(n, w) == Pte(p + (w - v), flags) else Query(n, w) == Query(m, w);
    if AllUser(m) && AllOpen(m) {
      LowRoot(m, w);
      LeafDecides(m, m.root, w);
    }
  }

  /** A walk takes at most `k` frames, and for a user mapping it only fails when none is left. */
  ghost predicate Supply(m: Mem, n: Mem, k: nat, user: bool, r: Option<nat>) {
    && |n.pool| + k >= |m.pool|
    && (user && AllUser(m) ==> AllUser(n) && (r.None? ==> n.pool == {}))
    && (AllOpen(m) ==> AllOpen(n))
  }

  /** The whole walk: it only grows the path, and leaves a path that was ready alone. */
  ghost predicate Walked(m: Mem, n: Mem, f: nat, v: nat, user: bool, r: Option<nat>) {
    && Grew(m, n, v, 1) && f in m.t
    && (r.Some? ==> On(n, r.value, v) && n.pos[r.value].level == 1 && Ready(n.t, f, m.pos[f].level, v, user))
    && (Ready(m.t, f, m.pos[f].level, v, user) ==> r.Some? && n == m)
    && Supply(m, n, m.pos[f].level - 1, user, r)
  }

  /** The first step of a walk and the rest of it make the whole walk. */
  lemma WalkUp(m: Mem, n: Mem, o: Mem, f: nat, v: nat, user: bool, next: Option<nat>, r: Option<nat>)
    requires Stepped(m, n, f, v, user, next) && next.Some? && Walked(n, o, next.value, v, user, r)
    ensures Walked(m, o, f, v, user, r)
  {
    WalkUpGrew(m, n, o, f, v, user, next.value);
    SupplyTrans(m, n, o, m.pos[f].level - 2, user, next, r);
    if r.Some? { ReadyUp(o.t, f, m.pos[f].level, v, user); }
    WalkUpReady(m, n, o, f, m.pos[f].level, v, user, next.value, r);
  }

  lemma WalkUpReady(m: Mem, n: Mem, o: Mem, f: nat, l: nat, v: nat, user: bool, next: nat, r: Option<nat>)
    requires l >= 2 && f in m.t && f in n.t && |m.t[f]| == ENTRIES && |n.t[f]| == ENTRIES
    requires n.t[f][Index(v, l)].Pte? && n.t[f][Index(v, l)].frame == next
    requires m.t[f][Index(v, l)].Pte? && (user ==> m.t[f][Index(v, l)].flags.user) ==> n == m
    requires Ready(n.t, next, l - 1, v, user) ==> r.Some? && o == n
    ensures Ready(m.t, f, l, v, user) ==> r.Some? && o == m
  {
    if Ready(m.t, f, l, v, user) { ReadyStep(m.t, f, l, v, user); }
  }

  lemma SupplyTrans(m: Mem, n: Mem, o: Mem, k: nat, user: bool, next: Option<nat>, r: Option<nat>)
    requires Supply(m, n, 1, user, next) && Supply(n, o, k, user, r)
    ensures Supply(m, o, k + 1, user, r)
  {
  }

  lemma WalkStuck(m: Mem, n: Mem, f: nat, v: nat, user: bool)
    requires Stepped(m, n, f, v, user, None)
    ensures Walked(m, n, f, v, user, None)
  {
    if Ready(m.t, f, m.pos[f].level, v, user) { ReadyStep(m.t, f, m.pos[f].level, v, user); }
  }

  lemma WalkUpGrew(m: Mem, n: Mem, o: Mem, f: nat, v: nat, user: bool, next: nat)
    requires Grew(m, n, v, 1) && Grew(n, o, v, 1) && f in n.t && f in m.t && m.pos[f].level >= 2
    requires var e := n.t[f][Index(v, m.pos[f].level)]; e.Pte? && e.frame == next && (user ==> e.flags.user)
    ensures Grew(m, o, v, 1) && f in o.t
    ensures var e := o.t[f][Index(v, m.pos[f].level)]; e.Pte? && e.frame == next && (user ==> e.flags.user)
  {
    GrewTrans(m, n, o, v, 1, v, 1);
    assert InnerKept(n, o, f, Index(v, m.pos[f].level));
  }

  lemma ReadyStep(t: map<nat, seq<Pte>>, f: nat, l: nat, v: nat, user: bool)
    requires l >= 2 && Ready(t, f, l, v, user)
    ensures var e := t[f][Index(v, l)]; e.Pte? && (user ==> e.flags.user) && Ready(t, e.frame, l - 1, v, user)
  {
  }

  lemma ReadyUp(t: map<nat, seq<Pte>>, f: nat, l: nat, v: nat, user: bool)
    requires l >= 2 && f in t && |t[f]| == ENTRIES
    requires var e := t[f][Index(v, l)]; e.Pte? && (user ==> e.flags.user) && Ready(t, e.frame, l - 1, v, user)
    ensures Ready(t, f, l, v, user)
  {
  }

  lemma GrewLink(m: Mem, n: Mem, f: nat, i: nat, e: Pte, v: nat)
    requires Valid(m) && Linked(m, n, f, i, e) && OnPath(Child(m.pos[f], i), v)
    ensures Grew(m, n, v, 1)
  {
    LinkKeeps(m, n, f, i, e);
    assert OnPaths(n.pos[e.frame], v, 1) by { assert OnPath(n.pos[e.frame], v); }
    forall g: nat, j: nat | g in m.t && j < ENTRIES && m.pos[g].level >= 2 ensures InnerKept(m, n, g, j) {}
  }

  /** What `reclaim_ancestors` from table `f` does: no table below `f` on the path is left empty. */
  ghost predicate Reclaimed(m: Mem, n: Mem, f: nat, v: nat) {
    && Shrunk(m, n) && f in m.t && f in n.t
    && (forall h: nat :: h in n.t && OnPath(n.pos[h], v) && n.pos[h].level < m.pos[f].level ==> !Empty(n.t, h))
    && (forall h: nat :: h in n.t && !OnPath(n.pos[h], v) ==> n.t[h] == m.t[h])
  }

  lemma ReclaimedNone(m: Mem, f: nat, v: nat)
    requires Valid(m) && On(m, f, v) && m.pos[f].level >= 2 && m.t[f][Index(v, m.pos[f].level)].Zero?
    ensures Reclaimed(m, m, f, v)
  {
    ShrunkRefl(m);
    forall h: nat | h in m.t && OnPath(m.pos[h], v) ensures m.pos[h].level >= m.pos[f].level {
      NoneBelow(m, f, v, h);
    }
  }

  /** After the child's part: the link to it is still there, and it alone may be empty. */
  lemma ReclaimedChild(m: Mem, n: Mem, f: nat, v: nat)
    requires Valid(m) && Low(m, v) && On(m, f, v) && m.pos[f].level >= 2 && m.t[f][Index(v, m.pos[f].level)].Pte?
    requires var c := m.t[f][Index(v, m.pos[f].level)].frame;
      On(m, c, v) && m.pos[c].level == m.pos[f].level - 1 && Reclaimed(m, n, c, v)
    ensures var i := Index(v, m.pos[f].level);
      && f in n.t && n.pos[f] == m.pos[f] && n.t[f][i] == m.t[f][i]
      && (!Empty(n.t, m.t[f][i].frame) ==> Reclaimed(m, n, f, v))
  {
    var i := Index(v, m.pos[f].level);
    var c := m.t[f][i].frame;
    LowRoot(m, v);
    assert f in n.t by {
      assert HasParent(n, c);
      var g: nat, j: nat :| ParentOf(n, g, j, c);
      assert LinkOk(m, f, i);
      ChildInjective(m.pos[f], i, n.pos[g], j);
      assert SameAt(m, f, g);
    }
    assert InnerShrunk(m, n, f, i);
    if !Empty(n.t, c) {
      forall h: nat | h in n.t && OnPath(n.pos[h], v) && n.pos[h].level < m.pos[f].level ensures !Empty(n.t, h) {
        assert SameAt(n, h, c) ==> h == c;
      }
    }
  }

  /** Giving back the empty child finishes the path. */
  lemma ReclaimedUnlink(m: Mem, n: Mem, f: nat, v: nat)
    requires Valid(m) && Low(m, v) && On(m, f, v) && m.pos[f].level >= 2 && m.t[f][Index(v, m.pos[f].level)].Pte?
    requires var c := m.t[f][Index(v, m.pos[f].level)].frame;
      On(m, c, v) && m.pos[c].level == m.pos[f].level - 1 && Reclaimed(m, n, c, v) && Empty(n.t, c)
    requires f in n.t && n.pos[f] == m.pos[f] && n.t[f][Index(v, m.pos[f].level)] == m.t[f][Index(v, m.pos[f].level)]
    ensures Reclaimed(m, Unlink(n, f, Index(v, m.pos[f].level)), f, v)
  {
    var i := Index(v, m.pos[f].level);
    var c := n.t[f][i].frame;
    var o := Unlink(n, f, i);
    LowRoot(m, v);
    UnlinkKeeps(n, f, i);
    ShrunkUnlink(n, f, i);
    ShrunkTrans(m, n, o);
    forall h: nat | h in o.t && OnPath(o.pos[h], v) ensures o.pos[h].level >= m.pos[f].level {
      assert SameAt(n, h, c) ==> h == c;
      if n.pos[h].level != n.pos[c].level && n.pos[c].level >= 2 { NoneBelow(n, c, v, h); }
    }
  }

  lemma ShrunkUnlink(n: Mem, f: nat, i: nat)
    requires Valid(n) && f in n.t && i < ENTRIES && n.pos[f].level >= 2 && UserHalf(n, f, i)
    requires n.t[f][i].Pte? && n.t[f][i].frame in n.t && Empty(n.t, n.t[f][i].frame)
    ensures Shrunk(n, Unlink(n, f, i))
  {
    UnlinkKeeps(n, f, i);
    var o := Unlink(n, f, i);
    forall g: nat, j: nat | g in o.t && j < ENTRIES && o.pos[g].level >= 2 ensures InnerShrunk(n, o, g, j) {}
    assert o.t.Keys == n.t.Keys - {n.t[f][i].frame};
  }

  lemma AllUserFlag(m: Mem, f: nat, i: nat)
    requires Valid(m) && f in m.t && i < ENTRIES && m.t[f][i].Pte?
    ensures var n := WithEntry(m, f, i, m.t[f][i].(flags := m.t[f][i].flags.(user := true)));
      (AllUser(m) ==> AllUser(n)) && (AllOpen(m) ==> AllOpen(n))
  {
    var e := m.t[f][i];
    var n := WithEntry(m, f, i, e.(flags := e.flags.(user := true)));
    if AllUser(m) {
      forall g: nat, j: nat ensures UserLink(n, g, j) { assert UserLink(m, g, j); }
    }
    if AllOpen(m) {
      forall g: nat, j: nat ensures OpenLink(n, g, j) { assert OpenLink(m, g, j); }
    }
  }

  lemma AllUserLink(m: Mem, f: nat, i: nat, e: Pte)
    requires Valid(m) && f in m.t && i < ENTRIES && m.pos[f].level >= 2 && e.Pte? && e.frame !in m.t
    ensures AllUser(m) && e.flags.user ==> AllUser(Link(m, f, i, e))
    ensures AllOpen(m) && e.flags == Flags(true, e.flags.user, false, false, false, false, false) ==> AllOpen(Link(m, f, i, e))
  {
    var n := Link(m, f, i, e);
    if AllUser(m) && e.flags.user {
      forall g: nat, j: nat ensures UserLink(n, g, j) { assert UserLink(m, g, j); }
    }
    if AllOpen(m) && e.flags == Flags(true, e.flags.user, false, false, false, false, false) {
      forall g: nat, j: nat ensures OpenLink(n, g, j) { assert OpenLink(m, g, j); }
    }
  }

  predicate LowRange(m: Mem, v: nat, pages: nat) {
    pages > 0 ==> Low(m, v + pages - 1)
  }

  lemma LowAt(m: Mem, v: nat, pages: nat, i: nat)
    requires LowRange(m, v, pages) && i < pages
    ensures Low(m, v + i)
  {
    PreMono(v + i, v + pages - 1, m.levels - 1);
  }

  /** Every empty table is in `spare` or on the path of a page of the range. */
  ghost predicate EmptyOnlyOn(m: Mem, v: nat, pages: nat, spare: set<nat>) {
    forall h: nat {:trigger Empty(m.t, h)} :: h in m.t && h in m.pos && h != m.root && Empty(m.t, h) ==> h in spare || OnPaths(m.pos[h], v, pages)
  }

  ghost function EmptyTables(m: Mem): set<nat> {
    set h: nat | h in m.t && h != m.root && Empty(m.t, h)
  }

  lemma EmptyStep(m: Mem, n: Mem, v: nat, pages: nat, spare: set<nat>)
    requires pages >= 1 && m.root in m.t && Reclaimed(m, n, m.root, v) && EmptyOnlyOn(m, v, pages, spare)
    ensures EmptyOnlyOn(n, v + 1, pages - 1, spare)
  {
    forall h: nat | h in n.t && h in n.pos && h != n.root && Empty(n.t, h) && h !in spare ensures OnPaths(n.pos[h], v + 1, pages - 1) {
      LevelBelow(n, h);
      assert !OnPath(n.pos[h], v);
      assert Empty(m.t, h);
      assert OnPaths(m.pos[h], v, pages);
    }
  }

  /** After growing, the only empty tables are old ones and those on the range's paths. */
  lemma EmptyGrew(m: Mem, n: Mem, v: nat, k: nat, spare: set<nat>)
    requires Grew(m, n, v, k) && spare == EmptyTables(m)
    ensures EmptyOnlyOn(n, v, k, spare)
  {
    forall h: nat | h in n.t && h in n.pos && h != n.root && Empty(n.t, h) && h !in spare ensures OnPaths(n.pos[h], v, k) {
      if h in m.t { GrewEmpty(m, n, v, k, h); }
    }
  }

  /** The pages were not mapped before and are exactly the ones that changed. */
  ghost predicate MapDone(m: Mem, n: Mem, v: nat, pages: nat, p: nat, flags: Flags) {
    && GrewInner(m, n, v, pages)
    && Mapped(m, n, v, pages, p, flags)
  }

  ghost predicate Mapped(m: Mem, n: Mem, v: nat, pages: nat, p: nat, flags: Flags) {
    && (forall w: nat {:trigger Query(n, w)} :: Low(m, w) ==>
          if v <= w < v + pages then Query(m, w).Zero? && Query(n, w) == Pte(p + (w - v), flags)
          else Query(n, w) == Query(m, w))
  }

  /** Nothing is mapped or unmapped, no new table stays, and a tree without empty tables is untouched. */
  ghost predicate MapUndone(m: Mem, n: Mem) {
    && Valid(n) && Flat(n) == Flat(m) && n.t.Keys <= m.t.Keys && SameFrames(m, n)
    && (NoEmpty(m) ==> n == m)
  }

  /** Enough for a mapping to succeed. */
  ghost predicate Mappable(m: Mem, vaddr: nat, paddr: nat, pages: nat, flags: Flags) {
    && pages > 0 && vaddr % PAGE_SIZE == 0 && paddr % PAGE_SIZE == 0 && flags.user && AllUser(m)
    && NoneMapped(m, vaddr / PAGE_SIZE, pages)
    && m.levels >= 1 && |m.pool| > pages * (m.levels - 1)
  }

  lemma ReadyAll(m: Mem, n: Mem, v: nat, k: nat, w: nat, user: bool)
    requires Grew(m, n, w, 1) && (k > 0 ==> Low(m, v + k - 1))
    requires AllReady(m, v, k, user)
    ensures AllReady(n, v, k, user)
  {
    forall j: nat | v <= j < v + k ensures Ready(n.t, n.root, n.levels, j, user) {
      PreMono(j, v + k - 1, m.levels - 1);
      LowRoot(m, j);
      ReadyGrew(m, n, w, 1, m.root, j, user);
    }
  }

  /** After growing, the leaf entry still holds what the page was mapped to. */
  lemma LeafIsQuery(m: Mem, n: Mem, v: nat, k: nat, w: nat, g: nat)
    requires Grew(m, n, v, k) && Low(m, w) && On(n, g, w) && n.pos[g].level == 1
    ensures n.t[g][Index(w, 1)] == Query(n, w) == Query(m, w)
  {
    ReachAny(n, g, w);
    FlatAt(m, n, w);
  }

  lemma Undone(m: Mem, n: Mem, o: Mem, v: nat, k: nat, spare: set<nat>)
    requires Grew(m, n, v, k) && Shrunk(n, o) && spare == EmptyTables(m)
    requires forall h: nat :: h in o.t && h != o.root && Empty(o.t, h) ==> h in spare
    ensures MapUndone(m, o)
  {
    forall g: nat | g in o.t ensures g in m.t { NewGone(m, n, o, v, k, g); }
    if NoEmpty(m) {
      assert spare == {};
      Restores(m, n, o, v, k);
    }
  }

  ghost predicate AllReady(n: Mem, v: nat, k: nat, user: bool) {
    forall j: nat {:trigger Ready(n.t, n.root, n.levels, j, user)} :: v <= j < v + k ==> Ready(n.t, n.root, n.levels, j, user)
  }

  ghost predicate NoneMapped(m: Mem, v: nat, k: nat) {
    forall j: nat {:trigger Query(m, j)} :: v <= j < v + k ==> Query(m, j).Zero?
  }

  /** The first `i` pages have their tables and are not mapped. */
  ghost predicate Prepared(m: Mem, n: Mem, v: nat, i: nat, user: bool) {
    && (i > 0 ==> Low(m, v + i - 1))
    && AllReady(n, v, i, user) && NoneMapped(m, v, i)
    && |n.pool| + Budget(i, n.levels) >= |m.pool|
    && (AllUser(m) && user ==> AllUser(n)) && (AllOpen(m) ==> AllOpen(n))
  }

  /** Page `i` cannot be mapped: it is mapped already, or the tables for it could not be had. */
  ghost predicate Blocked(m: Mem, n: Mem, v: nat, i: nat, user: bool) {
    && m.levels == n.levels >= 1
    && |n.pool| + Budget(i + 1, n.levels) >= |m.pool|
    && (AllUser(m) && user ==> AllUser(n) && (Query(m, v + i).Pte? || n.pool == {})) && (AllOpen(m) ==> AllOpen(n))
  }

  /** Frames that mapping `i` pages can take at most. */
  function Budget(i: nat, levels: nat): int {
    if i == 0 then 0 else Budget(i - 1, levels) + levels - 1
  }

  lemma {:induction false} BudgetIsProduct(i: nat, levels: nat)
    ensures Budget(i, levels) == i * (levels - 1)
  {
    if i > 0 { BudgetIsProduct(i - 1, levels); }
  }

  lemma PreparedNone(m: Mem, v: nat, user: bool)
    requires Valid(m)
    ensures Grew(m, m, v, 0) && Prepared(m, m, v, 0, user)
  {
    GrewRefl(m, v, 0);
  }

  lemma PreparedWalk(m: Mem, n: Mem, o: Mem, v: nat, i: nat, r: Option<nat>)
    requires Grew(m, n, v, i) && Grew(n, o, v + i, 1) && Low(m, v + i)
    requires r.Some? ==> On(o, r.value, v + i) && o.pos[r.value].level == 1
    ensures Grew(m, o, v, i + 1)
    ensures r.Some? ==> o.t[r.value][Index(v + i, 1)] == Query(m, v + i)
  {
    GrewTrans(m, n, o, v, i, v + i, i + 1);
    if r.Some? { LeafIsQuery(m, o, v, i + 1, v + i, r.value); }
  }

  lemma PreparedMore(m: Mem, n: Mem, o: Mem, v: nat, i: nat, user: bool, r: Option<nat>)
    requires Prepared(m, n, v, i, user) && Low(m, v + i) && m.levels == n.levels == o.levels >= 1
    requires Supply(n, o, n.levels - 1, user, r) && (r.Some? ==> AllReady(o, v, i + 1, user))
    ensures r.Some? && Query(m, v + i).Zero? ==> Prepared(m, o, v, i + 1, user)
    ensures r.None? || Query(m, v + i).Pte? ==> Blocked(m, o, v, i, user)
  {
  }

  lemma ReadyNext(n: Mem, o: Mem, v: nat, i: nat, user: bool)
    requires AllReady(n, v, i, user) && Grew(n, o, v + i, 1) && (i > 0 ==> Low(n, v + i - 1)) && Ready(o.t, o.root, o.levels, v + i, user)
    ensures AllReady(o, v, i + 1, user)
  {
    ReadyAll(n, o, v, i, v + i, user);
  }

  /** The next page of the first pass. */
  lemma PreparedNext(m: Mem, n: Mem, o: Mem, v: nat, i: nat, user: bool, r: Option<nat>)
    requires Grew(m, n, v, i) && Prepared(m, n, v, i, user) && Low(m, v + i) && n.root in n.t && Walked(n, o, n.root, v + i, user, r)
    ensures Grew(m, o, v, i + 1) && (r.Some? ==> r.value in o.t && |o.t[r.value]| == ENTRIES)
    ensures r.Some? && o.t[r.value][Index(v + i, 1)].Zero? ==> Prepared(m, o, v, i + 1, user)
    ensures r.None? || o.t[r.value][Index(v + i, 1)].Pte? ==> Blocked(m, o, v, i, user)
  {
    PreparedWalk(m, n, o, v, i, r);
    if r.Some? { ReadyNext(n, o, v, i, user); }
    PreparedMore(m, n, o, v, i, user, r);
  }

  /** Why a user mapping in a user root can fail: a page is mapped, or frames run out. */
  ghost predicate Stuck(m: Mem, v: nat, pages: nat, user: bool) {
    AllUser(m) && user ==>
      (exists w: nat :: v <= w < v + pages && Query(m, w).Pte?) || |m.pool| <= pages * (m.levels - 1)
  }

  lemma StuckAt(m: Mem, n: Mem, v: nat, pages: nat, i: nat, user: bool)
    requires i < pages && Blocked(m, n, v, i, user)
    ensures Stuck(m, v, pages, user)
  {
    BudgetIsProduct(i + 1, m.levels);
    MulMono(i + 1, pages, m.levels - 1);
  }

  lemma NotMappable(m: Mem, vaddr: nat, paddr: nat, pages: nat, flags: Flags)
    requires Stuck(m, vaddr / PAGE_SIZE, pages, flags.user)
    ensures !Mappable(m, vaddr, paddr, pages, flags)
  {
  }

  lemma MulMono(a: nat, b: nat, k: int)
    requires a <= b && k >= 0
    ensures a * k <= b * k
  {
  }

  lemma Untouched(m: Mem)
    requires Valid(m)
    ensures MapUndone(m, m)
  {
  }

  /** All pages have their tables; the first `i` are mapped. */
  ghost predicate Filled(m: Mem, n: Mem, v: nat, i: nat, pages: nat, p: nat, flags: Flags) {
    && GrewInner(m, n, v, pages)
    && Mapped(m, n, v, i, p, flags)
    && AllReady(n, v, pages, flags.user) && NoneMapped(m, v, pages)
    && (AllUser(m) && flags.user ==> AllUser(n)) && (AllOpen(m) ==> AllOpen(n))
  }

  lemma FilledNone(m: Mem, n: Mem, v: nat, pages: nat, p: nat, flags: Flags)
    requires Grew(m, n, v, pages) && Prepared(m, n, v, pages, flags.user)
    ensures Filled(m, n, v, 0, pages, p, flags)
  {
    forall w: nat | Low(m, w) ensures Query(n, w) == Query(m, w) { FlatAt(m, n, w); }
  }

  /** Writing the next leaf. */
  lemma FilledWrite(m: Mem, n: Mem, v: nat, i: nat, pages: nat, p: nat, flags: Flags, g: nat)
    requires Filled(m, n, v, i, pages, p, flags) && i < pages && LowRange(m, v, pages)
    requires On(n, g, v + i) && n.pos[g].level == 1
    ensures Filled(m, WithEntry(n, g, Index(v + i, 1), Pte(p + i, flags)), v, i + 1, pages, p, flags)
  {
    var k, e := Index(v + i, 1), Pte(p + i, flags);
    var o := WithEntry(n, g, k, e);
    LeafWrite(n, g, k, e);
    GrewLeaf(m, n, v, pages, g, k, e);
    forall w: nat | Low(m, w) ensures Query(o, w) == if w == v + i then e else Query(n, w) {
      LeafPage(n.pos[g], v + i, w);
    }
    forall j: nat | v <= j < v + pages ensures Ready(o.t, o.root, o.levels, j, flags.user) {
      PreMono(j, v + pages - 1, n.levels - 1);
      LowRoot(n, j);
      ReadyLeaf(n, g, k, e, n.root, j, flags.user);
    }
    AllUserLeaf(n, g, k, e);
  }

  /** A leaf entry serves one page. */
  lemma LeafPage(p: Pos, v: nat, w: nat)
    requires p.level == 1 && OnPath(p, v)
    ensures OnPath(p, w) && Index(w, 1) == Index(v, 1) <==> w == v
  {
    PreIndex(v, 1);
    PreIndex(w, 1);
  }

  lemma GrewLeaf(m: Mem, n: Mem, v: nat, k: nat, g: nat, i: nat, e: Pte)
    requires GrewInner(m, n, v, k) && g in n.t && n.pos[g].level == 1 && i < ENTRIES
    ensures GrewInner(m, WithEntry(n, g, i, e), v, k)
  {
    var o := WithEntry(n, g, i, e);
    EntryValid(n, g, i, e);
    forall f: nat, j: nat | f in m.t && j < ENTRIES && m.pos[f].level >= 2 ensures InnerKept(m, o, f, j) {
      assert InnerKept(m, n, f, j);
    }
    forall f: nat | f in o.t && f !in m.t ensures OnPaths(o.pos[f], v, k) { assert OnPaths(n.pos[f], v, k); }
    assert o.t.Keys == n.t.Keys;
  }

  lemma AllUserLeaf(m: Mem, g: nat, i: nat, e: Pte)
    requires Valid(m) && g in m.t && m.pos[g].level == 1 && i < ENTRIES
    ensures (AllUser(m) ==> AllUser(WithEntry(m, g, i, e))) && (AllOpen(m) ==> AllOpen(WithEntry(m, g, i, e)))
  {
    if AllUser(m) {
      forall f: nat, j: nat ensures UserLink(WithEntry(m, g, i, e), f, j) { assert UserLink(m, f, j); }
    }
    if AllOpen(m) {
      forall f: nat, j: nat ensures OpenLink(WithEntry(m, g, i, e), f, j) { assert OpenLink(m, f, j); }
    }
  }

  lemma AllUserShrunk(m: Mem, n: Mem)
    requires ShrunkInner(m, n)
    ensures (AllUser(m) ==> AllUser(n)) && (AllOpen(m) ==> AllOpen(n))
  {
    if AllUser(m) {
      forall f: nat, i: nat ensures UserLink(n, f, i) {
        if f in n.t && i < ENTRIES && n.pos[f].level >= 2 { assert UserLink(m, f, i) && InnerShrunk(m, n, f, i); }
      }
    }
    if AllOpen(m) {
      forall f: nat, i: nat ensures OpenLink(n, f, i) {
        if f in n.t && i < ENTRIES && n.pos[f].level >= 2 { assert OpenLink(m, f, i) && InnerShrunk(m, n, f, i); }
      }
    }
  }

  /** Only leaf entries on the paths of the range changed, and the range's pages are unmapped. */
  ghost predicate Cleared(m: Mem, n: Mem, v: nat, k: nat) {
    && Valid(m) && Valid(n) && m.(t := n.t) == n && m.t.Keys == n.t.Keys
    && (forall f: nat {:trigger n.t[f]} :: f in m.t && (m.pos[f].level >= 2 || !OnPaths(m.pos[f], v, k)) ==> n.t[f] == m.t[f])
    && Unmapped(m, n, v, k)
  }

  ghost predicate Unmapped(m: Mem, n: Mem, v: nat, k: nat) {
    forall w: nat {:trigger Query(n, w)} :: Low(m, w) ==>
      Query(n, w) == if v <= w < v + k then Zero else Query(m, w)
  }

  lemma ClearedStep(m: Mem, n: Mem, v: nat, i: nat, g: nat)
    requires Cleared(m, n, v, i) && Low(m, v + i) && On(n, g, v + i) && n.pos[g].level == 1
    ensures Cleared(m, WithEntry(n, g, Index(v + i, 1), Zero), v, i + 1)
  {
    var o := WithEntry(n, g, Index(v + i, 1), Zero);
    LeafWrite(n, g, Index(v + i, 1), Zero);
    forall w: nat | Low(m, w) ensures Query(o, w) == if w == v + i then Zero else Query(n, w) {
      LeafPage(n.pos[g], v + i, w);
    }
    assert OnPaths(m.pos[g], v, i + 1);
    forall f: nat | f in m.t && (m.pos[f].level >= 2 || !OnPaths(m.pos[f], v, i + 1)) ensures o.t[f] == m.t[f] {
      if OnPaths(m.pos[f], v, i) { OnPathsMore(m.pos[f], v, i, v, i + 1); }
    }
  }

  lemma EmptyCleared(m: Mem, n: Mem, v: nat, k: nat)
    requires Cleared(m, n, v, k)
    ensures EmptyOnlyOn(n, v, k, EmptyTables(m))
  {
    forall h: nat | h in n.t && h in n.pos && h != n.root && Empty(n.t, h) && h !in EmptyTables(m)
      ensures OnPaths(n.pos[h], v, k)
    {
      assert n.t[h] != m.t[h];
    }
  }

  ghost predicate UnmapDone(m: Mem, n: Mem, v: nat, k: nat) {
    && ShrunkInner(m, n)
    && Unmapped(m, n, v, k)
    && (NoEmpty(m) ==> NoEmpty(n))
    && (AllUser(m) ==> AllUser(n)) && (AllOpen(m) ==> AllOpen(n))
  }

  lemma ClearedShrunk(m: Mem, n: Mem, o: Mem, v: nat, k: nat)
    requires Cleared(m, n, v, k) && Shrunk(n, o)
    requires forall h: nat :: h in o.t && h != o.root && Empty(o.t, h) ==> h in EmptyTables(m)
    ensures UnmapDone(m, o, v, k)
  {
    forall f: nat, i: nat | f in o.t && i < ENTRIES && o.pos[f].level >= 2 ensures InnerShrunk(m, o, f, i) {
      assert InnerShrunk(n, o, f, i) && n.t[f] == m.t[f];
    }
    forall w: nat | Low(m, w) ensures Query(o, w) == Query(n, w) { FlatAt(n, o, w); }
    assert n.t[m.root] == m.t[m.root];
    AllUserShrunk(m, o);
  }

  /** Mapping leaves no empty table behind where there was none. */
  lemma MapNoEmpty(m: Mem, n: Mem, v: nat, pages: nat, p: nat, flags: Flags)
    requires MapDone(m, n, v, pages, p, flags) && NoEmpty(m) && LowRange(m, v, pages)
    ensures NoEmpty(n)
  {
    forall g: nat | g in n.t && g != n.root ensures !Empty(n.t, g) {
      if g in m.t {
        var w := Descend(m, g);
        var h := AtLevel(n, w, n.pos[g].level);
        assert SameAt(n, g, h);
      } else {
        assert OnPaths(n.pos[g], v, pages);
        var w: nat :| v <= w < v + pages && OnPath(n.pos[g], w);
        PreMono(w, v + pages - 1, m.levels - 1);
        assert Query(n, w).Pte?;
        var h := AtLevel(n, w, n.pos[g].level);
        assert SameAt(n, g, h);
      }
    }
  }

  /**
   Mapping a range and unmapping it again gives the identical tree back, down to the frames of its
   tables and the free frames, for any tree without empty tables.
   */
  lemma MapThenUnmap(m: Mem, n: Mem, o: Mem, v: nat, pages: nat, p: nat, flags: Flags)
    requires MapDone(m, n, v, pages, p, flags) && UnmapDone(n, o, v, pages)
    requires NoEmpty(m) && LowRange(m, v, pages)
    ensures o == m
  {
    MapNoEmpty(m, n, v, pages, p, flags);
    forall w: nat | Low(m, w) ensures Query(o, w) == Query(m, w) {
      assert Low(n, w);
      assert if v <= w < v + pages then Query(n, w).Pte? else Query(n, w) == Query(m, w);
    }
    assert Flat(m) == Flat(o);
    Restores(m, n, o, v, pages);
  }

  /** One root table whose lower half is zero maps nothing. */
  lemma NewSpace(m: Mem)
    requires m.levels >= 2 && m.t.Keys == {m.root} && m.pos == map[m.root := Pos(m.levels, 0)] && m.root !in m.pool
    requires |m.t[m.root]| == ENTRIES && forall i: nat :: i < ENTRIES / 2 ==> m.t[m.root][i].Zero?
    ensures Valid(m) && NoEmpty(m) && AllUser(m) && AllOpen(m) && forall v: nat :: Low(m, v) ==> Query(m, v).Zero?
  {
    forall v: nat | Low(m, v) ensures Query(m, v).Zero? {
      assert Index(v, m.levels) < ENTRIES / 2 by { assert Pre(v, m.levels - 1) < ENTRIES / 2; }
    }
  }
}
