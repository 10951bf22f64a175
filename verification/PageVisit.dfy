/** The recursive walks over the table pages of a space: what they visit, and what they give back. */
module PageVisit {
  import opened Counting
  import opened PageRel
  import opened PageTree
  import opened PageWalk
  import opened Paging

  type Tables = map<nat, seq<Pte>>

  /** The walk looks at the entry: it is present and, if the walk is for user pages only, a user entry. */
  predicate Wanted(e: Pte, user: bool) {
    e.Pte? && (user ==> e.flags.user)
  }

  /** The pages that a walk meets, in order, in the first `n` entries of table `f`, which serves prefix `p` at level `l`. */
  function Leaves(t: Tables, f: nat, l: nat, p: nat, n: nat, user: bool): seq<nat>
    decreases l, n
  {
    if l == 0 || n == 0 || f !in t || |t[f]| < n then []
    else Leaves(t, f, l, p, n - 1, user) + Part(t, t[f][n - 1], l, p, n - 1, user)
  }

  /** The same for entry `i`, which is `e`. */
  function Part(t: Tables, e: Pte, l: nat, p: nat, i: nat, user: bool): seq<nat>
    requires l >= 1
    decreases l, i
  {
    if !Wanted(e, user) then []
    else if l == 1 then [p * ENTRIES + i]
    else Leaves(t, e.frame, l - 1, p * ENTRIES + i, ENTRIES, user)
  }

  /** The recursion that the walks share. */
  method Visit(t: Tables, f: nat, l: nat, p: nat, n: nat, user: bool) returns (pages: seq<nat>)
    requires f in t ==> n <= |t[f]|
    ensures pages == Leaves(t, f, l, p, n, user)
    decreases l, 1
  {
    pages := [];
    if l == 0 || f !in t { return; }
    for i := 0 to n
      invariant pages == Leaves(t, f, l, p, i, user)
    {
      var part := VisitEntry(t, t[f][i], l, p, i, user);
      pages := pages + part;
    }
  }

  method VisitEntry(t: Tables, e: Pte, l: nat, p: nat, i: nat, user: bool) returns (pages: seq<nat>)
    requires l >= 1
    ensures pages == Part(t, e, l, p, i, user)
    decreases l, 0
  {
    if !Wanted(e, user) { return []; }
    if l == 1 { return [p * ENTRIES + i]; }
    if e.frame !in t || |t[e.frame]| < ENTRIES { return []; }
    pages := Visit(t, e.frame, l - 1, p * ENTRIES + i, ENTRIES, user);
  }

  /** Page `v` lies in the first `n` entries of a table that serves prefix `p` at level `l`. */
  predicate Within(v: nat, l: nat, p: nat, n: nat)
    requires l >= 1
  {
    Pre(v, l) == p && Index(v, l) < n
  }

  /** The walk meets a page exactly when the page is mapped. */
  lemma {:induction false} VisitIff(m: Mem, f: nat, n: nat, user: bool, v: nat)
    requires Valid(m) && f in m.t && n <= ENTRIES && (f == m.root ==> n <= ENTRIES / 2) && (user ==> AllUser(m))
    ensures var l, p := m.pos[f].level, m.pos[f].prefix;
      var e := Lookup(m.t, f, l, v); v in Leaves(m.t, f, l, p, n, user) <==> Within(v, l, p, n) && e.Pte? && (user ==> e.flags.user)
    decreases m.pos[f].level, n
  {
    if n > 0 {
      VisitIff(m, f, n - 1, user, v);
      PartIff(m, f, n - 1, user, v);
    }
  }

  lemma {:induction false} PartIff(m: Mem, f: nat, i: nat, user: bool, v: nat)
    requires Valid(m) && f in m.t && i < ENTRIES && (f == m.root ==> i < ENTRIES / 2) && (user ==> AllUser(m))
    ensures var l, p := m.pos[f].level, m.pos[f].prefix;
      v in Part(m.t, m.t[f][i], l, p, i, user) <==> Pre(v, l) == p && Index(v, l) == i && Wanted(Lookup(m.t, f, l, v), user)
    decreases m.pos[f].level, i
  {
    var l, p, e := m.pos[f].level, m.pos[f].prefix, m.t[f][i];
    ChildOnPath(m.pos[f], i, v);
    if l == 1 {
      OneLeaf(v, p, i);
    } else if e.Pte? {
      assert LinkOk(m, f, i) && (user ==> UserLink(m, f, i));
      VisitIff(m, e.frame, ENTRIES, user, v);
    }
  }

  lemma OneLeaf(v: nat, p: nat, i: nat)
    requires i < ENTRIES
    ensures v == p * ENTRIES + i <==> Pre(v, 1) == p && Index(v, 1) == i
  {
    ChildParts(p, i);
    assert Pre(v, 1) == Pre(v, 0) / ENTRIES;
  }

  predicate Ascending(s: seq<nat>) {
    forall i, j :: 0 <= i < j < |s| ==> s[i] < s[j]
  }

  /** A smaller index under the same prefix is a smaller page number. */
  lemma SmallerIndex(v: nat, w: nat, l: nat)
    requires l >= 1 && Pre(v, l) == Pre(w, l) && Index(v, l) < Index(w, l)
    ensures v < w
  {
    PreIndex(v, l);
    PreIndex(w, l);
    if w <= v { PreMono(w, v, l - 1); }
  }

  lemma AscendingJoin(a: seq<nat>, b: seq<nat>)
    requires Ascending(a) && Ascending(b) && forall x: nat, y: nat :: x in a && y in b ==> x < y
    ensures Ascending(a + b)
  {
    var c := a + b;
    forall i, j | 0 <= i < j < |c| ensures c[i] < c[j] {
      if i < |a| && j >= |a| { assert a[i] in a && b[j - |a|] in b; }
    }
  }

  /** The walk meets the pages in ascending order, so each once. */
  lemma {:induction false} VisitOrder(m: Mem, f: nat, n: nat, user: bool)
    requires Valid(m) && f in m.t && n <= ENTRIES && (f == m.root ==> n <= ENTRIES / 2) && (user ==> AllUser(m))
    ensures Ascending(Leaves(m.t, f, m.pos[f].level, m.pos[f].prefix, n, user))
    decreases m.pos[f].level, n
  {
    var l, p := m.pos[f].level, m.pos[f].prefix;
    if n > 0 {
      var s, part := Leaves(m.t, f, l, p, n - 1, user), Part(m.t, m.t[f][n - 1], l, p, n - 1, user);
      VisitOrder(m, f, n - 1, user);
      PartOrder(m, f, n - 1, user);
      forall x: nat, y: nat | x in s && y in part ensures x < y {
        VisitIff(m, f, n - 1, user, x);
        PartIff(m, f, n - 1, user, y);
        SmallerIndex(x, y, l);
      }
      AscendingJoin(s, part);
    }
  }

  lemma {:induction false} PartOrder(m: Mem, f: nat, i: nat, user: bool)
    requires Valid(m) && f in m.t && i < ENTRIES && (f == m.root ==> i < ENTRIES / 2) && (user ==> AllUser(m))
    ensures Ascending(Part(m.t, m.t[f][i], m.pos[f].level, m.pos[f].prefix, i, user))
    decreases m.pos[f].level, i
  {
    if m.pos[f].level > 1 && m.t[f][i].Pte? {
      assert LinkOk(m, f, i);
      VisitOrder(m, m.t[f][i].frame, ENTRIES, user);
    }
  }

  /** A loop over the page numbers below `n`, as far as where it finds something. */
  function Scan(m: Mem, n: nat, user: bool): seq<nat> {
    if n == 0 then [] else Scan(m, n - 1, user) + if Low(m, n - 1) && Query(m, n - 1).Pte? && (user ==> Query(m, n - 1).flags.user) then [n - 1] else []
  }

  lemma {:induction false} ScanIff(m: Mem, n: nat, user: bool)
    ensures Ascending(Scan(m, n, user))
    ensures forall v: nat :: v in Scan(m, n, user) <==> v < n && Low(m, v) && Query(m, v).Pte? && (user ==> Query(m, v).flags.user)
  {
    if n > 0 {
      ScanIff(m, n - 1, user);
      AscendingJoin(Scan(m, n - 1, user), [n - 1]);
    }
  }

  /** Ascending sequences with the same elements are equal. */
  lemma {:induction false} SameAscending(a: seq<nat>, b: seq<nat>)
    requires Ascending(a) && Ascending(b) && forall x: nat :: x in a <==> x in b
    ensures a == b
  {
    if a != [] { assert a[0] in a && a[0] in b; }
    if b != [] { assert b[0] in b && b[0] in a; }
    if a != [] {
      var i, j := |a| - 1, |b| - 1;
      LastLargest(a, b);
      LastLargest(b, a);
      forall x: nat ensures x in a[..i] <==> x in b[..j] {
        LastApart(a, x);
        LastApart(b, x);
      }
      SameAscending(a[..i], b[..j]);
      assert a == a[..i] + [a[i]] && b == b[..j] + [b[j]];
    }
  }

  lemma LastLargest(a: seq<nat>, b: seq<nat>)
    requires Ascending(b) && a != [] && b != [] && a[|a| - 1] in b
    ensures a[|a| - 1] <= b[|b| - 1]
  {
  }

  lemma LastApart(a: seq<nat>, x: nat)
    requires Ascending(a) && a != []
    ensures x in a[..|a| - 1] <==> x in a && x != a[|a| - 1]
  {
    assert a == a[..|a| - 1] + [a[|a| - 1]];
  }

  /**
   The recursive walk of a space meets exactly its mapped pages, each once, in the order of a loop over
   the page numbers.
   */
  lemma WalkIsLoop(m: Mem, user: bool, limit: nat)
    requires Valid(m) && (user ==> AllUser(m)) && forall v: nat :: Low(m, v) ==> v < limit
    ensures Leaves(m.t, m.root, m.levels, 0, ENTRIES / 2, user) == Scan(m, limit, user)
  {
    var s := Leaves(m.t, m.root, m.levels, 0, ENTRIES / 2, user);
    VisitOrder(m, m.root, ENTRIES / 2, user);
    ScanIff(m, limit, user);
    forall v: nat ensures v in s <==> v in Scan(m, limit, user) {
      VisitIff(m, m.root, ENTRIES / 2, user, v);
      RootWithin(m, v);
    }
    SameAscending(s, Scan(m, limit, user));
  }

  /** `share_user_level` and the passes of `vmm_destroy_address_space`, as far as where they go: each mapped page once, in order. */
  method VisitSpace(m: Mem, user: bool) returns (pages: seq<nat>)
    requires Valid(m) && (user ==> AllUser(m))
    ensures Ascending(pages) && forall v: nat :: v in pages <==> Low(m, v) && Query(m, v).Pte? && (user ==> Query(m, v).flags.user)
  {
    pages := Visit(m.t, m.root, m.levels, 0, ENTRIES / 2, user);
    VisitOrder(m, m.root, ENTRIES / 2, user);
    forall v: nat ensures v in pages <==> Low(m, v) && Query(m, v).Pte? && (user ==> Query(m, v).flags.user) {
      VisitIff(m, m.root, ENTRIES / 2, user, v);
      RootWithin(m, v);
    }
  }

  lemma RootWithin(m: Mem, v: nat)
    requires Valid(m)
    ensures Low(m, v) <==> Within(v, m.levels, 0, ENTRIES / 2)
  {
    PreIndex(v, m.levels);
  }

  // ---- Giving back the table pages

  /** The table pages that `table_free` returns below the first `n` entries of table `f` at level `l`. */
  function Below(t: Tables, f: nat, l: nat, n: nat): seq<nat>
    decreases l, n
  {
    if l <= 1 || n == 0 || f !in t || |t[f]| < n then []
    else Below(t, f, l, n - 1) + Sub(t, t[f][n - 1], l)
  }

  /** The same for one entry. */
  function Sub(t: Tables, e: Pte, l: nat): seq<nat>
    requires l > 1
    decreases l, 0
  {
    if e.Zero? then [] else Below(t, e.frame, l - 1, ENTRIES) + [e.frame]
  }

  /** A table at place `q` lies in the first `n` entries of one that serves prefix `p` at level `l`. */
  predicate Sits(q: Pos, l: nat, p: nat, n: nat) {
    q.level < l && Pre(q.prefix, l - q.level) == p && Pre(q.prefix, l - 1 - q.level) % ENTRIES < n
  }

  /** The same for entry `i`. */
  predicate SitsAt(q: Pos, l: nat, p: nat, i: nat) {
    q.level < l && Pre(q.prefix, l - 1 - q.level) == p * ENTRIES + i
  }

  lemma SitsSplit(q: Pos, l: nat, p: nat, i: nat)
    requires i < ENTRIES && SitsAt(q, l, p, i)
    ensures Sits(q, l, p, i + 1) && !Sits(q, l, p, i)
  {
    ChildParts(p, i);
  }

  /** The tables below an entry sit there. */
  lemma {:induction false} BelowSits(m: Mem, f: nat, n: nat, g: nat)
    requires Valid(m) && f in m.t && n <= ENTRIES && (f == m.root ==> n <= ENTRIES / 2)
    requires g in Below(m.t, f, m.pos[f].level, n)
    ensures g in m.t && Sits(m.pos[g], m.pos[f].level, m.pos[f].prefix, n)
    decreases m.pos[f].level, n
  {
    var l, p := m.pos[f].level, m.pos[f].prefix;
    if g in Below(m.t, f, l, n - 1) {
      BelowSits(m, f, n - 1, g);
    } else {
      SubSits(m, f, n - 1, g);
      SitsSplit(m.pos[g], l, p, n - 1);
    }
  }

  lemma {:induction false} SubSits(m: Mem, f: nat, i: nat, g: nat)
    requires Valid(m) && f in m.t && m.pos[f].level > 1 && i < ENTRIES && (f == m.root ==> i < ENTRIES / 2)
    requires g in Sub(m.t, m.t[f][i], m.pos[f].level)
    ensures g in m.t && SitsAt(m.pos[g], m.pos[f].level, m.pos[f].prefix, i)
    decreases m.pos[f].level, 0
  {
    var e := m.t[f][i];
    assert LinkOk(m, f, i);
    if g != e.frame { BelowSits(m, e.frame, ENTRIES, g); }
  }

  /** Dropping a level off a prefix first or last is the same. */
  lemma {:induction false} PreShift(x: nat, k: nat)
    ensures Pre(x, k + 1) == Pre(x / ENTRIES, k)
  {
    if k > 0 { PreShift(x, k - 1); } else { assert Pre(x, 1) == Pre(x, 0) / ENTRIES; }
  }

  lemma DistinctJoin(a: seq<nat>, b: seq<nat>)
    requires Distinct(a) && Distinct(b) && forall x: nat :: x in a ==> x !in b
    ensures Distinct(a + b)
  {
    var c := a + b;
    forall i, j | 0 <= i < j < |c| ensures c[i] != c[j] {
      if i < |a| && j >= |a| { assert a[i] in a && b[j - |a|] in b; }
    }
  }

  /** No table is returned twice. */
  lemma {:induction false} BelowOnce(m: Mem, f: nat, n: nat)
    requires Valid(m) && f in m.t && n <= ENTRIES && (f == m.root ==> n <= ENTRIES / 2)
    ensures Distinct(Below(m.t, f, m.pos[f].level, n))
    decreases m.pos[f].level, n
  {
    var l, p := m.pos[f].level, m.pos[f].prefix;
    if n > 0 && l > 1 {
      var s, part := Below(m.t, f, l, n - 1), Sub(m.t, m.t[f][n - 1], l);
      BelowOnce(m, f, n - 1);
      SubOnce(m, f, n - 1);
      forall x: nat | x in s ensures x in m.t && Sits(m.pos[x], l, p, n - 1) { BelowSits(m, f, n - 1, x); }
      forall x: nat | x in part ensures x in m.t && !Sits(m.pos[x], l, p, n - 1) {
        SubSits(m, f, n - 1, x);
        SitsSplit(m.pos[x], l, p, n - 1);
      }
      DistinctJoin(s, part);
    }
  }

  lemma {:induction false} SubOnce(m: Mem, f: nat, i: nat)
    requires Valid(m) && f in m.t && m.pos[f].level > 1 && i < ENTRIES && (f == m.root ==> i < ENTRIES / 2)
    ensures Distinct(Sub(m.t, m.t[f][i], m.pos[f].level))
    decreases m.pos[f].level, 0
  {
    var e := m.t[f][i];
    if e.Pte? {
      assert LinkOk(m, f, i);
      BelowOnce(m, e.frame, ENTRIES);
      var s := Below(m.t, e.frame, m.pos[f].level - 1, ENTRIES);
      forall x: nat | x in s ensures x != e.frame { BelowSits(m, e.frame, ENTRIES, x); }
      DistinctJoin(s, [e.frame]);
    }
  }

  lemma {:induction false} DirectChild(m: Mem, f: nat, n: nat, i: nat, g: nat)
    requires Valid(m) && ParentOf(m, f, i, g) && i < n <= ENTRIES
    ensures g in Below(m.t, f, m.pos[f].level, n)
    decreases n
  {
    if i < n - 1 { DirectChild(m, f, n - 1, i, g); }
  }

  /** What is returned is closed under links. */
  lemma {:induction false} ChildIn(m: Mem, f: nat, n: nat, h: nat, j: nat, g: nat)
    requires Valid(m) && f in m.t && n <= ENTRIES && (f == m.root ==> n <= ENTRIES / 2)
    requires h in Below(m.t, f, m.pos[f].level, n) && ParentOf(m, h, j, g)
    ensures g in Below(m.t, f, m.pos[f].level, n)
    decreases m.pos[f].level, n
  {
    var l := m.pos[f].level;
    if h in Below(m.t, f, l, n - 1) {
      ChildIn(m, f, n - 1, h, j, g);
    } else {
      var e := m.t[f][n - 1];
      assert LinkOk(m, f, n - 1);
      if h == e.frame { DirectChild(m, h, ENTRIES, j, g); } else { ChildIn(m, e.frame, ENTRIES, h, j, g); }
    }
  }

  /** A table that sits below another is among those below it. */
  lemma {:induction false} SitsBelow(m: Mem, f: nat, g: nat)
    requires Valid(m) && f in m.t && f != m.root && g in m.t && Sits(m.pos[g], m.pos[f].level, m.pos[f].prefix, ENTRIES)
    ensures g in Below(m.t, f, m.pos[f].level, ENTRIES)
    decreases m.levels - m.pos[g].level
  {
    var l, q := m.pos[f].level, m.pos[g];
    LevelBelow(m, f);
    assert HasParent(m, g);
    var h: nat, i: nat :| ParentOf(m, h, i, g);
    ChildParts(m.pos[h].prefix, i);
    PreShift(q.prefix, l - q.level - 1);
    if m.pos[h].level == l {
      assert SameAt(m, h, f);
      DirectChild(m, f, ENTRIES, i, g);
    } else {
      SitsBelow(m, f, h);
      ChildIn(m, f, ENTRIES, h, i, g);
    }
  }

  /** Table `g` is `f` or sits below it. */
  predicate Under(m: Mem, f: nat, g: nat)
    requires f in m.t && f in m.pos
  {
    g == f || (g in m.t && g in m.pos && Sits(m.pos[g], m.pos[f].level, m.pos[f].prefix, ENTRIES))
  }

  /** The tables returned for `f` are `f` and those below it, each once. */
  lemma UnderOnce(m: Mem, f: nat)
    requires Valid(m) && f in m.t && f != m.root
    ensures var freed := Below(m.t, f, m.pos[f].level, ENTRIES) + [f];
      Distinct(freed) && forall g: nat :: g in freed <==> Under(m, f, g)
  {
    var s := Below(m.t, f, m.pos[f].level, ENTRIES);
    BelowOnce(m, f, ENTRIES);
    forall g: nat ensures g in s <==> g in m.t && Sits(m.pos[g], m.pos[f].level, m.pos[f].prefix, ENTRIES) {
      if g in s { BelowSits(m, f, ENTRIES, g); }
      if g in m.t && Sits(m.pos[g], m.pos[f].level, m.pos[f].prefix, ENTRIES) { SitsBelow(m, f, g); }
    }
    DistinctJoin(s, [f]);
  }

  predicate Whole(t: Tables) {
    forall f: nat :: f in t ==> |t[f]| == ENTRIES
  }

  /** The recursion of `table_free`. */
  method FreeBelow(t: Tables, f: nat, l: nat) returns (freed: seq<nat>)
    requires Whole(t)
    ensures freed == Below(t, f, l, ENTRIES) + [f]
    decreases l
  {
    freed := [];
    if l > 1 && f in t {
      for i := 0 to ENTRIES
        invariant freed == Below(t, f, l, i)
      {
        var e := t[f][i];
        var part := [];
        if e.Pte? { part := FreeBelow(t, e.frame, l - 1); }
        assert part == Sub(t, e, l);
        freed := freed + part;
      }
    }
    freed := freed + [f];
  }

  /** `table_free` of a table of a space: it and the tables below it are returned, each once. */
  method TableFree(m: Mem, f: nat, l: nat) returns (freed: seq<nat>)
    requires Valid(m) && f in m.t && f != m.root && l == m.pos[f].level
    ensures freed == Below(m.t, f, l, ENTRIES) + [f]
    ensures Distinct(freed) && forall g: nat :: g in freed <==> Under(m, f, g)
  {
    freed := FreeBelow(m.t, f, l);
    UnderOnce(m, f);
  }

  /** `table_freeable` */
  predicate Freeable(t: Tables, f: nat, l: nat)
    decreases l
  {
    f in t && (Empty(t, f) || (l > 1 && forall i: nat :: i < |t[f]| && t[f][i].Pte? ==> Freeable(t, t[f][i].frame, l - 1)))
  }

  /** A table can go exactly if no page below it is mapped. */
  lemma {:induction false} FreeableIff(m: Mem, f: nat)
    requires Valid(m) && f in m.t && f != m.root
    ensures Freeable(m.t, f, m.pos[f].level) <==> forall v: nat :: On(m, f, v) ==> Query(m, v).Zero?
    decreases m.pos[f].level
  {
    var l, p := m.pos[f].level, m.pos[f].prefix;
    LevelBelow(m, f);
    forall i: nat | i < ENTRIES && m.t[f][i].Pte? && l > 1 ensures ChildClear(m, f, i) {
      assert LinkOk(m, f, i);
      FreeableIff(m, m.t[f][i].frame);
    }
    if Freeable(m.t, f, l) {
      forall v: nat | On(m, f, v) ensures Query(m, v).Zero? {
        Reach(m, f, v);
        if l > 1 { Step(m, f, v); }
        var i := Index(v, l);
        assert l > 1 && m.t[f][i].Pte? ==> ChildClear(m, f, i);
      }
    }
    if forall v: nat :: On(m, f, v) ==> Query(m, v).Zero? { ClearFreeable(m, f); }
  }

  /** What the lemma says of the table below entry `i`. */
  ghost predicate ChildClear(m: Mem, f: nat, i: nat)
    requires f in m.t && f in m.pos && i < |m.t[f]| && m.t[f][i].Pte? && m.pos[f].level > 1
  {
    var g := m.t[f][i].frame;
    && g in m.t && g in m.pos && m.pos[g] == Child(m.pos[f], i)
    && (Freeable(m.t, g, m.pos[f].level - 1) <==> forall v: nat :: On(m, g, v) ==> Query(m, v).Zero?)
  }

  lemma ClearFreeable(m: Mem, f: nat)
    requires Valid(m) && f in m.t && f != m.root && forall v: nat :: On(m, f, v) ==> Query(m, v).Zero?
    requires forall i: nat :: i < ENTRIES && m.t[f][i].Pte? && m.pos[f].level > 1 ==> ChildClear(m, f, i)
    ensures Freeable(m.t, f, m.pos[f].level)
  {
    var l, p := m.pos[f].level, m.pos[f].prefix;
    if l == 1 {
      forall i | 0 <= i < ENTRIES ensures m.t[f][i].Zero? {
        var v := p * ENTRIES + i;
        OneLeaf(v, p, i);
        Reach(m, f, v);
      }
    } else {
      forall i: nat | i < ENTRIES && m.t[f][i].Pte? ensures Freeable(m.t, m.t[f][i].frame, l - 1) {
        assert ChildClear(m, f, i);
        forall v: nat | On(m, m.t[f][i].frame, v) ensures On(m, f, v) { ChildOnPath(m.pos[f], i, v); }
      }
    }
  }

  predicate TopKnown(m: Mem, g: nat) {
    g in m.pos && m.pos[g].level < m.levels
  }

  /** The entry of the root that table `g` lies below. */
  function Top(m: Mem, g: nat): nat
    requires TopKnown(m, g)
  {
    Pre(m.pos[g].prefix, m.levels - 1 - m.pos[g].level)
  }

  /** No page below entry `i` of the root is mapped. */
  ghost predicate ClearAt(m: Mem, i: nat) {
    forall v: nat :: Low(m, v) && Index(v, m.levels) == i ==> Query(m, v).Zero?
  }

  /** The entries of the root below `n` with a mapped page. */
  ghost function InUse(m: Mem, n: nat): set<nat> {
    set i: nat | i < n && !ClearAt(m, i)
  }

  /** The tables below entry `i` of the root are the one it leads to and those below that. */
  lemma TopUnder(m: Mem, i: nat, g: nat)
    requires Valid(m) && i < ENTRIES / 2 && m.t[m.root][i].Pte? && g in m.t && g != m.root
    ensures var f := m.t[m.root][i].frame; f in m.t && f in m.pos && f != m.root && TopKnown(m, g) && (Top(m, g) == i <==> Under(m, f, g))
  {
    var f := m.t[m.root][i].frame;
    assert LinkOk(m, m.root, i);
    LevelBelow(m, g);
    assert SameAt(m, f, g) ==> f == g;
    assert Pre(m.pos[g].prefix, 0) == m.pos[g].prefix;
  }

  /** That entry is there. */
  lemma {:induction false} TopLinked(m: Mem, g: nat)
    requires Valid(m) && g in m.t && g != m.root
    ensures TopKnown(m, g) && Top(m, g) < ENTRIES / 2 && m.t[m.root][Top(m, g)].Pte?
    decreases m.levels - m.pos[g].level
  {
    LevelBelow(m, g);
    assert HasParent(m, g);
    var h: nat, i: nat :| ParentOf(m, h, i, g);
    if h != m.root {
      TopLinked(m, h);
      ChildParts(m.pos[h].prefix, i);
      PreShift(m.pos[g].prefix, m.levels - 2 - m.pos[g].level);
    } else {
      assert Pre(m.pos[g].prefix, 0) == m.pos[g].prefix;
    }
  }

  /** `table_freeable` for an entry of the root says whether a page below it is mapped. */
  lemma TopClear(m: Mem, i: nat)
    requires Valid(m) && i < ENTRIES / 2
    ensures m.t[m.root][i].Zero? ==> ClearAt(m, i)
    ensures m.t[m.root][i].Pte? ==> (Freeable(m.t, m.t[m.root][i].frame, m.levels - 1) <==> ClearAt(m, i))
  {
    if m.t[m.root][i].Pte? {
      var f := m.t[m.root][i].frame;
      assert LinkOk(m, m.root, i);
      FreeableIff(m, f);
      forall v: nat ensures On(m, f, v) <==> Low(m, v) && Index(v, m.levels) == i {
        ChildOnPath(m.pos[m.root], i, v);
        if On(m, f, v) { Reach(m, f, v); }
        if Low(m, v) { LowRoot(m, v); }
      }
    }
  }

  /** What has been given back after the first `n` entries of the root. */
  ghost predicate GivenBack(m: Mem, n: nat, freed: seq<nat>, stranded: nat) {
    && Distinct(freed) && stranded == |InUse(m, n)|
    && forall g: nat :: g in freed <==> g in m.t && g != m.root && TopKnown(m, g) && Top(m, g) < n && ClearAt(m, Top(m, g))
  }

  lemma GivenMore(m: Mem, n: nat, freed: seq<nat>, stranded: nat, part: seq<nat>)
    requires Valid(m) && n < ENTRIES / 2 && GivenBack(m, n, freed, stranded)
    requires if m.t[m.root][n].Pte? && ClearAt(m, n) then
               Distinct(part) && m.t[m.root][n].frame in m.t && forall g: nat :: g in part <==> Under(m, m.t[m.root][n].frame, g)
             else part == []
    ensures GivenBack(m, n + 1, freed + part, stranded + if ClearAt(m, n) then 0 else 1)
  {
    assert InUse(m, n + 1) == InUse(m, n) + if ClearAt(m, n) then {} else {n};
    forall g: nat | g in m.t && g != m.root ensures TopKnown(m, g) && (Top(m, g) == n && ClearAt(m, n) <==> g in part) {
      TopLinked(m, g);
      if m.t[m.root][n].Pte? { TopUnder(m, n, g); }
    }
    forall g: nat | g in part ensures g in m.t && g != m.root {
      assert LinkOk(m, m.root, n);
      LevelBelow(m, m.t[m.root][n].frame);
    }
    DistinctJoin(freed, part);
  }

  /** One entry of the root. */
  method FreeEntry(m: Mem, i: nat, freed: seq<nat>, stranded: nat) returns (freed': seq<nat>, stranded': nat)
    requires Valid(m) && i < ENTRIES / 2 && GivenBack(m, i, freed, stranded)
    ensures GivenBack(m, i + 1, freed', stranded')
  {
    var e := m.t[m.root][i];
    TopClear(m, i);
    if e.Pte? && Freeable(m.t, e.frame, m.levels - 1) {
      assert LinkOk(m, m.root, i);
      LevelBelow(m, e.frame);
      var part := TableFree(m, e.frame, m.levels - 1);
      GivenMore(m, i, freed, stranded, part);
      return freed + part, stranded;
    }
    GivenMore(m, i, freed, stranded, []);
    assert freed + [] == freed;
    return freed, if e.Pte? then stranded + 1 else stranded;
  }

  /**
   The part of `vmm_destroy_address_space` that gives the table pages back: those below entries of the root without a
   mapped page, each once, and the root if that is all of them.
   */
  method FreeSpace(m: Mem) returns (freed: seq<nat>, stranded: nat)
    requires Valid(m)
    ensures stranded == |InUse(m, ENTRIES / 2)| && (stranded == 0 <==> forall v: nat :: Low(m, v) ==> Query(m, v).Zero?)
    ensures Distinct(freed) && (m.root in freed <==> stranded == 0)
    ensures forall g: nat :: g in m.t && g != m.root ==> TopKnown(m, g) && (g in freed <==> ClearAt(m, Top(m, g)))
    ensures (forall g: nat :: g in freed ==> g in m.t) && (stranded == 0 ==> forall g: nat :: g in freed <==> g in m.t)
  {
    freed, stranded := [], 0;
    assert InUse(m, 0) == {};
    for i := 0 to ENTRIES / 2
      invariant GivenBack(m, i, freed, stranded)
    {
      freed, stranded := FreeEntry(m, i, freed, stranded);
    }
    AllGiven(m, freed, stranded);
    if stranded == 0 {
      DistinctJoin(freed, [m.root]);
      freed := freed + [m.root];
    }
  }

  lemma AllGiven(m: Mem, freed: seq<nat>, stranded: nat)
    requires Valid(m) && GivenBack(m, ENTRIES / 2, freed, stranded)
    ensures stranded == 0 <==> forall v: nat :: Low(m, v) ==> Query(m, v).Zero?
    ensures forall g: nat :: g in m.t && g != m.root ==> TopKnown(m, g) && (g in freed <==> ClearAt(m, Top(m, g)))
    ensures stranded == 0 ==> forall g: nat :: g in freed <==> g in m.t && g != m.root
  {
    forall g: nat | g in m.t && g != m.root ensures TopKnown(m, g) && Top(m, g) < ENTRIES / 2 { TopLinked(m, g); }
    if stranded == 0 {
      forall i: nat | i < ENTRIES / 2 ensures ClearAt(m, i) { assert i !in InUse(m, ENTRIES / 2); }
      forall v: nat | Low(m, v) ensures Query(m, v).Zero? {
        LowRoot(m, v);
        assert ClearAt(m, Index(v, m.levels));
      }
    } else {
      var i :| i in InUse(m, ENTRIES / 2);
    }
  }
}
