/**
 Copy-on-write address spaces over the flat page map, with the share counts of the physical memory
 manager. A leaf is named by its space and page number; table pages are not part of this state.
 */
module Cow {
  import opened Bytes
  import opened Paging

  const PAGE_BYTES: nat := 4096
  const SHARE_MAX: nat := 0xFF

  datatype At = At(space: nat, page: nat)

  type Leaf = e: Pte | e.Pte? witness Pte(0, Flags(false, false, false, false, false, false, false))

  type PageData = seq<Byte>

  /** `pool[f]` is how often frame `f` has been returned to the physical memory manager and not handed out since. */
  datatype State = State(live: set<nat>, leaves: map<At, Leaf>, mem: map<nat, PageData>, share: map<nat, nat>, pool: multiset<nat>)

  /** The leaves that hold a reference on frame `f`. */
  function Sharers(s: State, f: nat): set<At> {
    set k | k in s.leaves && s.leaves[k].frame == f && s.leaves[k].flags.sharedref
  }

  predicate Mapped(s: State, f: nat) {
    exists k :: k in s.leaves && s.leaves[k].frame == f
  }

  predicate Shared(e: Leaf) { e.flags.sharedref && e.flags.cow && !e.flags.write && !e.flags.pinned && e.flags.user }

  predicate Private(e: Leaf) { !e.flags.sharedref && !e.flags.cow && e.flags.owned && !e.flags.pinned && e.flags.user }

  /** A leaf is private, or it holds one of its frame's references and may not be written through. */
  predicate LeafOk(s: State, k: At)
    requires k in s.leaves
  {
    k.space in s.live && (Shared(s.leaves[k]) || Private(s.leaves[k])) && s.leaves[k].frame in s.mem
  }

  /** Two leaves on one frame both hold references, and lie in different spaces. */
  predicate PairOk(s: State, k: At, j: At)
    requires k in s.leaves && j in s.leaves
  {
    k != j && s.leaves[k].frame == s.leaves[j].frame ==>
      s.leaves[k].flags.sharedref && s.leaves[j].flags.sharedref && k.space != j.space
  }

  /** The reference count is exact, and a frame is in the pool exactly once or mapped. */
  ghost predicate FrameOk(s: State, f: nat)
    requires f in s.share
  {
    && s.share[f] == |Sharers(s, f)| <= SHARE_MAX
    && s.pool[f] == if Mapped(s, f) then 0 else 1
  }

  ghost predicate Inv(s: State) {
    && s.share.Keys == s.mem.Keys
    && (forall k {:trigger LeafOk(s, k)} :: k in s.leaves ==> LeafOk(s, k))
    && (forall k, j {:trigger PairOk(s, k, j)} :: k in s.leaves && j in s.leaves ==> PairOk(s, k, j))
    && (forall f {:trigger s.mem[f]} :: f in s.mem ==> |s.mem[f]| == PAGE_BYTES)
    && (forall f {:trigger FrameOk(s, f)} :: f in s.share ==> FrameOk(s, f))
    && (forall f {:trigger s.pool[f]} :: f !in s.mem ==> s.pool[f] == 0)
  }

  /** A space maps a frame at most once: all that the loops over a space rely on. */
  ghost predicate Apart(s: State) {
    && s.share.Keys == s.mem.Keys
    && (forall k :: k in s.leaves ==> s.leaves[k].frame in s.mem)
    && (forall k, j :: k in s.leaves && j in s.leaves && k.space == j.space && s.leaves[k].frame == s.leaves[j].frame ==> k == j)
  }

  lemma InvApart(s: State)
    requires Inv(s)
    ensures Apart(s)
  {
    forall k | k in s.leaves ensures s.leaves[k].frame in s.mem { assert LeafOk(s, k); }
    forall k, j | k in s.leaves && j in s.leaves && k.space == j.space && s.leaves[k].frame == s.leaves[j].frame ensures k == j {
      assert PairOk(s, k, j);
    }
  }

  // ---- Fork: `share_user_level` over the pages of a space

  /** The parent's leaf after the fork. */
  function ParentLeaf(e: Leaf): Leaf {
    if e.flags.pinned then e
    else e.(flags := e.flags.(write := false, cow := true, sharedref := e.flags.sharedref || e.flags.owned))
  }

  /** The child's leaf. */
  function ChildLeaf(e: Leaf): Leaf {
    if e.flags.pinned then e.(flags := e.flags.(user := true, owned := false, cow := false, pinned := false, sharedref := false))
    else e.(flags := e.flags.(user := true, write := false, owned := false, cow := true, pinned := false, sharedref := e.flags.owned))
  }

  /** `pmm_share_ref`, `n` times: saturates. */
  function AddRefs(count: nat, n: nat): nat {
    if count + n <= SHARE_MAX then count + n else if count <= SHARE_MAX then SHARE_MAX else count
  }

  /** References taken for a leaf: one for the child, and one for the parent if it had none yet. */
  function NewRefs(e: Leaf): nat {
    if e.flags.pinned || !e.flags.owned then 0 else if e.flags.sharedref then 1 else 2
  }

  /** Page `k` of the forking space is among the first `n`. */
  predicate Forks(s: State, src: nat, n: nat, k: At) {
    k in s.leaves && k.space == src && k.page < n
  }

  ghost predicate OffFrame(s: State, src: nat, n: nat, f: nat) {
    forall k {:trigger Forks(s, src, n, k)} :: Forks(s, src, n, k) ==> s.leaves[k].frame != f
  }

  /** The leaves after the pages of `src` below `n` have been shared with the fresh space `dst`. */
  ghost predicate ForkedLeaves(s: State, t: State, src: nat, dst: nat, n: nat) {
    && (forall k {:trigger k in t.leaves} :: k in t.leaves <==> k in s.leaves || (k.space == dst && Forks(s, src, n, At(src, k.page))))
    && (forall k {:trigger t.leaves[k]} :: k in s.leaves ==> t.leaves[k] == if Forks(s, src, n, k) then ParentLeaf(s.leaves[k]) else s.leaves[k])
    && (forall k {:trigger Forks(s, src, n, k)} :: Forks(s, src, n, k) ==> t.leaves[At(dst, k.page)] == ChildLeaf(s.leaves[k]))
  }

  /** The share counts then. */
  ghost predicate ForkedCounts(s: State, t: State, src: nat, n: nat) {
    && t.share.Keys == s.share.Keys
    && (forall k {:trigger Forks(s, src, n, k)} :: Forks(s, src, n, k) && s.leaves[k].frame in s.share ==>
          t.share[s.leaves[k].frame] == AddRefs(s.share[s.leaves[k].frame], NewRefs(s.leaves[k])))
    && (forall f {:trigger t.share[f]} :: f in s.share && OffFrame(s, src, n, f) ==> t.share[f] == s.share[f])
  }

  /** `t` is `s` after the pages of `src` below `n` have been shared with the fresh space `dst`. */
  ghost predicate Forked(s: State, t: State, src: nat, dst: nat, n: nat) {
    t.live == s.live + {dst} && t.mem == s.mem && t.pool == s.pool && ForkedLeaves(s, t, src, dst, n) && ForkedCounts(s, t, src, n)
  }

  predicate Fresh(s: State, dst: nat) {
    forall k :: k in s.leaves ==> k.space != dst
  }

  predicate Below(s: State, a: nat, limit: nat) {
    forall k :: k in s.leaves && k.space == a ==> k.page < limit
  }

  /** The leaf can be shared soundly: the forking space owns it and its counter has room. */
  predicate Sharable(s: State, k: At)
    requires k in s.leaves
  {
    var e := s.leaves[k];
    e.flags.owned && e.frame in s.share && s.share[e.frame] < SHARE_MAX
  }

  predicate ForkOk(s: State, src: nat) {
    forall k :: k in s.leaves && k.space == src ==> Sharable(s, k)
  }

  /** The same for the pages below `n`. */
  ghost predicate ForkOkTo(s: State, src: nat, n: nat) {
    forall k {:trigger Sharable(s, k)} :: Forks(s, src, n, k) ==> Sharable(s, k)
  }

  /** Nobody holds a reference on a private frame, and nobody else maps it. */
  lemma AloneOnFrame(s: State, k: At)
    requires Inv(s) && k in s.leaves && !s.leaves[k].flags.sharedref
    ensures Sharers(s, s.leaves[k].frame) == {}
    ensures forall j :: j in s.leaves && s.leaves[j].frame == s.leaves[k].frame ==> j == k
  {
    forall j | j in s.leaves && s.leaves[j].frame == s.leaves[k].frame ensures j == k { assert PairOk(s, j, k); }
  }

  /** The leaf of `s` that a leaf of the forked state comes from. */
  function Origin(s: State, src: nat, k: At): At {
    if k in s.leaves then k else At(src, k.page)
  }

  lemma ForkedLeafOk(s: State, t: State, src: nat, dst: nat, limit: nat, k: At)
    requires Inv(s) && Forked(s, t, src, dst, limit) && Fresh(s, dst) && ForkOkTo(s, src, limit) && k in t.leaves
    ensures LeafOk(t, k)
    ensures Origin(s, src, k) in s.leaves && t.leaves[k].frame == s.leaves[Origin(s, src, k)].frame
    ensures t.leaves[k].flags.sharedref <==> s.leaves[Origin(s, src, k)].flags.sharedref || Forks(s, src, limit, Origin(s, src, k))
  {
    var o := Origin(s, src, k);
    assert LeafOk(s, o);
    assert Forks(s, src, limit, o) ==> Sharable(s, o);
  }

  lemma ForkedPairOk(s: State, t: State, src: nat, dst: nat, limit: nat, k: At, j: At)
    requires Inv(s) && Forked(s, t, src, dst, limit) && Fresh(s, dst) && ForkOkTo(s, src, limit)
    requires src != dst && k in t.leaves && j in t.leaves
    ensures PairOk(t, k, j)
  {
    ForkedLeafOk(s, t, src, dst, limit, k);
    ForkedLeafOk(s, t, src, dst, limit, j);
    assert PairOk(s, Origin(s, src, k), Origin(s, src, j));
  }

  lemma ForkedMapped(s: State, t: State, src: nat, dst: nat, limit: nat, f: nat)
    requires Forked(s, t, src, dst, limit) && src != dst && Fresh(s, dst)
    ensures Mapped(t, f) <==> Mapped(s, f)
  {
    if Mapped(s, f) {
      var k :| k in s.leaves && s.leaves[k].frame == f;
      assert k in t.leaves && t.leaves[k].frame == f;
    }
    if Mapped(t, f) {
      var k :| k in t.leaves && t.leaves[k].frame == f;
      var o := Origin(s, src, k);
      assert o in s.leaves && (k != o ==> Forks(s, src, limit, o)) && s.leaves[o].frame == f;
    }
  }

  lemma ForkedFrameOk(s: State, t: State, src: nat, dst: nat, limit: nat, f: nat)
    requires Inv(s) && Forked(s, t, src, dst, limit) && Fresh(s, dst) && ForkOkTo(s, src, limit)
    requires src != dst && f in t.share
    ensures FrameOk(t, f)
  {
    assert FrameOk(s, f);
    ForkedMapped(s, t, src, dst, limit, f);
    forall k | k in t.leaves
      ensures k in Sharers(t, f) <==> t.leaves[k].frame == f && (s.leaves[Origin(s, src, k)].flags.sharedref || Forks(s, src, limit, Origin(s, src, k)))
    {
      ForkedLeafOk(s, t, src, dst, limit, k);
    }
    if OffFrame(s, src, limit, f) {
      forall k | k in t.leaves && t.leaves[k].frame == f ensures k in s.leaves && !Forks(s, src, limit, k) {
        ForkedLeafOk(s, t, src, dst, limit, k);
        assert !Forks(s, src, limit, Origin(s, src, k));
      }
      assert Sharers(t, f) == Sharers(s, f);
    } else {
      var k :| Forks(s, src, limit, k) && s.leaves[k].frame == f;
      ForkedOneFrame(s, t, src, dst, limit, k);
    }
  }

  lemma ForkedSharers(s: State, t: State, src: nat, dst: nat, limit: nat, k: At)
    requires Inv(s) && Forked(s, t, src, dst, limit) && Fresh(s, dst) && ForkOkTo(s, src, limit)
    requires src != dst && Forks(s, src, limit, k)
    ensures Sharers(t, s.leaves[k].frame) == Sharers(s, s.leaves[k].frame) + {k, At(dst, k.page)}
  {
    var f, j := s.leaves[k].frame, At(dst, k.page);
    var a, b := Sharers(s, f), Sharers(t, f);
    forall l ensures l in b <==> l in a || l == k || l == j { ForkedSharer(s, t, src, dst, limit, k, l); }
    TwoMore(a, b, k, j);
  }

  lemma TwoMore(a: set<At>, b: set<At>, k: At, j: At)
    requires forall l :: l in b <==> l in a || l == k || l == j
    ensures b == a + {k, j}
  {
  }

  lemma AddTwo(a: set<At>, k: At, j: At, had: bool)
    requires j !in a && j != k && if had then k in a else a == {}
    ensures |a + {k, j}| == |a| + if had then 1 else 2
  {
    if had { assert a + {k, j} == a + {j}; } else { assert a + {k, j} == {k, j}; }
  }

  /** The frame of a forked page gains the child's reference, and the parent's if it was private. */
  lemma ForkedOneFrame(s: State, t: State, src: nat, dst: nat, limit: nat, k: At)
    requires Inv(s) && Forked(s, t, src, dst, limit) && Fresh(s, dst) && ForkOkTo(s, src, limit)
    requires src != dst && Forks(s, src, limit, k) && s.leaves[k].frame in s.share
    ensures |Sharers(t, s.leaves[k].frame)| == t.share[s.leaves[k].frame] <= SHARE_MAX
  {
    var e := s.leaves[k];
    assert FrameOk(s, e.frame) && LeafOk(s, k) && Sharable(s, k);
    if !e.flags.sharedref { AloneOnFrame(s, k); }
    ForkedSharers(s, t, src, dst, limit, k);
    assert At(dst, k.page) !in s.leaves;
    AddTwo(Sharers(s, e.frame), k, At(dst, k.page), e.flags.sharedref);
  }

  lemma ForkedSharer(s: State, t: State, src: nat, dst: nat, limit: nat, k: At, l: At)
    requires Inv(s) && Forked(s, t, src, dst, limit) && Fresh(s, dst) && ForkOkTo(s, src, limit)
    requires src != dst && Forks(s, src, limit, k)
    ensures var f := s.leaves[k].frame;
      l in Sharers(t, f) <==> l in Sharers(s, f) || l == k || l == At(dst, k.page)
  {
    assert At(dst, k.page) in t.leaves && k in t.leaves;
    if l in t.leaves {
      ForkedLeafOk(s, t, src, dst, limit, l);
      assert PairOk(s, Origin(s, src, l), k);
    }
  }

  /** A fork of the pages below `n` is sound exactly when the space owns these and their counters have room. */
  lemma ForkedToExact(s: State, t: State, src: nat, dst: nat, n: nat)
    requires Inv(s) && Forked(s, t, src, dst, n) && src != dst && Fresh(s, dst)
    ensures Inv(t) <==> ForkOkTo(s, src, n)
  {
    if ForkOkTo(s, src, n) {
      forall k | k in t.leaves ensures LeafOk(t, k) { ForkedLeafOk(s, t, src, dst, n, k); }
      forall k, j | k in t.leaves && j in t.leaves ensures PairOk(t, k, j) { ForkedPairOk(s, t, src, dst, n, k, j); }
      forall f | f in t.share ensures FrameOk(t, f) { ForkedFrameOk(s, t, src, dst, n, f); }
    } else {
      var k :| Forks(s, src, n, k) && !Sharable(s, k);
      ForkUnsound(s, t, src, dst, n, k);
    }
  }

  /** Exactly the forks of spaces that own all their pages, with room in the counters, are sound. */
  lemma ForkExact(s: State, t: State, src: nat, dst: nat, limit: nat)
    requires Inv(s) && Forked(s, t, src, dst, limit) && src != dst && Fresh(s, dst) && Below(s, src, limit)
    ensures Inv(t) <==> ForkOk(s, src)
  {
    ForkedToExact(s, t, src, dst, limit);
    forall k | k in s.leaves && k.space == src ensures Forks(s, src, limit, k) {}
    assert ForkOkTo(s, src, limit) <==> ForkOk(s, src);
  }

  /** A counter without room is below the number of sharers afterwards. */
  lemma ForkOverflows(s: State, t: State, src: nat, dst: nat, limit: nat, k: At)
    requires Inv(s) && Forked(s, t, src, dst, limit) && src != dst && Fresh(s, dst)
    requires Forks(s, src, limit, k) && !Sharable(s, k) && s.leaves[k].flags.owned
    ensures !Inv(t)
  {
    var e, j := s.leaves[k], At(dst, k.page);
    assert Forks(s, src, limit, k) && LeafOk(s, k) && FrameOk(s, e.frame);
    forall l | l in Sharers(s, e.frame) + {j} ensures l in Sharers(t, e.frame) { assert l in t.leaves; }
    SubsetSize(Sharers(s, e.frame) + {j}, Sharers(t, e.frame));
    assert !FrameOk(t, e.frame);
  }

  /** A page inherited from an earlier fork gets no reference; a full counter loses one. */
  lemma ForkUnsound(s: State, t: State, src: nat, dst: nat, limit: nat, k: At)
    requires Inv(s) && Forked(s, t, src, dst, limit) && src != dst && Fresh(s, dst)
    requires Forks(s, src, limit, k) && !Sharable(s, k)
    ensures !Inv(t)
  {
    var e, j := s.leaves[k], At(dst, k.page);
    assert Forks(s, src, limit, k);
    assert j in t.leaves && j !in s.leaves && t.leaves[j] == ChildLeaf(e);
    if e.flags.owned {
      ForkOverflows(s, t, src, dst, limit, k);
    } else {
      assert LeafOk(s, k) && !LeafOk(t, j);
    }
  }

  /**
   The fork came to page `n` and found no frame for the child's tables: the pages below are shared, and the
   parent's entry for this one is written already.
   */
  ghost predicate FailedFrom(s: State, u: State, t: State, src: nat, dst: nat, n: nat) {
    && Forked(s, u, src, dst, n) && At(src, n) in s.leaves && At(src, n) in u.leaves
    && t == u.(leaves := u.leaves[At(src, n) := ParentLeaf(s.leaves[At(src, n)])])
  }

  ghost predicate ForkFailed(s: State, t: State, src: nat, dst: nat, n: nat) {
    exists u: State :: FailedFrom(s, u, t, src, dst, n)
  }

  /** A fork that fails leaves the counts right exactly when the page it fails at was shared before. */
  lemma ForkFailExact(s: State, u: State, t: State, src: nat, dst: nat, n: nat)
    requires Inv(s) && src != dst && Fresh(s, dst) && ForkOkTo(s, src, n) && FailedFrom(s, u, t, src, dst, n)
    ensures Inv(u) && u.leaves[At(src, n)] == s.leaves[At(src, n)]
    ensures Inv(t) <==> s.leaves[At(src, n)].flags.sharedref
  {
    var k := At(src, n);
    var e := s.leaves[k];
    ForkedToExact(s, u, src, dst, n);
    assert !Forks(s, src, n, k) && LeafOk(s, k) && u.leaves[k] == e;
    if e.flags.sharedref {
      assert ParentLeaf(e) == e && u.leaves[k := e] == u.leaves;
    } else {
      UncountedRef(u, t, k);
    }
  }

  /** A reference that is not counted. */
  lemma UncountedRef(u: State, t: State, k: At)
    requires Inv(u) && k in u.leaves && !u.leaves[k].flags.sharedref
    requires t == u.(leaves := u.leaves[k := ParentLeaf(u.leaves[k])])
    ensures !Inv(t) && t.leaves[k].flags.sharedref && t.leaves[k].flags.cow
    ensures var f := u.leaves[k].frame; f in t.share && t.share[f] == 0 && t.pool[f] == 0
    ensures forall j :: j in t.leaves && t.leaves[j].frame == u.leaves[k].frame ==> j == k
  {
    var f := u.leaves[k].frame;
    assert LeafOk(u, k) && FrameOk(u, f) && Mapped(u, f);
    AloneOnFrame(u, k);
    assert k in Sharers(t, f);
    assert !FrameOk(t, f);
  }

  /** Then the frame is lost with the space: when parent and child are gone no leaf maps it, and it is not in the pool. */
  lemma FailedForkLoses(s: State, u: State, t: State, v: State, w: State, src: nat, dst: nat, n: nat, limit: nat)
    requires Inv(s) && src != dst && Fresh(s, dst) && ForkOkTo(s, src, n) && FailedFrom(s, u, t, src, dst, n)
    requires n < limit && !s.leaves[At(src, n)].flags.sharedref && Destroyed(t, v, dst, limit) && Destroyed(v, w, src, limit)
    ensures var f := s.leaves[At(src, n)].frame; f in w.mem && w.pool[f] == 0 && !Mapped(w, f)
  {
    var k := At(src, n);
    var f := s.leaves[k].frame;
    ForkFailExact(s, u, t, src, dst, n);
    UncountedRef(u, t, k);
    assert LeafOk(u, k);
    forall j | Lies(t, dst, j) ensures t.leaves[j].frame != f {}
    assert NotOn(t, dst, f) && k in v.leaves && v.leaves[k] == t.leaves[k];
    assert Lies(v, src, k) && v.share[f] == 0 && v.pool[f] == 0;
    forall j | j in w.leaves ensures w.leaves[j].frame != f { assert j in v.leaves && j in t.leaves; }
  }

  lemma SubsetSize(a: set<At>, b: set<At>)
    requires a <= b
    ensures |a| <= |b|
  {
    assert b == a + (b - a);
  }

  // ---- Write faults, stores and fresh mappings

  /** The leaf after `vmm_cow_resolve` has copied its frame to `np`. */
  function OwnLeaf(e: Leaf, np: nat): Leaf {
    Pte(np, Flags(true, e.flags.user, e.flags.nx, true, false, false, false))
  }

  predicate Resolvable(s: State, k: At) {
    k in s.leaves && s.leaves[k].flags.cow && !s.leaves[k].flags.pinned && !s.leaves[k].flags.write
  }

  /** `pmm_unshare_ref(f)`, followed by `pmm_free(f)` if that was the last reference. */
  predicate Unshared(s: State, t: State, f: nat) {
    && t.share == (if f in s.share && s.share[f] > 0 then s.share[f := s.share[f] - 1] else s.share)
    && t.pool == s.pool + if f in s.share && s.share[f] == 1 then multiset{f} else multiset{}
  }

  /** `vmm_cow_resolve` with the free frame `np`. */
  ghost predicate Resolved(s: State, t: State, k: At, np: nat) {
    && Resolvable(s, k) && np in s.pool && s.leaves[k].frame in s.mem
    && t.live == s.live
    && t.leaves == s.leaves[k := OwnLeaf(s.leaves[k], np)]
    && t.mem == s.mem[np := s.mem[s.leaves[k].frame]]
    && var u := s.(pool := s.pool - multiset{np});
       if s.leaves[k].flags.sharedref then Unshared(u, t, s.leaves[k].frame) else t.share == u.share && t.pool == u.pool
  }

  lemma HasRef(s: State, k: At)
    requires Inv(s) && k in s.leaves && s.leaves[k].flags.sharedref
    ensures s.leaves[k].frame in s.share && s.share[s.leaves[k].frame] >= 1
  {
    assert LeafOk(s, k) && FrameOk(s, s.leaves[k].frame);
    assert k in Sharers(s, s.leaves[k].frame);
  }

  /** When a leaf gives up its reference, the frame is mapped as long as a reference is left. */
  lemma GaveUp(s: State, k: At, f: nat, t: State)
    requires Inv(s) && k in s.leaves && s.leaves[k].frame == f && s.leaves[k].flags.sharedref && f in s.share
    requires forall j :: j != k ==> (j in t.leaves && t.leaves[j].frame == f <==> j in s.leaves && s.leaves[j].frame == f)
    requires forall j :: j != k && j in t.leaves && t.leaves[j].frame == f ==> t.leaves[j] == s.leaves[j]
    requires k in t.leaves ==> t.leaves[k].frame != f
    requires f in t.share && s.share[f] >= 1 && t.share[f] == s.share[f] - 1
    requires t.pool[f] == s.pool[f] + if s.share[f] == 1 then 1 else 0
    ensures FrameOk(t, f)
  {
    assert FrameOk(s, f) && Mapped(s, f);
    assert Sharers(t, f) == Sharers(s, f) - {k};
    assert k in Sharers(s, f);
    if Mapped(t, f) {
      var j :| j in t.leaves && t.leaves[j].frame == f;
      assert PairOk(s, j, k) && j in Sharers(t, f);
    }
    if Sharers(t, f) != {} {
      var j :| j in Sharers(t, f);
      assert Mapped(t, f);
    }
  }

  /** Frames no leaf joins or leaves keep their standing. */
  lemma FrameSame(s: State, t: State, f: nat)
    requires f in s.share && f in t.share && FrameOk(s, f)
    requires forall j :: j in t.leaves && t.leaves[j].frame == f <==> j in s.leaves && s.leaves[j].frame == f
    requires forall j :: j in t.leaves && t.leaves[j].frame == f ==> t.leaves[j] == s.leaves[j]
    requires t.share[f] == s.share[f] && t.pool[f] == s.pool[f]
    ensures FrameOk(t, f)
  {
    assert Sharers(t, f) == Sharers(s, f);
    assert Mapped(t, f) <==> Mapped(s, f);
  }

  /** A frame taken from the pool for one private leaf. */
  lemma FrameTaken(s: State, t: State, f: nat, k: At)
    requires Inv(s) && f in s.share && f in t.share && s.pool[f] >= 1 && k in t.leaves && t.leaves[k].frame == f
    requires !t.leaves[k].flags.sharedref && t.share[f] == s.share[f] && t.pool[f] == s.pool[f] - 1
    requires forall j :: j != k && j in t.leaves ==> j in s.leaves && t.leaves[j] == s.leaves[j]
    ensures FrameOk(t, f)
  {
    assert FrameOk(s, f) && !Mapped(s, f);
    forall j | j in Sharers(s, f) ensures false { assert Mapped(s, f); }
    assert Sharers(s, f) == {};
    assert Sharers(t, f) == {};
  }

  /** The copy made on a write fault gives up one reference and leaves everybody else in place. */
  lemma ResolvedInv(s: State, t: State, k: At, np: nat)
    requires Inv(s) && Resolved(s, t, k, np)
    ensures Inv(t)
  {
    var e := s.leaves[k];
    assert LeafOk(s, k) && np in s.mem && FrameOk(s, np);
    HasRef(s, k);
    assert Mapped(s, e.frame);
    forall l | l in t.leaves ensures LeafOk(t, l) { assert LeafOk(s, l); }
    forall a, b | a in t.leaves && b in t.leaves ensures PairOk(t, a, b) { ResolvedPair(s, t, k, np, a, b); }
    forall f | f in t.share ensures FrameOk(t, f) {
      assert FrameOk(s, f);
      if f == e.frame {
        GaveUp(s, k, f, t);
      } else if f == np {
        FrameTaken(s, t, f, k);
      } else {
        FrameSame(s, t, f);
      }
    }
  }

  lemma ResolvedPair(s: State, t: State, k: At, np: nat, a: At, b: At)
    requires Inv(s) && Resolved(s, t, k, np) && np in s.share && FrameOk(s, np) && a in t.leaves && b in t.leaves
    ensures PairOk(t, a, b)
  {
    assert PairOk(s, a, b);
    assert a in s.leaves && s.leaves[a].frame == np ==> Mapped(s, np);
    assert b in s.leaves && s.leaves[b].frame == np ==> Mapped(s, np);
  }

  /** A store through the leaf. */
  ghost predicate Stored(s: State, t: State, k: At, off: nat, b: Byte) {
    && k in s.leaves && s.leaves[k].flags.write && s.leaves[k].frame in s.mem && off < |s.mem[s.leaves[k].frame]|
    && t == s.(mem := s.mem[s.leaves[k].frame := s.mem[s.leaves[k].frame][off := b]])
  }

  lemma StoredInv(s: State, t: State, k: At, off: nat, b: Byte)
    requires Inv(s) && Stored(s, t, k, off, b)
    ensures Inv(t)
  {
    forall l | l in t.leaves ensures LeafOk(t, l) { assert LeafOk(s, l); }
    forall a, c | a in t.leaves && c in t.leaves ensures PairOk(t, a, c) { assert PairOk(s, a, c); }
    forall f | f in t.share ensures FrameOk(t, f) { FrameSame(s, t, f); }
  }

  /** A private leaf on a free frame, as `vmm_map_user` makes it. */
  ghost predicate MappedFresh(s: State, t: State, k: At, np: nat, bytes: PageData, flags: Flags) {
    && k !in s.leaves && np in s.pool && |bytes| == PAGE_BYTES && Private(Pte(np, flags))
    && t.live == s.live + {k.space} && t.leaves == s.leaves[k := Pte(np, flags)]
    && t.mem == s.mem[np := bytes] && t.share == s.share && t.pool == s.pool - multiset{np}
  }

  lemma MappedFreshInv(s: State, t: State, k: At, np: nat, bytes: PageData, flags: Flags)
    requires Inv(s) && MappedFresh(s, t, k, np, bytes, flags)
    ensures Inv(t)
  {
    assert np in s.mem && FrameOk(s, np) && !Mapped(s, np);
    forall l | l in t.leaves ensures LeafOk(t, l) { assert l in s.leaves ==> LeafOk(s, l); }
    forall a, b | a in t.leaves && b in t.leaves ensures PairOk(t, a, b) {
      assert a in s.leaves && b in s.leaves ==> PairOk(s, a, b);
    }
    forall f | f in t.share ensures FrameOk(t, f) {
      assert FrameOk(s, f);
      if f == np { FrameTaken(s, t, f, k); } else { FrameSame(s, t, f); }
    }
  }

  // ---- Destruction: `release_shared_frames` and `reclaim_owned_frames`

  function Dec(n: nat): nat { if n == 0 then 0 else n - 1 }

  /** What releasing a leaf's reference and then reclaiming the leaf return to the pool. */
  function Returned(s: State, k: At, released: bool, reclaimed: bool): nat
    requires k in s.leaves
  {
    var e := s.leaves[k];
    (if released && e.flags.sharedref && e.frame in s.share && s.share[e.frame] == 1 then 1 else 0)
    + (if reclaimed && !e.flags.cow && e.flags.owned then 1 else 0)
  }

  predicate Lies(s: State, a: nat, k: At) { k in s.leaves && k.space == a }

  ghost predicate NotOn(s: State, a: nat, f: nat) {
    forall k {:trigger Lies(s, a, k)} :: Lies(s, a, k) ==> s.leaves[k].frame != f
  }

  /** `t` is `s` after the pages of `a` below `rel` gave up their references and those below `rec` are gone. */
  ghost predicate Dropping(s: State, t: State, a: nat, rel: nat, rec: nat) {
    && t.live == s.live && t.mem == s.mem && t.share.Keys == s.share.Keys
    && (forall k {:trigger k in t.leaves} :: k in t.leaves <==> k in s.leaves && !(k.space == a && k.page < rec))
    && (forall k {:trigger t.leaves[k]} :: k in t.leaves ==> t.leaves[k] == s.leaves[k])
    && (forall k {:trigger Lies(s, a, k)} :: Lies(s, a, k) && s.leaves[k].frame in s.share ==>
          var e := s.leaves[k];
          && t.share[e.frame] == (if k.page < rel && e.flags.sharedref then Dec(s.share[e.frame]) else s.share[e.frame])
          && t.pool[e.frame] == s.pool[e.frame] + Returned(s, k, k.page < rel, k.page < rec))
    && (forall f {:trigger NotOn(s, a, f)} :: NotOn(s, a, f) ==>
          (f in s.share ==> t.share[f] == s.share[f]) && t.pool[f] == s.pool[f])
  }

  ghost predicate Destroyed(s: State, t: State, a: nat, limit: nat) {
    t.live == s.live - {a} && Dropping(s, t.(live := s.live), a, limit, limit)
  }

  /** Destroying a space gives back each reference it holds and each frame it owns alone, once. */
  lemma DestroyedInv(s: State, t: State, a: nat, limit: nat)
    requires Inv(s) && Destroyed(s, t, a, limit) && Below(s, a, limit)
    ensures Inv(t)
  {
    forall k | k in t.leaves ensures LeafOk(t, k) { assert LeafOk(s, k); }
    forall k, j | k in t.leaves && j in t.leaves ensures PairOk(t, k, j) { assert PairOk(s, k, j); }
    forall f | f in t.share ensures FrameOk(t, f) { DestroyedFrame(s, t, a, limit, f); }
    forall f | f !in t.mem ensures t.pool[f] == 0 {
      forall k | Lies(s, a, k) ensures s.leaves[k].frame != f { assert LeafOk(s, k); }
      assert NotOn(s, a, f) && s.pool[f] == 0;
    }
  }

  lemma DestroyedFrame(s: State, t: State, a: nat, limit: nat, f: nat)
    requires Inv(s) && Destroyed(s, t, a, limit) && Below(s, a, limit) && f in t.share
    ensures FrameOk(t, f)
  {
    assert FrameOk(s, f);
    if NotOn(s, a, f) {
      forall j | j in s.leaves && s.leaves[j].frame == f ensures j in t.leaves {
        assert !Lies(s, a, j);
      }
      FrameSame(s, t, f);
    } else {
      var k :| Lies(s, a, k) && s.leaves[k].frame == f;
      assert LeafOk(s, k);
      assert Mapped(s, f);
      forall j | j in s.leaves && s.leaves[j].frame == f && j != k ensures j in t.leaves { assert PairOk(s, j, k); }
      if s.leaves[k].flags.sharedref {
        HasRef(s, k);
        GaveUp(s, k, f, t);
      } else {
        AloneOnFrame(s, k);
        assert Sharers(t, f) == {};
        assert !Mapped(t, f);
      }
    }
  }

  // ---- The reference: every space has its own copy of every page

  /** What a space sees of a page: the bytes, and whether user mode may use it and may not execute it. */
  datatype Seen = Seen(bytes: PageData, user: bool, nx: bool)

  /** The state of the machine whose fork copies: what each space sees at each of its pages. */
  type Plain = map<At, Seen>

  function SeenAt(s: State, k: At): Seen
    requires k in s.leaves && s.leaves[k].frame in s.mem
  {
    Seen(s.mem[s.leaves[k].frame], s.leaves[k].flags.user, s.leaves[k].flags.nx)
  }

  function View(s: State): Plain {
    map k | k in s.leaves && s.leaves[k].frame in s.mem :: SeenAt(s, k)
  }

  datatype Op =
    | MapPage(k: At, bytes: PageData, flags: Flags)
    | Write(k: At, off: nat, b: Byte)
    | Fork(src: nat, dst: nat)
    | Destroy(space: nat)

  /** The same operation when fork copies every page at once. */
  function PlainStep(p: Plain, op: Op): Plain {
    match op
    case MapPage(k, bytes, flags) => p[k := Seen(bytes, flags.user, flags.nx)]
    case Write(k, off, b) => if k in p && off < |p[k].bytes| then p[k := p[k].(bytes := p[k].bytes[off := b])] else p
    case Fork(src, dst) =>
      map k | k in p.Keys + (set j | j in p && j.space == src :: At(dst, j.page)) :: if k in p then p[k] else p[At(src, k.page)]
    case Destroy(a) => map k | k in p && k.space != a :: p[k]
  }

  /** One operation of the copy-on-write machine; a write through a read-only leaf is resolved first. */
  ghost predicate Step(s: State, op: Op, t: State, limit: nat) {
    match op
    case MapPage(k, bytes, flags) => exists np: nat :: MappedFresh(s, t, k, np, bytes, flags)
    case Write(k, off, b) =>
      || Stored(s, t, k, off, b)
      || exists np: nat, u: State :: Resolved(s, u, k, np) && Stored(u, t, k, off, b)
    case Fork(src, dst) =>
      src != dst && Fresh(s, dst) && Below(s, src, limit) && ForkOk(s, src) && Forked(s, t, src, dst, limit)
    case Destroy(a) => Below(s, a, limit) && Destroyed(s, t, a, limit)
  }

  lemma InvView(s: State)
    requires Inv(s)
    ensures forall k :: k in s.leaves ==> s.leaves[k].frame in s.mem
  {
    forall k | k in s.leaves ensures s.leaves[k].frame in s.mem { assert LeafOk(s, k); }
  }

  lemma ResolvedSame(s: State, t: State, k: At, np: nat)
    requires Inv(s) && Resolved(s, t, k, np)
    ensures View(t) == View(s)
  {
    InvView(s);
    assert np in s.mem && FrameOk(s, np) && !Mapped(s, np);
    forall j | j in s.leaves ensures t.leaves[j].frame in t.mem && SeenAt(t, j) == SeenAt(s, j) {
      assert s.leaves[j].frame != np;
    }
  }

  lemma ResolvedView(s: State, t: State, k: At, np: nat)
    requires Inv(s) && Resolved(s, t, k, np)
    ensures Inv(t) && View(t) == View(s)
  {
    ResolvedInv(s, t, k, np);
    ResolvedSame(s, t, k, np);
  }

  lemma StoredView(s: State, t: State, k: At, off: nat, b: Byte)
    requires Inv(s) && Stored(s, t, k, off, b)
    ensures Inv(t) && View(t) == PlainStep(View(s), Write(k, off, b))
  {
    StoredInv(s, t, k, off, b);
    InvView(s);
    InvView(t);
    assert LeafOk(s, k);
    AloneOnFrame(s, k);
    assert View(t) == PlainStep(View(s), Write(k, off, b));
  }

  lemma MappedFreshView(s: State, t: State, k: At, np: nat, bytes: PageData, flags: Flags)
    requires Inv(s) && MappedFresh(s, t, k, np, bytes, flags)
    ensures Inv(t) && View(t) == PlainStep(View(s), MapPage(k, bytes, flags))
  {
    MappedFreshInv(s, t, k, np, bytes, flags);
    InvView(s);
    InvView(t);
    assert np in s.mem && FrameOk(s, np) && !Mapped(s, np);
    forall j | j in s.leaves ensures s.leaves[j].frame != np {}
    var p := PlainStep(View(s), MapPage(k, bytes, flags));
    forall j ensures (j in View(t) <==> j in p) && (j in p ==> View(t)[j] == p[j]) {
      assert j in t.leaves <==> j in s.leaves || j == k;
    }
  }

  lemma ForkedViewAt(s: State, t: State, src: nat, dst: nat, limit: nat, k: At)
    requires Inv(s) && Inv(t) && Forked(s, t, src, dst, limit) && src != dst && Fresh(s, dst) && Below(s, src, limit) && ForkOk(s, src)
    ensures var p := PlainStep(View(s), Fork(src, dst));
      && (k in View(t) <==> k in p)
      && (k in p ==> View(t)[k] == p[k])
  {
    InvView(s);
    InvView(t);
    var p := PlainStep(View(s), Fork(src, dst));
    if k in s.leaves {
      assert k.space != dst && t.leaves[k].frame == s.leaves[k].frame && SeenAt(t, k) == SeenAt(s, k);
    } else if k in t.leaves {
      var j := At(src, k.page);
      assert Forks(s, src, limit, j) && k == At(dst, j.page) && LeafOk(s, j);
      assert SeenAt(t, k) == SeenAt(s, j);
    }
  }

  lemma ForkedView(s: State, t: State, src: nat, dst: nat, limit: nat)
    requires Inv(s) && Forked(s, t, src, dst, limit) && src != dst && Fresh(s, dst) && Below(s, src, limit) && ForkOk(s, src)
    ensures Inv(t) && View(t) == PlainStep(View(s), Fork(src, dst))
  {
    ForkExact(s, t, src, dst, limit);
    InvView(s);
    InvView(t);
    var p := PlainStep(View(s), Fork(src, dst));
    forall k ensures k in View(t) <==> k in p
             ensures k in p ==> View(t)[k] == p[k]
    {
      ForkedViewAt(s, t, src, dst, limit, k);
    }
    assert View(t) == p;
  }

  lemma DestroyedView(s: State, t: State, a: nat, limit: nat)
    requires Inv(s) && Destroyed(s, t, a, limit) && Below(s, a, limit)
    ensures Inv(t) && View(t) == PlainStep(View(s), Destroy(a))
  {
    DestroyedInv(s, t, a, limit);
    InvView(s);
    InvView(t);
    assert View(t) == PlainStep(View(s), Destroy(a));
  }

  /** Every operation does to the views what it would do to private copies. */
  lemma StepRefines(s: State, op: Op, t: State, limit: nat)
    requires Inv(s) && Step(s, op, t, limit)
    ensures Inv(t) && View(t) == PlainStep(View(s), op)
  {
    match op
    case MapPage(k, bytes, flags) =>
      var np: nat :| MappedFresh(s, t, k, np, bytes, flags);
      MappedFreshView(s, t, k, np, bytes, flags);
    case Write(k, off, b) =>
      if Stored(s, t, k, off, b) {
        StoredView(s, t, k, off, b);
      } else {
        var np: nat, u: State :| Resolved(s, u, k, np) && Stored(u, t, k, off, b);
        ResolvedView(s, u, k, np);
        StoredView(u, t, k, off, b);
      }
    case Fork(src, dst) =>
      ForkedView(s, t, src, dst, limit);
    case Destroy(a) =>
      DestroyedView(s, t, a, limit);
  }

  function PlainRun(p: Plain, ops: seq<Op>): Plain {
    if ops == [] then p else PlainStep(PlainRun(p, ops[..|ops| - 1]), ops[|ops| - 1])
  }

  ghost predicate Run(states: seq<State>, ops: seq<Op>, limit: nat) {
    |states| == |ops| + 1 && forall i :: 0 <= i < |ops| ==> Step(states[i], ops[i], states[i + 1], limit)
  }

  /**
   Over any run of mappings, writes, forks and destructions, copy-on-write behaves as if fork copied
   every page: the counts stay exact, no frame is returned twice, and the views are those of the plain machine.
   */
  lemma {:induction false} RunRefines(states: seq<State>, ops: seq<Op>, limit: nat)
    requires Run(states, ops, limit) && Inv(states[0])
    ensures Inv(states[|ops|]) && View(states[|ops|]) == PlainRun(View(states[0]), ops)
    decreases |ops|
  {
    if ops != [] {
      var n := |ops| - 1;
      RunRefines(states[..n + 1], ops[..n], limit);
      StepRefines(states[n], ops[n], states[n + 1], limit);
    }
  }

  /** No write through one space changes a byte read through another. */
  lemma WriteIsolated(s: State, t: State, k: At, off: nat, b: Byte, limit: nat, j: At)
    requires Inv(s) && Step(s, Write(k, off, b), t, limit) && j in s.leaves && j != k
    ensures j in t.leaves && t.leaves[j].frame in t.mem && s.leaves[j].frame in s.mem
    ensures t.mem[t.leaves[j].frame] == s.mem[s.leaves[j].frame]
  {
    StepRefines(s, Write(k, off, b), t, limit);
    InvView(s);
    InvView(t);
    assert View(t)[j] == View(s)[j];
  }

  // ---- The entries that a fork writes

  /** The three entries are for the same frame, and as open to execution. */
  predicate SameAccess(e: Leaf, p: Leaf, c: Leaf) {
    p.frame == c.frame == e.frame && p.flags.nx == c.flags.nx == e.flags.nx && p.flags.user == e.flags.user && c.flags.user
  }

  /**
   Bit by bit, the parent's and the child's entries after the fork of any page. Both are for the page's frame and
   keep its permission to execute. A pinned page stays as it was, and the child may write it as the parent may;
   any other page neither may write without a fault. The child owns nothing.
   */
  lemma ForkFlags(s: State, t: State, src: nat, dst: nat, n: nat, k: At)
    requires Forked(s, t, src, dst, n) && src != dst && Fresh(s, dst) && Forks(s, src, n, k)
    ensures k in t.leaves && At(dst, k.page) in t.leaves
    ensures var e, p, c := s.leaves[k], t.leaves[k], t.leaves[At(dst, k.page)];
      && SameAccess(e, p, c) && p.flags.owned == e.flags.owned && !c.flags.owned
      && p.flags.pinned == e.flags.pinned && !c.flags.pinned
      && p.flags.write == (e.flags.pinned && e.flags.write) == c.flags.write
      && p.flags.cow == (e.flags.pinned ==> e.flags.cow) && c.flags.cow == !e.flags.pinned
      && p.flags.sharedref == (e.flags.sharedref || (e.flags.owned && !e.flags.pinned))
      && c.flags.sharedref == (e.flags.owned && !e.flags.pinned)
    ensures Inv(s) ==> t.leaves[k].flags.user
  {
    assert At(dst, k.page) in t.leaves;
    if Inv(s) { assert LeafOk(s, k); }
  }

  // ---- Where copy-on-write and copying differ

  predicate Writable(e: Leaf) { e.flags.write || e.flags.cow }

  /** Parent and child may write page `k` exactly if the parent could before. */
  predicate KeepsPermission(s: State, t: State, k: At, dst: nat)
    requires k in s.leaves
  {
    && k in t.leaves && At(dst, k.page) in t.leaves
    && Writable(t.leaves[k]) == Writable(s.leaves[k]) == Writable(t.leaves[At(dst, k.page)])
  }

  /**
   The fork forgets which pages were read-only: the copies, and the originals, keep their permission
   exactly if every page of the forking space was writable.
   */
  lemma ForkPermissions(s: State, t: State, src: nat, dst: nat, limit: nat)
    requires Inv(s) && Forked(s, t, src, dst, limit) && src != dst && Fresh(s, dst) && Below(s, src, limit)
    ensures (forall k :: Lies(s, src, k) ==> KeepsPermission(s, t, k, dst)) <==> (forall k :: Lies(s, src, k) ==> Writable(s.leaves[k]))
  {
    forall k | Lies(s, src, k)
      ensures k in t.leaves && At(dst, k.page) in t.leaves
      ensures Writable(t.leaves[k]) && Writable(t.leaves[At(dst, k.page)])
    {
      assert LeafOk(s, k) && Forks(s, src, limit, k);
      assert At(dst, k.page) in t.leaves;
    }
  }

  /**
   What goes wrong otherwise: a child that forks a page it inherited takes no reference for the
   grandchild, so once parent and child are gone the frame is free while the grandchild still maps it.
   */
  lemma InheritedForkDangles(s: State, t: State, u: State, w: State, src: nat, dst: nat, limit: nat, k: At, j: At)
    requires Inv(s) && Forked(s, t, src, dst, limit) && src != dst && Fresh(s, dst) && Below(s, src, limit)
    requires Lies(s, src, k) && !s.leaves[k].flags.owned
    requires j in s.leaves && j != k && s.leaves[j].frame == s.leaves[k].frame && Below(s, j.space, limit)
    requires s.leaves[k].frame in s.share && s.share[s.leaves[k].frame] == 2
    requires Destroyed(t, u, j.space, limit) && Destroyed(u, w, src, limit)
    ensures At(dst, k.page) in w.leaves && w.leaves[At(dst, k.page)].frame == s.leaves[k].frame
    ensures w.pool[s.leaves[k].frame] == 1
  {
    var f := s.leaves[k].frame;
    assert Forks(s, src, limit, k) && LeafOk(s, k) && LeafOk(s, j) && PairOk(s, k, j);
    assert FrameOk(s, f) && Mapped(s, f);
    assert j in t.leaves && t.leaves[j] == s.leaves[j];
    assert Lies(t, j.space, j) && Lies(u, src, k);
  }
}
