/** The kernel's copy-on-write operations as they update the leaves, the frames and the counters. */
module CowSpace {
  import opened Bytes
  import opened Paging
  import opened Cow

  /** Without leaves the counts are zero and every frame is in the pool once. */
  lemma EmptyInv(s: State)
    requires s.leaves == map[] && s.share.Keys == s.mem.Keys && s.pool == multiset(s.mem.Keys)
    requires forall f :: f in s.mem ==> |s.mem[f]| == PAGE_BYTES && s.share[f] == 0
    ensures Inv(s)
  {
    forall f | f in s.share ensures FrameOk(s, f) { assert Sharers(s, f) == {}; }
  }

  /** Sharing page `n` of `src` continues a fork. */
  lemma ForkedStep(s: State, t: State, u: State, src: nat, dst: nat, n: nat)
    requires Apart(s) && Forked(s, t, src, dst, n) && src != dst && Fresh(s, dst) && At(src, n) in s.leaves
    requires u.live == t.live && u.mem == t.mem && u.pool == t.pool
    requires u.leaves == t.leaves[At(src, n) := ParentLeaf(s.leaves[At(src, n)])][At(dst, n) := ChildLeaf(s.leaves[At(src, n)])]
    requires var f := s.leaves[At(src, n)].frame;
      f in t.share && u.share == t.share[f := AddRefs(t.share[f], NewRefs(s.leaves[At(src, n)]))]
    ensures Forked(s, u, src, dst, n + 1)
  {
    LeavesStep(s, t, u, src, dst, n);
    CountsStep(s, t, u, src, n);
  }

  lemma LeavesStep(s: State, t: State, u: State, src: nat, dst: nat, n: nat)
    requires ForkedLeaves(s, t, src, dst, n) && src != dst && Fresh(s, dst) && At(src, n) in s.leaves
    requires u.leaves == t.leaves[At(src, n) := ParentLeaf(s.leaves[At(src, n)])][At(dst, n) := ChildLeaf(s.leaves[At(src, n)])]
    ensures ForkedLeaves(s, u, src, dst, n + 1)
  {
    var k := At(src, n);
    forall j ensures Forks(s, src, n + 1, j) <==> Forks(s, src, n, j) || j == k {}
    assert Forks(s, src, n + 1, k);
  }

  lemma CountsStep(s: State, t: State, u: State, src: nat, n: nat)
    requires Apart(s) && ForkedCounts(s, t, src, n) && At(src, n) in s.leaves
    requires var f := s.leaves[At(src, n)].frame;
      f in t.share && u.share == t.share[f := AddRefs(t.share[f], NewRefs(s.leaves[At(src, n)]))]
    ensures ForkedCounts(s, u, src, n + 1)
  {
    var k := At(src, n);
    var f := s.leaves[k].frame;
    assert Forks(s, src, n + 1, k);
    forall j ensures Forks(s, src, n + 1, j) <==> Forks(s, src, n, j) || j == k {}
    assert OffFrame(s, src, n, f) by {
      forall j | Forks(s, src, n, j) ensures s.leaves[j].frame != f {}
    }
    forall g | g in s.share && OffFrame(s, src, n + 1, g) ensures u.share[g] == s.share[g] {
      forall j | Forks(s, src, n, j) ensures s.leaves[j].frame != g { assert Forks(s, src, n + 1, j); }
      assert t.share[g] == s.share[g];
    }
    forall j | Forks(s, src, n + 1, j) && s.leaves[j].frame in s.share
      ensures u.share[s.leaves[j].frame] == AddRefs(s.share[s.leaves[j].frame], NewRefs(s.leaves[j]))
    {
      if j != k { assert Forks(s, src, n, j) && s.leaves[j].frame != f; }
    }
  }

  lemma ForkedSkip(s: State, t: State, src: nat, dst: nat, n: nat)
    requires Forked(s, t, src, dst, n) && At(src, n) !in s.leaves
    ensures Forked(s, t, src, dst, n + 1)
  {
    forall j ensures Forks(s, src, n + 1, j) <==> Forks(s, src, n, j) {}
    forall j | Forks(s, src, n + 1, j) && s.leaves[j].frame in s.share
      ensures t.share[s.leaves[j].frame] == AddRefs(s.share[s.leaves[j].frame], NewRefs(s.leaves[j]))
    {
      assert Forks(s, src, n, j);
    }
    forall g | g in s.share && OffFrame(s, src, n + 1, g) ensures t.share[g] == s.share[g] {
      forall j | Forks(s, src, n, j) ensures s.leaves[j].frame != g { assert Forks(s, src, n + 1, j); }
    }
  }

  /** Releasing the leaf of page `n` continues a destruction. */
  lemma DroppingRelease(s: State, t: State, u: State, a: nat, n: nat, rec: nat)
    requires Apart(s) && Dropping(s, t, a, n, rec) && rec <= n
    requires u.live == t.live && u.leaves == t.leaves && u.mem == t.mem
    requires if At(a, n) in s.leaves && s.leaves[At(a, n)].flags.sharedref then Unshared(t, u, s.leaves[At(a, n)].frame)
             else u.share == t.share && u.pool == t.pool
    ensures Dropping(s, u, a, n + 1, rec)
  {
    var k := At(a, n);
    forall j | Lies(s, a, j) ensures j != k ==> k !in s.leaves || s.leaves[j].frame != s.leaves[k].frame {}
    forall j | Lies(s, a, j) && s.leaves[j].frame in s.share
      ensures var e := s.leaves[j];
        && u.share[e.frame] == (if j.page < n + 1 && e.flags.sharedref then Dec(s.share[e.frame]) else s.share[e.frame])
        && u.pool[e.frame] == s.pool[e.frame] + Returned(s, j, j.page < n + 1, j.page < rec)
    {
      assert j.page == n ==> j == k;
    }
    forall f | NotOn(s, a, f) ensures (f in s.share ==> u.share[f] == s.share[f]) && u.pool[f] == s.pool[f] {
      assert Lies(s, a, k) ==> s.leaves[k].frame != f;
    }
  }

  /** Reclaiming the leaf of page `n` continues a destruction. */
  lemma DroppingReclaim(s: State, t: State, u: State, a: nat, rel: nat, n: nat)
    requires Apart(s) && Dropping(s, t, a, rel, n) && n < rel
    requires u.live == t.live && u.share == t.share && u.mem == t.mem && u.leaves == t.leaves - {At(a, n)}
    requires u.pool == t.pool + if At(a, n) in s.leaves && !s.leaves[At(a, n)].flags.cow && s.leaves[At(a, n)].flags.owned
                                then multiset{s.leaves[At(a, n)].frame} else multiset{}
    ensures Dropping(s, u, a, rel, n + 1)
  {
    var k := At(a, n);
    forall j ensures j in u.leaves <==> j in s.leaves && !(j.space == a && j.page < n + 1) {
      assert j.space == a && j.page == n <==> j == k;
    }
    forall j | Lies(s, a, j) && s.leaves[j].frame in s.share
      ensures u.pool[s.leaves[j].frame] == s.pool[s.leaves[j].frame] + Returned(s, j, j.page < rel, j.page < n + 1)
    {
      assert j.page == n ==> j == k;
      assert j != k && k in s.leaves ==> s.leaves[j].frame != s.leaves[k].frame;
    }
    forall f | NotOn(s, a, f) ensures u.pool[f] == s.pool[f] {
      assert Lies(s, a, k) ==> s.leaves[k].frame != f;
    }
  }

  /** Every leaf lies below the limit. */
  predicate Within(s: State, limit: nat) {
    forall k :: k in s.leaves ==> k.page < limit
  }

  /** What the kernel's callers see to. */
  predicate Asked(s: State, op: Op, limit: nat) {
    match op
    case MapPage(k, bytes, flags) => k !in s.leaves && k.page < limit && |bytes| == PAGE_BYTES && Private(Pte(0, flags))
    case Write(k, off, b) => off < PAGE_BYTES
    case Fork(src, dst) => src != dst && Fresh(s, dst)
    case Destroy(a) => true
  }

  /** What nobody sees to. */
  predicate Sound(s: State, op: Op) {
    op.Fork? ==> ForkOk(s, op.src)
  }

  /** The operation succeeds. */
  predicate Served(s: State, op: Op) {
    match op
    case MapPage(k, bytes, flags) => s.pool != multiset{}
    case Write(k, off, b) => k in s.leaves && Writable(s.leaves[k]) && (s.leaves[k].flags.write || s.pool != multiset{})
    case Fork(src, dst) => true
    case Destroy(a) => true
  }

  lemma PlainMore(p: Plain, ops: seq<Op>, n: nat)
    requires n < |ops|
    ensures PlainRun(p, ops[..n + 1]) == PlainStep(PlainRun(p, ops[..n]), ops[n])
  {
    assert ops[..n + 1][..n] == ops[..n];
  }

  class Spaces {
    const limit: nat
    var live: set<nat>
    var leaves: map<At, Leaf>
    var mem: map<nat, PageData>
    var share: map<nat, nat>
    var pool: multiset<nat>

    function S(): State
      reads this
    {
      State(live, leaves, mem, share, pool)
    }

    /** No space yet, and every frame in the pool. */
    constructor (limit: nat, frames: set<nat>)
      ensures Inv(S()) && this.limit == limit && live == {} && leaves == map[] && mem.Keys == frames
    {
      this.limit, live, leaves := limit, {}, map[];
      mem := map f | f in frames :: seq(PAGE_BYTES, _ => 0);
      share := map f | f in frames :: 0;
      pool := multiset(frames);
      new;
      EmptyInv(S());
    }

    /** `pmm_share_ref` */
    method ShareRef(f: nat)
      requires f in share
      modifies this`share
      ensures share == old(share)[f := AddRefs(old(share)[f], 1)]
    {
      if share[f] < SHARE_MAX { share := share[f := share[f] + 1]; }
      assert share == old(share)[f := AddRefs(old(share)[f], 1)];
    }

    /** `share_user_level` at one leaf. */
    method SharePage(src: nat, dst: nat, page: nat)
      requires At(src, page) in leaves && leaves[At(src, page)].frame in share && src != dst
      modifies this`leaves, this`share
      ensures var e := old(leaves)[At(src, page)];
        && leaves == old(leaves)[At(src, page) := ParentLeaf(e)][At(dst, page) := ChildLeaf(e)]
        && share == old(share)[e.frame := AddRefs(old(share)[e.frame], NewRefs(e))]
    {
      var e := leaves[At(src, page)];
      if e.flags.pinned {
        leaves := leaves[At(dst, page) := ChildLeaf(e)];
      } else {
        leaves := leaves[At(src, page) := ParentLeaf(e)];
        leaves := leaves[At(dst, page) := ChildLeaf(e)];
        if e.flags.owned {
          if !e.flags.sharedref { ShareRef(e.frame); }
          ShareRef(e.frame);
        }
      }
    }

    /** The child's space, without pages yet. */
    method Enter(ghost src: nat, dst: nat)
      modifies this`live
      ensures Forked(old(S()), S(), src, dst, 0)
    {
      live := live + {dst};
    }

    /** One page of `share_user_level`. */
    method ShareNext(ghost s: State, src: nat, dst: nat, page: nat)
      requires Apart(s) && src != dst && Fresh(s, dst) && Forked(s, S(), src, dst, page)
      modifies this`leaves, this`share
      ensures Forked(s, S(), src, dst, page + 1)
    {
      ghost var t := S();
      var k := At(src, page);
      assert k in leaves <==> k in s.leaves;
      if k in leaves {
        assert leaves[k] == s.leaves[k];
        SharePage(src, dst, page);
        ForkedStep(s, t, S(), src, dst, page);
      } else {
        ForkedSkip(s, t, src, dst, page);
      }
    }

    /** The same when there is no frame for the child's tables. */
    method ShareStop(ghost s: State, src: nat, dst: nat, page: nat)
      requires Forked(s, S(), src, dst, page) && At(src, page) in s.leaves
      modifies this`leaves
      ensures ForkFailed(s, S(), src, dst, page)
    {
      ghost var u := S();
      var k := At(src, page);
      assert k in leaves && leaves[k] == s.leaves[k];
      leaves := leaves[k := ParentLeaf(leaves[k])];
      assert FailedFrom(s, u, S(), src, dst, page);
    }

    /** `share_user_level` over the pages below `n`. */
    method ShareBelow(ghost s: State, src: nat, dst: nat, n: nat)
      requires Apart(s) && src != dst && Fresh(s, dst) && Forked(s, S(), src, dst, 0)
      modifies this`leaves, this`share
      ensures Forked(s, S(), src, dst, n)
    {
      for page := 0 to n
        invariant Forked(s, S(), src, dst, page)
      {
        ShareNext(s, src, dst, page);
      }
    }

    /** `vmm_share_user_space`; at page `stop`, if it comes to it, there is no frame for the child's tables. */
    method ShareUserSpace(src: nat, dst: nat, stop: nat) returns (ok: bool)
      requires Apart(S()) && src != dst && Fresh(S(), dst)
      modifies this`live, this`leaves, this`share
      ensures ok <==> stop >= limit || At(src, stop) !in old(leaves)
      ensures ok ==> Forked(old(S()), S(), src, dst, limit)
      ensures !ok ==> ForkFailed(old(S()), S(), src, dst, stop)
    {
      ghost var s := S();
      ok := stop >= limit || At(src, stop) !in leaves;
      Enter(src, dst);
      ShareBelow(s, src, dst, if ok then limit else stop);
      if !ok { ShareStop(s, src, dst, stop); }
    }

    /** `pmm_unshare_ref`: was this the last reference? */
    method UnshareRef(f: nat) returns (last: bool)
      modifies this`share
      ensures share == if f in old(share) && old(share)[f] > 0 then old(share)[f := old(share)[f] - 1] else old(share)
      ensures last <==> f in old(share) && old(share)[f] == 1
    {
      if f !in share || share[f] == 0 { return false; }
      share := share[f := share[f] - 1];
      last := share[f] == 0;
    }

    /** Drops a reference, and frees the frame with the last one. */
    method Unshare(f: nat)
      modifies this`share, this`pool
      ensures Unshared(old(S()), S(), f)
    {
      var last := UnshareRef(f);
      if last { pool := pool + multiset{f}; }
    }

    /** The copying part of `vmm_cow_resolve`, with the frame `np` just allocated. */
    method CopyTo(k: At, np: nat)
      requires Resolvable(S(), k) && np in pool && leaves[k].frame in mem
      modifies this`leaves, this`mem, this`share, this`pool
      ensures Resolved(old(S()), S(), k, np)
    {
      var e := leaves[k];
      pool := pool - multiset{np};
      mem := mem[np := mem[e.frame]];
      if e.flags.sharedref { Unshare(e.frame); }
      leaves := leaves[k := OwnLeaf(e, np)];
    }

    /** `vmm_cow_resolve`: gives the faulting page a frame of its own. */
    method CowResolve(k: At) returns (ok: bool)
      requires Inv(S())
      modifies this`leaves, this`mem, this`share, this`pool
      ensures ok <==> Resolvable(old(S()), k) && old(pool) != multiset{}
      ensures ok ==> exists np: nat :: Resolved(old(S()), S(), k, np)
      ensures ok ==> leaves.Keys == old(leaves).Keys && leaves == old(leaves)[k := leaves[k]]
      ensures ok ==> leaves[k].flags == Flags(true, old(leaves)[k].flags.user, old(leaves)[k].flags.nx, true, false, false, false)
      ensures !ok ==> S() == old(S())
    {
      if k !in leaves || !leaves[k].flags.cow || leaves[k].flags.pinned || leaves[k].flags.write { return false; }
      if pool == multiset{} { return false; }
      var np :| np in pool;
      InvView(S());
      CopyTo(k, np);
      return true;
    }

    /** A store by the processor, with the page-fault handler resolving copy-on-write. */
    method WriteByte(k: At, off: nat, b: Byte) returns (ok: bool)
      requires Inv(S()) && off < PAGE_BYTES
      modifies this`leaves, this`mem, this`share, this`pool
      ensures ok <==> k in old(leaves) && Writable(old(leaves)[k]) && (old(leaves)[k].flags.write || old(pool) != multiset{})
      ensures ok ==> Step(old(S()), Write(k, off, b), S(), limit)
      ensures !ok ==> S() == old(S())
    {
      ghost var s := S();
      if k !in leaves { return false; }
      assert LeafOk(s, k);
      if !leaves[k].flags.write {
        ok := CowResolve(k);
        if !ok { return; }
        ghost var np: nat :| Resolved(s, S(), k, np);
        ResolvedInv(s, S(), k, np);
      }
      ghost var u := S();
      assert LeafOk(u, k);
      var f := leaves[k].frame;
      mem := mem[f := mem[f][off := b]];
      assert Stored(u, S(), k, off, b);
      return true;
    }

    /** `release_shared_frames` over the pages of one subtree. */
    method ReleaseShared(ghost s: State, a: nat, lo: nat, hi: nat)
      requires Apart(s) && Dropping(s, S(), a, lo, lo) && lo <= hi
      modifies this`share, this`pool
      ensures Dropping(s, S(), a, hi, lo)
    {
      for page := lo to hi
        invariant Dropping(s, S(), a, page, lo)
        invariant unchanged(this`live) && unchanged(this`leaves) && unchanged(this`mem)
      {
        ghost var t := S();
        var k := At(a, page);
        assert k in leaves <==> k in s.leaves;
        if k in leaves && leaves[k].flags.sharedref { Unshare(leaves[k].frame); }
        DroppingRelease(s, t, S(), a, page, lo);
      }
    }

    /** `reclaim_owned_frames` at one leaf. */
    method ReclaimPage(k: At)
      modifies this`leaves, this`pool
      ensures leaves == old(leaves) - {k}
      ensures pool == old(pool) + if k in old(leaves) && !old(leaves)[k].flags.cow && old(leaves)[k].flags.owned
                                  then multiset{old(leaves)[k].frame} else multiset{}
    {
      if k in leaves {
        if !leaves[k].flags.cow && leaves[k].flags.owned { pool := pool + multiset{leaves[k].frame}; }
        leaves := leaves - {k};
      } else {
        assert leaves == leaves - {k};
      }
    }

    /** `reclaim_owned_frames` over the pages of one subtree. */
    method ReclaimOwned(ghost s: State, a: nat, lo: nat, hi: nat)
      requires Apart(s) && Dropping(s, S(), a, hi, lo) && lo <= hi
      modifies this`leaves, this`pool
      ensures Dropping(s, S(), a, hi, hi)
    {
      for page := lo to hi
        invariant Dropping(s, S(), a, hi, page)
        invariant unchanged(this`live) && unchanged(this`share) && unchanged(this`mem)
      {
        ghost var t := S();
        var k := At(a, page);
        assert k in leaves <==> k in s.leaves;
        ReclaimPage(k);
        DroppingReclaim(s, t, S(), a, hi, page);
      }
    }

    /** `vmm_destroy_address_space`, subtree by subtree; `span` is the number of pages below one root entry. */
    method DestroyAddressSpace(a: nat, span: nat)
      requires Apart(S()) && limit == ENTRIES / 2 * span
      modifies this`live, this`leaves, this`share, this`pool
      ensures Destroyed(old(S()), S(), a, limit)
    {
      ghost var s := S();
      var lo: nat := 0;
      for i := 0 to ENTRIES / 2
        invariant lo == i * span
        invariant Dropping(s, S(), a, lo, lo)
        invariant unchanged(this`live) && unchanged(this`mem)
      {
        ReleaseShared(s, a, lo, lo + span);
        ReclaimOwned(s, a, lo, lo + span);
        lo := lo + span;
      }
      live := live - {a};
    }

    /** `vmm_map_user` of a page just allocated, which the space then owns. */
    method MapPage(k: At, bytes: PageData, flags: Flags) returns (ok: bool)
      requires k !in leaves && |bytes| == PAGE_BYTES && Private(Pte(0, flags))
      modifies this`live, this`leaves, this`mem, this`pool
      ensures ok <==> old(pool) != multiset{}
      ensures ok ==> exists np: nat :: MappedFresh(old(S()), S(), k, np, bytes, flags)
      ensures !ok ==> S() == old(S())
    {
      if pool == multiset{} { return false; }
      var np :| np in pool;
      live, leaves, mem, pool := live + {k.space}, leaves[k := Pte(np, flags)], mem[np := bytes], pool - multiset{np};
      assert MappedFresh(old(S()), S(), k, np, bytes, flags);
      return true;
    }

    /** One operation of the kernel; a fork is sound exactly when the space owns its pages and the counters have room. */
    method Perform(op: Op, span: nat) returns (ok: bool)
      requires Inv(S()) && limit == ENTRIES / 2 * span && Within(S(), limit) && Asked(S(), op, limit)
      modifies this
      ensures Within(S(), limit)
      ensures ok <==> Served(old(S()), op)
      ensures !ok ==> S() == old(S())
      ensures Inv(S()) <==> Sound(old(S()), op)
      ensures ok && Sound(old(S()), op) ==> Step(old(S()), op, S(), limit) && View(S()) == PlainStep(View(old(S())), op)
    {
      ghost var s := S();
      InvApart(s);
      match op {
        case MapPage(k, bytes, flags) => ok := MapPage(k, bytes, flags);
        case Write(k, off, b) => ok := WriteByte(k, off, b);
        case Fork(src, dst) =>
          ok := ShareUserSpace(src, dst, limit);
          ForkExact(s, S(), src, dst, limit);
          assert forall k :: k in leaves ==> k in s.leaves || Forks(s, src, limit, At(src, k.page));
          ok := true;
        case Destroy(a) =>
          DestroyAddressSpace(a, span);
          ok := true;
      }
      if ok && Sound(s, op) { StepRefines(s, op, S(), limit); }
    }

    /** A run of operations, up to the first that cannot be served: the spaces read as if fork copied every page. */
    method PerformAll(ops: seq<Op>, span: nat) returns (done: nat)
      requires Inv(S()) && limit == ENTRIES / 2 * span && Within(S(), limit)
      modifies this
      ensures Inv(S()) && Within(S(), limit) && done <= |ops|
      ensures View(S()) == PlainRun(View(old(S())), ops[..done])
      ensures done < |ops| ==> !(Asked(S(), ops[done], limit) && Sound(S(), ops[done]) && Served(S(), ops[done]))
    {
      done := 0;
      while done < |ops|
        invariant Inv(S()) && Within(S(), limit) && done <= |ops|
        invariant View(S()) == PlainRun(View(old(S())), ops[..done])
      {
        if !Asked(S(), ops[done], limit) || !Sound(S(), ops[done]) { return; }
        var ok := Perform(ops[done], span);
        if !ok { return; }
        PlainMore(View(old(S())), ops, done);
        done := done + 1;
      }
    }
  }

  // ---- Runs to states that the code should not reach

  /** The page that a page of the forked spaces comes from. */
  function From(k: At, src: nat, dst: nat): At {
    if k.space == dst then At(src, k.page) else k
  }

  lemma ApartForked(s: State, t: State, src: nat, dst: nat, limit: nat)
    requires Apart(s) && Forked(s, t, src, dst, limit) && src != dst && Fresh(s, dst)
    ensures Apart(t)
  {
    forall k | k in t.leaves ensures From(k, src, dst) in s.leaves && t.leaves[k].frame == s.leaves[From(k, src, dst)].frame {
      if k.space == dst { assert Forks(s, src, limit, From(k, src, dst)); }
    }
    forall k, j | k in t.leaves && j in t.leaves && k.space == j.space && t.leaves[k].frame == t.leaves[j].frame ensures k == j {
      assert From(k, src, dst) == From(j, src, dst);
    }
  }

  lemma ApartDestroyed(s: State, t: State, a: nat, limit: nat)
    requires Apart(s) && Destroyed(s, t, a, limit)
    ensures Apart(t)
  {
  }

  lemma FreshPool(s: State, frames: set<nat>)
    requires Inv(s) && s.leaves == map[] && s.mem.Keys == frames && frames != {}
    ensures s.pool != multiset{}
  {
    var f :| f in frames;
    assert FrameOk(s, f) && s.pool[f] == 1;
  }

  lemma OtherFrame(frames: set<nat>, f: nat) returns (g: nat)
    requires |frames| >= 2
    ensures g in frames && g != f
  {
    assert frames == (frames - {f}) + (frames * {f});
    assert frames * {f} == {f} || frames * {f} == {};
    g :| g in frames - {f};
  }

  /** A frame that no leaf maps is in the pool. */
  lemma SpareFrame(s: State, f: nat)
    requires Inv(s) && f in s.mem && forall k :: k in s.leaves ==> s.leaves[k].frame != f
    ensures s.pool != multiset{}
  {
    assert FrameOk(s, f) && s.pool[f] == 1;
  }

  /** Space 0 with one page of its own. */
  method MappedOnce(frames: set<nat>, bytes: PageData, flags: Flags) returns (m: Spaces)
    requires frames != {} && |bytes| == PAGE_BYTES && Private(Pte(0, flags))
    ensures fresh(m) && m.limit == ENTRIES / 2 && Inv(m.S()) && m.mem.Keys == frames && m.leaves.Keys == {At(0, 0)}
    ensures m.leaves[At(0, 0)].flags == flags
  {
    m := new Spaces(ENTRIES / 2, frames);
    ghost var s := m.S();
    FreshPool(s, frames);
    var ok := m.MapPage(At(0, 0), bytes, flags);
    ghost var np: nat :| MappedFresh(s, m.S(), At(0, 0), np, bytes, flags);
    MappedFreshInv(s, m.S(), At(0, 0), np, bytes, flags);
    assert np in s.mem;
  }

  lemma OnceForked(s: State, t: State, k: At, limit: nat)
    requires Inv(s) && k == At(0, 0) && limit > 0 && s.leaves.Keys == {k} && Private(s.leaves[k]) && Forked(s, t, 0, 1, limit)
    ensures Inv(t) && t.leaves.Keys == {k, At(1, 0)}
    ensures var f := t.leaves[k].frame; t.leaves[At(1, 0)].frame == f && f in t.share && t.share[f] == 2
    ensures t.leaves[At(1, 0)] == ChildLeaf(s.leaves[k])
  {
    assert LeafOk(s, k) && FrameOk(s, s.leaves[k].frame);
    AloneOnFrame(s, k);
    assert Forks(s, 0, limit, k);
    ForkExact(s, t, 0, 1, limit);
    assert t.leaves.Keys == {k, At(1, 0)};
  }

  /** And forked to space 1. */
  method ForkOnce(m: Spaces)
    requires Inv(m.S()) && m.limit == ENTRIES / 2 && m.leaves.Keys == {At(0, 0)} && Private(m.leaves[At(0, 0)])
    modifies m
    ensures Inv(m.S()) && m.mem == old(m.mem) && m.leaves.Keys == {At(0, 0), At(1, 0)}
    ensures var f := m.leaves[At(0, 0)].frame; m.leaves[At(1, 0)].frame == f && f in m.share && m.share[f] == 2
    ensures m.leaves[At(1, 0)] == ChildLeaf(old(m.leaves)[At(0, 0)])
  {
    ghost var s := m.S();
    InvApart(s);
    var ok := m.ShareUserSpace(0, 1, m.limit);
    OnceForked(s, m.S(), At(0, 0), m.limit);
  }

  /** And from space 1 to space 2. */
  method ForkAgain(m: Spaces) returns (ghost t: State)
    requires Inv(m.S()) && Fresh(m.S(), 2)
    modifies m
    ensures t == m.S() && Forked(old(m.S()), t, 1, 2, m.limit) && Apart(t)
  {
    ghost var s := m.S();
    InvApart(s);
    var ok := m.ShareUserSpace(1, 2, m.limit);
    t := m.S();
    ApartForked(s, t, 1, 2, m.limit);
  }

  method DestroyBoth(m: Spaces) returns (ghost u: State)
    requires Apart(m.S()) && m.limit == ENTRIES / 2
    modifies m
    ensures Destroyed(old(m.S()), u, 0, m.limit) && Destroyed(u, m.S(), 1, m.limit)
  {
    m.DestroyAddressSpace(0, 1);
    u := m.S();
    ApartDestroyed(old(m.S()), u, 0, m.limit);
    m.DestroyAddressSpace(1, 1);
  }

  method Dangle(m: Spaces, ghost f: nat)
    requires Inv(m.S()) && m.limit == ENTRIES / 2 && m.leaves.Keys == {At(0, 0), At(1, 0)} && !m.leaves[At(1, 0)].flags.owned
    requires m.leaves[At(0, 0)].frame == m.leaves[At(1, 0)].frame == f && f in m.share && m.share[f] == 2
    modifies m
    ensures At(2, 0) in m.leaves && m.leaves[At(2, 0)].frame in m.pool
  {
    ghost var s := m.S();
    assert Fresh(s, 2) && Below(s, 1, m.limit) && Below(s, 0, m.limit);
    ghost var t := ForkAgain(m);
    ghost var u := DestroyBoth(m);
    InheritedForkDangles(s, t, u, m.S(), 1, 2, m.limit, At(1, 0), At(0, 0));
  }

  /** A fork of the fork: once spaces 0 and 1 are gone, space 2 still maps a frame that is back in the pool. */
  method GrandchildDangles(frames: set<nat>, bytes: PageData, flags: Flags) returns (m: Spaces)
    requires frames != {} && |bytes| == PAGE_BYTES && Private(Pte(0, flags))
    ensures fresh(m) && At(2, 0) in m.leaves && m.leaves[At(2, 0)].frame in m.pool
  {
    m := MappedOnce(frames, bytes, flags);
    ForkOnce(m);
    Dangle(m, m.leaves[At(0, 0)].frame);
  }

  lemma FailedApart(s: State, u: State, t: State)
    requires Apart(s) && Fresh(s, 1) && FailedFrom(s, u, t, 0, 1, 0)
    ensures Apart(t)
  {
    ApartForked(s, u, 0, 1, 0);
    assert forall k :: k in t.leaves ==> k in u.leaves && t.leaves[k].frame == u.leaves[k].frame;
  }

  method FailFork(m: Spaces) returns (ghost u: State, ghost t: State)
    requires Inv(m.S()) && m.limit == ENTRIES / 2 && m.leaves.Keys == {At(0, 0)}
    modifies m
    ensures t == m.S() && FailedFrom(old(m.S()), u, t, 0, 1, 0) && Apart(t)
  {
    ghost var s := m.S();
    InvApart(s);
    var ok := m.ShareUserSpace(0, 1, 0);
    t := m.S();
    u :| FailedFrom(s, u, t, 0, 1, 0);
    FailedApart(s, u, t);
  }

  method Lose(m: Spaces)
    requires Inv(m.S()) && m.limit == ENTRIES / 2 && m.leaves.Keys == {At(0, 0)} && Private(m.leaves[At(0, 0)])
    modifies m
    ensures m.leaves == map[] && m.pool[old(m.leaves)[At(0, 0)].frame] == 0
  {
    ghost var s := m.S();
    ghost var u, t := FailFork(m);
    m.DestroyAddressSpace(1, 1);
    ghost var v := m.S();
    ApartDestroyed(t, v, 1, m.limit);
    m.DestroyAddressSpace(0, 1);
    FailedForkLoses(s, u, t, v, m.S(), 0, 1, 0, m.limit);
    NoneLeft(s, u, t, v, m.S(), m.limit);
  }

  lemma NoneLeft(s: State, u: State, t: State, v: State, w: State, limit: nat)
    requires s.leaves.Keys == {At(0, 0)} && limit > 0 && FailedFrom(s, u, t, 0, 1, 0) && Destroyed(t, v, 1, limit) && Destroyed(v, w, 0, limit)
    ensures w.leaves == map[]
  {
    forall k ensures k !in w.leaves { assert k in w.leaves ==> k in v.leaves && k in t.leaves; }
    assert w.leaves.Keys == {};
  }

  /** A fork that finds no frame for the child's tables: when both spaces are gone a frame is missing from the pool. */
  method FailedForkLeaks(frames: set<nat>, bytes: PageData, flags: Flags) returns (m: Spaces, ghost f: nat)
    requires frames != {} && |bytes| == PAGE_BYTES && Private(Pte(0, flags))
    ensures fresh(m) && m.leaves == map[] && f in frames && m.pool[f] == 0
  {
    m := MappedOnce(frames, bytes, flags);
    f := m.leaves[At(0, 0)].frame;
    assert LeafOk(m.S(), At(0, 0));
    Lose(m);
  }

  /** A page without write permission: the write fails, and after a fork it succeeds. */
  method ReadOnlyWritten(frames: set<nat>, bytes: PageData, off: nat, b: Byte) returns (before: bool, after: bool)
    requires |frames| >= 2 && |bytes| == PAGE_BYTES && off < PAGE_BYTES
    ensures !before && after
  {
    var m := MappedOnce(frames, bytes, Flags(false, true, true, true, false, false, false));
    before := m.WriteByte(At(0, 0), off, b);
    ForkOnce(m);
    ghost var f := m.leaves[At(0, 0)].frame;
    ghost var g := OtherFrame(frames, f);
    SpareFrame(m.S(), g);
    after := m.WriteByte(At(1, 0), off, b);
  }
}
