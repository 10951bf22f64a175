/** The lower half of one user address space: walking, mapping, unmapping and reclaiming tables. */
module PageTable {
  import opened Options
  import opened Paging
  import opened PageTree
  import opened PageEdit
  import opened PageRel
  import opened PageWalk

  class AddressSpace {
    const root: nat
    const levels: nat
    var tables: map<nat, seq<Pte>>
    var pool: set<nat>
    ghost var pos: map<nat, Pos>

    /** `vmm_create_address_space`: an empty lower half below the kernel's upper half of the root table. */
    constructor (root: nat, levels: nat, kernel: seq<Pte>, pool: set<nat>)
      requires levels >= 2 && |kernel| == ENTRIES && root !in pool
      ensures Valid(Snap()) && NoEmpty(Snap()) && AllUser(Snap()) && AllOpen(Snap())
      ensures this.root == root && this.levels == levels && this.pool == pool && tables.Keys == {root}
      ensures forall i: nat :: i < ENTRIES ==> tables[root][i] == if i < ENTRIES / 2 then Zero else kernel[i]
      ensures forall v: nat :: Low(Snap(), v) ==> Query(Snap(), v).Zero?
    {
      this.root, this.levels, this.pool := root, levels, pool;
      tables := map[root := seq(ENTRIES, i requires 0 <= i < ENTRIES => if i < ENTRIES / 2 then Zero else kernel[i])];
      pos := map[root := Pos(levels, 0)];
      new;
      NewSpace(Snap());
    }

    ghost function Snap(): Mem
      reads this
    {
      Mem(root, levels, tables, pos, pool)
    }

    /** One level of `walk_page_table` with allocation. */
    method WalkStep(f: nat, l: nat, v: nat, user: bool) returns (r: Option<nat>)
      requires Valid(Snap()) && Low(Snap(), v) && On(Snap(), f, v) && pos[f].level == l >= 2
      modifies this
      ensures Stepped(old(Snap()), Snap(), f, v, user, r)
    {
      ghost var m := Snap();
      Step(m, f, v);
      LowRoot(m, v);
      GrewRefl(m, v, 1);
      var index := Index(v, l);
      var entry := tables[f][index];
      if entry.Pte? {
        if user && !entry.flags.user {
          assert !UserLink(m, f, index);
          if !Empty(tables, entry.frame) { return None; }
          var e := entry.(flags := entry.flags.(user := true));
          FlagWrite(m, f, index, e);
          tables := tables[f := tables[f][index := e]];
          GrewFlag(m, f, index);
          AllUserFlag(m, f, index);
        }
        return Some(entry.frame);
      }
      if pool == {} { return None; }
      var next :| next in pool;
      var e := Pte(next, Flags(true, user, false, false, false, false, false));
      LinkKeeps(m, Link(m, f, index, e), f, index, e);
      pool := pool - {next};
      tables := tables[next := Zeros()][f := tables[f][index := e]];
      pos := pos[next := Child(pos[f], index)];
      ChildOnPath(m.pos[f], index, v);
      GrewLink(m, Link(m, f, index, e), f, index, e, v);
      AllUserLink(m, f, index, e);
      return Some(next);
    }

    /** `walk_page_table` with allocation. */
    method Walk(f: nat, l: nat, v: nat, user: bool) returns (r: Option<nat>)
      requires Valid(Snap()) && Low(Snap(), v) && On(Snap(), f, v) && pos[f].level == l
      modifies this
      ensures Walked(old(Snap()), Snap(), f, v, user, r)
      decreases l
    {
      ghost var m := Snap();
      if l == 1 {
        GrewRefl(m, v, 1);
        return Some(f);
      }
      var next := WalkStep(f, l, v, user);
      if next == None {
        WalkStuck(m, Snap(), f, v, user);
        return None;
      }
      ghost var n := Snap();
      r := Walk(next.value, l - 1, v, user);
      WalkUp(m, n, Snap(), f, v, user, next, r);
    }

    /** `reclaim_ancestors`: gives back the empty tables on the path of `v` below table `f`. */
    method Reclaim(f: nat, l: nat, v: nat)
      requires Valid(Snap()) && Low(Snap(), v) && On(Snap(), f, v) && pos[f].level == l
      modifies this
      ensures Reclaimed(old(Snap()), Snap(), f, v)
      decreases l
    {
      ghost var m := Snap();
      if l < 2 {
        ShrunkRefl(m);
        return;
      }
      var index := Index(v, l);
      var entry := tables[f][index];
      if entry.Zero? {
        ReclaimedNone(m, f, v);
        return;
      }
      Step(m, f, v);
      var child := entry.frame;
      Reclaim(child, l - 1, v);
      ghost var n := Snap();
      ReclaimedChild(m, n, f, v);
      if !Empty(tables, child) { return; }
      ReclaimedUnlink(m, n, f, v);
      tables := tables[f := tables[f][index := Zero]] - {child};
      pos := pos - {child};
      pool := pool + {child};
    }

    /** `reclaim_range`: afterwards only tables of `spare` may be empty. */
    method ReclaimRange(v: nat, pages: nat, ghost spare: set<nat>)
      requires Valid(Snap()) && LowRange(Snap(), v, pages)
      requires EmptyOnlyOn(Snap(), v, pages, spare)
      modifies this
      ensures Shrunk(old(Snap()), Snap())
      ensures forall h: nat :: h in tables && h != root && Empty(tables, h) ==> h in spare
    {
      ghost var m := Snap();
      ShrunkRefl(m);
      for i := 0 to pages
        invariant Shrunk(m, Snap())
        invariant EmptyOnlyOn(Snap(), v + i, pages - i, spare)
      {
        ghost var n := Snap();
        PreMono(v + i, v + pages - 1, levels - 1);
        LowRoot(n, v + i);
        Reclaim(root, levels, v + i);
        ShrunkTrans(m, n, Snap());
        EmptyStep(n, Snap(), v + i, pages - i, spare);
      }
    }

    /** First pass of `vmm_map_in`, one page: its tables exist and it is not mapped yet. */
    method PreparePage(ghost m: Mem, v: nat, i: nat, user: bool) returns (ok: bool)
      requires Grew(m, Snap(), v, i) && Prepared(m, Snap(), v, i, user) && Low(m, v + i)
      modifies this
      ensures Grew(m, Snap(), v, i + 1)
      ensures ok ==> Prepared(m, Snap(), v, i + 1, user)
      ensures !ok ==> Blocked(m, Snap(), v, i, user)
    {
      ghost var n := Snap();
      LowRoot(n, v + i);
      var table := Walk(root, levels, v + i, user);
      PreparedNext(m, n, Snap(), v, i, user, table);
      if table == None { return false; }
      return tables[table.value][Index(v + i, 1)].Zero?;
    }

    /** Second pass of `vmm_map_in`, one page: the walk finds its tables and the leaf is written. */
    method FillPage(ghost m: Mem, v: nat, i: nat, ghost pages: nat, p: nat, flags: Flags)
      requires Filled(m, Snap(), v, i, pages, p, flags) && i < pages && LowRange(m, v, pages)
      modifies this
      ensures Filled(m, Snap(), v, i + 1, pages, p, flags)
    {
      ghost var n := Snap();
      PreMono(v + i, v + pages - 1, levels - 1);
      LowRoot(n, v + i);
      var table := Walk(root, levels, v + i, flags.user);
      var e := Pte(p + i, flags);
      tables := tables[table.value := tables[table.value][Index(v + i, 1) := e]];
      FilledWrite(m, n, v, i, pages, p, flags, table.value);
    }

    /** A failed `vmm_map_in` reclaims what it grew. */
    method GiveUp(ghost m: Mem, v: nat, k: nat, ghost user: bool)
      requires Grew(m, Snap(), v, k) && LowRange(m, v, k) && (AllUser(m) && user ==> AllUser(Snap())) && (AllOpen(m) ==> AllOpen(Snap()))
      modifies this
      ensures MapUndone(m, Snap()) && (AllUser(m) && user ==> AllUser(Snap())) && (AllOpen(m) ==> AllOpen(Snap()))
    {
      ghost var n := Snap();
      EmptyGrew(m, n, v, k, EmptyTables(m));
      ReclaimRange(v, k, EmptyTables(m));
      Undone(m, n, Snap(), v, k, EmptyTables(m));
      AllUserShrunk(n, Snap());
    }

    /** One page of the first pass, giving up if it cannot be mapped. */
    method TryPage(ghost m: Mem, v: nat, i: nat, ghost pages: nat, user: bool) returns (ok: bool)
      requires Grew(m, Snap(), v, i) && Prepared(m, Snap(), v, i, user) && Low(m, v + i) && i < pages
      modifies this
      ensures ok ==> Grew(m, Snap(), v, i + 1) && Prepared(m, Snap(), v, i + 1, user)
      ensures !ok ==> MapUndone(m, Snap()) && (AllUser(m) && user ==> AllUser(Snap())) && (AllOpen(m) ==> AllOpen(Snap())) && Stuck(m, v, pages, user)
    {
      ok := PreparePage(m, v, i, user);
      if !ok {
        StuckAt(m, Snap(), v, pages, i, user);
        GiveUp(m, v, i + 1, user);
      }
    }

    /** First pass of `vmm_map_in`. */
    method Prepare(ghost m: Mem, v: nat, pages: nat, user: bool) returns (ok: bool)
      requires Valid(m) && m == Snap() && LowRange(m, v, pages)
      modifies this
      ensures ok ==> Grew(m, Snap(), v, pages) && Prepared(m, Snap(), v, pages, user)
      ensures !ok ==> MapUndone(m, Snap()) && (AllUser(m) && user ==> AllUser(Snap())) && (AllOpen(m) ==> AllOpen(Snap())) && Stuck(m, v, pages, user)
    {
      PreparedNone(m, v, user);
      for i := 0 to pages
        invariant Grew(m, Snap(), v, i) && Prepared(m, Snap(), v, i, user)
      {
        LowAt(m, v, pages, i);
        var ready := TryPage(m, v, i, pages, user);
        if !ready { return false; }
      }
      return true;
    }

    /** Second pass of `vmm_map_in`. */
    method FillAll(ghost m: Mem, v: nat, pages: nat, p: nat, flags: Flags)
      requires Grew(m, Snap(), v, pages) && Prepared(m, Snap(), v, pages, flags.user) && LowRange(m, v, pages)
      modifies this
      ensures Filled(m, Snap(), v, pages, pages, p, flags)
    {
      FilledNone(m, Snap(), v, pages, p, flags);
      for i := 0 to pages
        invariant Filled(m, Snap(), v, i, pages, p, flags)
      {
        FillPage(m, v, i, pages, p, flags);
      }
    }

    /** `vmm_map_in`. All pages of the range are mapped, or the flat map is what it was. */
    method MapIn(vaddr: nat, paddr: nat, pages: nat, flags: Flags) returns (ok: bool)
      requires Valid(Snap()) && LowRange(Snap(), vaddr / PAGE_SIZE, pages)
      modifies this
      ensures ok ==> MapDone(old(Snap()), Snap(), vaddr / PAGE_SIZE, pages, paddr / PAGE_SIZE, flags)
      ensures !ok ==> MapUndone(old(Snap()), Snap())
      ensures pages == 0 || vaddr % PAGE_SIZE != 0 || paddr % PAGE_SIZE != 0 ==> !ok
      ensures Mappable(old(Snap()), vaddr, paddr, pages, flags) ==> ok
      ensures AllUser(old(Snap())) && flags.user ==> AllUser(Snap())
      ensures AllOpen(old(Snap())) ==> AllOpen(Snap())
    {
      ghost var m := Snap();
      if pages == 0 || vaddr % PAGE_SIZE != 0 || paddr % PAGE_SIZE != 0 {
        Untouched(m);
        return false;
      }
      var v, p := vaddr / PAGE_SIZE, paddr / PAGE_SIZE;
      var ready := Prepare(m, v, pages, flags.user);
      if !ready {
        NotMappable(m, vaddr, paddr, pages, flags);
        return false;
      }
      FillAll(m, v, pages, p, flags);
      return true;
    }

    /** First pass of `vmm_unmap_in`: are all pages mapped? */
    method AllMapped(v: nat, pages: nat) returns (ok: bool)
      requires Valid(Snap()) && LowRange(Snap(), v, pages)
      ensures ok <==> forall w: nat :: v <= w < v + pages ==> Query(Snap(), w).Pte?
    {
      for i := 0 to pages
        invariant forall w: nat :: v <= w < v + i ==> Query(Snap(), w).Pte?
      {
        PreMono(v + i, v + pages - 1, levels - 1);
        LowRoot(Snap(), v + i);
        WalkToLeaf(Snap(), root, v + i);
        var table := WalkTo(tables, root, levels, v + i);
        if table == None || tables[table.value][Index(v + i, 1)].Zero? {
          assert Query(Snap(), v + i).Zero?;
          return false;
        }
      }
      return true;
    }

    /** Second pass of `vmm_unmap_in`: the leaf entries are cleared. */
    method ClearAll(v: nat, pages: nat)
      requires Valid(Snap()) && LowRange(Snap(), v, pages)
      requires forall w: nat :: v <= w < v + pages ==> Query(Snap(), w).Pte?
      modifies this
      ensures Cleared(old(Snap()), Snap(), v, pages)
    {
      ghost var m := Snap();
      for i := 0 to pages
        invariant Cleared(m, Snap(), v, i)
      {
        ghost var n := Snap();
        PreMono(v + i, v + pages - 1, levels - 1);
        LowRoot(n, v + i);
        WalkToLeaf(n, root, v + i);
        var table := WalkTo(tables, root, levels, v + i);
        assert Query(m, v + i).Pte? && Query(n, v + i).Pte?;
        ClearedStep(m, n, v, i, table.value);
        tables := tables[table.value := tables[table.value][Index(v + i, 1) := Zero]];
      }
    }

    /** `vmm_unmap_in`: unmaps the whole range and gives back the tables it empties, or does nothing. */
    method UnmapIn(vaddr: nat, pages: nat) returns (ok: bool)
      requires Valid(Snap()) && LowRange(Snap(), vaddr / PAGE_SIZE, pages)
      modifies this
      ensures ok <==> pages > 0 && vaddr % PAGE_SIZE == 0
                      && forall w: nat :: vaddr / PAGE_SIZE <= w < vaddr / PAGE_SIZE + pages ==> Query(old(Snap()), w).Pte?
      ensures ok ==> UnmapDone(old(Snap()), Snap(), vaddr / PAGE_SIZE, pages)
      ensures !ok ==> Snap() == old(Snap())
    {
      ghost var m := Snap();
      if pages == 0 || vaddr % PAGE_SIZE != 0 { return false; }
      var v := vaddr / PAGE_SIZE;
      ok := AllMapped(v, pages);
      if !ok { return; }
      ClearAll(v, pages);
      ghost var n := Snap();
      EmptyCleared(m, n, v, pages);
      ReclaimRange(v, pages, EmptyTables(m));
      ClearedShrunk(m, n, Snap(), v, pages);
    }
  }

  /** `vmm_create_address_space`: fails exactly when there is no frame for the root table. */
  method CreateAddressSpace(levels: nat, kernel: seq<Pte>, pool: set<nat>) returns (s: AddressSpace?)
    requires levels >= 2 && |kernel| == ENTRIES
    ensures s == null <==> pool == {}
    ensures s != null ==> fresh(s) && s.root in pool && s.pool == pool - {s.root} && s.levels == levels
    ensures s != null ==> Valid(s.Snap()) && NoEmpty(s.Snap()) && AllUser(s.Snap()) && AllOpen(s.Snap()) && s.tables.Keys == {s.root}
    ensures s != null ==> forall i: nat :: i < ENTRIES ==> s.tables[s.root][i] == if i < ENTRIES / 2 then Zero else kernel[i]
    ensures s != null ==> forall v: nat :: Low(s.Snap(), v) ==> Query(s.Snap(), v).Zero?
  {
    if pool == {} { return null; }
    var root :| root in pool;
    s := new AddressSpace(root, levels, kernel, pool - {root});
  }
}
