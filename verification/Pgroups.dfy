/** Process groups: member lists threaded through the task table. */
module Pgroups {
  import opened Counting

  /** The part of a task that concerns its group. A link is the index of the next member plus one, 0 at the end. */
  datatype Task = Task(alive: bool, pgid: nat, sid: nat, idx: int, next: nat, pending: set<nat>)

  const PGROUP_NONE: int := -1

  datatype Group = Group(used: bool, pgid: nat, sid: nat, count: nat, head: nat)

  function Link(l: seq<nat>, k: nat): nat {
    if k < |l| then l[k] + 1 else 0
  }

  /** From `head` the links run through exactly the tasks of `l`, in order. */
  predicate Linked(tasks: seq<Task>, head: nat, l: seq<nat>) {
    head == Link(l, 0) && forall k: nat :: k < |l| ==> LinkAt(tasks, l, k)
  }

  predicate LinkAt(tasks: seq<Task>, l: seq<nat>, k: nat)
    requires k < |l|
  {
    l[k] < |tasks| && tasks[l[k]].next == Link(l, k + 1)
  }

  /** Group `g` and its members agree about each other. */
  predicate GroupOk(tasks: seq<Task>, x: Group, g: nat, l: seq<nat>) {
    && (x.used <==> l != []) && Distinct(l)
    && (x.used ==> x.pgid != 0 && x.count == |l| && Linked(tasks, x.head, l)) && (!x.used ==> x.count == x.head == 0)
    && forall k: nat :: k < |l| ==> l[k] < |tasks| && MemberOf(tasks[l[k]], x, g)
  }

  predicate MemberOf(t: Task, x: Group, g: nat) {
    t.idx == g && t.pgid == x.pgid && t.sid == x.sid
  }

  /** The task is in a group exactly when it is alive and has a group id. */
  predicate TaskOk(tasks: seq<Task>, lists: seq<seq<nat>>, t: nat)
    requires t < |tasks|
  {
    && (tasks[t].idx != PGROUP_NONE <==> tasks[t].alive && tasks[t].pgid != 0)
    && (tasks[t].idx != PGROUP_NONE ==> 0 <= tasks[t].idx < |lists| && t in lists[tasks[t].idx])
  }

  predicate SameId(x: Group, y: Group) {
    x.used && y.used && x.pgid == y.pgid && x.sid == y.sid
  }

  ghost predicate GroupsOk(tasks: seq<Task>, groups: seq<Group>, lists: seq<seq<nat>>) {
    && |groups| == |lists| == |tasks|
    && (forall g: nat :: g < |groups| ==> GroupOk(tasks, groups[g], g, lists[g]))
    && (forall g: nat, h: nat :: g < |groups| && h < |groups| && SameId(groups[g], groups[h]) ==> g == h)
  }

  ghost predicate Inv(tasks: seq<Task>, groups: seq<Group>, lists: seq<seq<nat>>) {
    && GroupsOk(tasks, groups, lists)
    && forall t: nat :: t < |tasks| ==> TaskOk(tasks, lists, t)
  }

  /** A list without its member number `k`. */
  function Cut(l: seq<nat>, k: nat): (r: seq<nat>)
    requires k < |l|
    ensures |r| == |l| - 1 && forall i: nat :: i < |r| ==> r[i] == l[if i < k then i else i + 1]
  {
    l[..k] + l[k + 1..]
  }

  lemma CutMembers(l: seq<nat>, k: nat)
    requires k < |l| && Distinct(l)
    ensures Distinct(Cut(l, k)) && forall x: nat :: x in Cut(l, k) <==> x in l && x != l[k]
  {
    assert l == l[..k] + [l[k]] + l[k + 1..];
  }

  /** What unlinking does to the links: the one before the task skips it. */
  ghost predicate Skips(tasks: seq<Task>, head: nat, tasks': seq<Task>, head': nat, l: seq<nat>, k: nat)
    requires k < |l|
  {
    && |tasks'| == |tasks| && l[k] < |tasks|
    && (k == 0 ==> head' == tasks[l[k]].next && tasks' == tasks)
    && (k > 0 ==> head' == head && l[k - 1] < |tasks| && tasks' == tasks[l[k - 1] := tasks[l[k - 1]].(next := tasks[l[k]].next)])
  }

  lemma SkipLinks(tasks: seq<Task>, head: nat, tasks': seq<Task>, head': nat, l: seq<nat>, k: nat)
    requires k < |l| && Distinct(l) && Linked(tasks, head, l) && Skips(tasks, head, tasks', head', l, k)
    ensures Linked(tasks', head', Cut(l, k))
  {
    var r := Cut(l, k);
    assert LinkAt(tasks, l, k) && (k > 0 ==> LinkAt(tasks, l, 0));
    forall i: nat | i < |r| ensures LinkAt(tasks', r, i) {
      var j := if i < k then i else i + 1;
      assert r[i] == l[j] && LinkAt(tasks, l, j);
      assert k > 0 && j != k - 1 ==> l[j] != l[k - 1];
    }
  }

  /** A list is untouched by changes to tasks outside it. */
  lemma LinksKept(tasks: seq<Task>, tasks': seq<Task>, head: nat, l: seq<nat>)
    requires Linked(tasks, head, l) && |tasks'| == |tasks|
    requires forall k: nat :: k < |l| && l[k] < |tasks| ==> tasks'[l[k]].next == tasks[l[k]].next
    ensures Linked(tasks', head, l)
  {
    forall k: nat | k < |l| ensures LinkAt(tasks', l, k) { assert LinkAt(tasks, l, k); }
  }

  /** If every slot were used, there would be more groups than other tasks to be their heads. */
  lemma SpareGroup(tasks: seq<Task>, groups: seq<Group>, lists: seq<seq<nat>>, t: nat)
    requires GroupsOk(tasks, groups, lists) && t < |tasks| && forall g: nat :: g < |groups| ==> t !in lists[g]
    ensures exists g: nat :: g < |groups| && !groups[g].used
  {
    if forall g: nat :: g < |groups| ==> groups[g].used {
      forall g: nat | g < |groups| ensures lists[g] != [] { assert GroupOk(tasks, groups[g], g, lists[g]); }
      var heads := seq(|groups|, g requires 0 <= g < |groups| => lists[g][0]);
      forall g: nat | g < |groups| ensures heads[g] in UpTo(|tasks|) - {t} && tasks[heads[g]].idx == g {
        assert GroupOk(tasks, groups[g], g, lists[g]);
        assert heads[g] in lists[g];
      }
      Pigeonhole(heads, UpTo(|tasks|) - {t});
    }
  }

  /** Everything is right but for task `t`, which is in no group. */
  ghost predicate Loose(tasks: seq<Task>, groups: seq<Group>, lists: seq<seq<nat>>, t: nat) {
    && GroupsOk(tasks, groups, lists) && t < |tasks| && tasks[t].idx == PGROUP_NONE
    && (forall g: nat :: g < |lists| ==> t !in lists[g])
    && forall x: nat :: x < |tasks| && x != t ==> TaskOk(tasks, lists, x)
  }

  /** Only links and group indices differ. */
  ghost predicate SameTasks(tasks: seq<Task>, tasks': seq<Task>) {
    && |tasks'| == |tasks|
    && forall x: nat :: x < |tasks| ==> tasks'[x] == tasks[x].(idx := tasks'[x].idx, next := tasks'[x].next)
  }

  lemma NotListed(tasks: seq<Task>, groups: seq<Group>, lists: seq<seq<nat>>, g: nat, h: nat, x: nat)
    requires GroupsOk(tasks, groups, lists) && g < |lists| && h < |lists| && g != h && x in lists[g]
    ensures x !in lists[h]
  {
    assert GroupOk(tasks, groups[g], g, lists[g]) && GroupOk(tasks, groups[h], h, lists[h]);
  }

  function Dropped(x: Group): Group {
    var n := if x.count > 0 then x.count - 1 else 0;
    if n == 0 then x.(used := false, head := 0, count := 0) else x.(count := n)
  }

  /** A group whose members do not change stays right. */
  lemma GroupKept(tasks: seq<Task>, tasks': seq<Task>, x: Group, g: nat, l: seq<nat>)
    requires GroupOk(tasks, x, g, l) && |tasks'| == |tasks| && forall k: nat :: k < |l| ==> tasks'[l[k]] == tasks[l[k]]
    ensures GroupOk(tasks', x, g, l)
  {
    if x.used { LinksKept(tasks, tasks', x.head, l); }
  }

  /** Taking member number `k` out of group `g`. */
  lemma UnlinkGroup(tasks: seq<Task>, x: Group, g: nat, l: seq<nat>, tasks1: seq<Task>, head1: nat, k: nat, tasks': seq<Task>)
    requires GroupOk(tasks, x, g, l) && k < |l| && Skips(tasks, x.head, tasks1, head1, l, k)
    requires l[k] < |tasks1| && tasks' == tasks1[l[k] := tasks1[l[k]].(idx := PGROUP_NONE, next := 0)]
    ensures GroupOk(tasks', Dropped(x.(head := head1)), g, Cut(l, k))
  {
    CutMembers(l, k);
    SkipLinks(tasks, x.head, tasks1, head1, l, k);
    var r := Cut(l, k);
    forall i: nat | i < |r| ensures r[i] != l[k] && tasks'[r[i]].next == tasks1[r[i]].next && MemberOf(tasks'[r[i]], x, g) {
      assert r[i] in r && MemberOf(tasks[r[i]], x, g);
    }
    LinksKept(tasks1, tasks', head1, r);
  }

  /** Only task `t` and the one before it in the list change, and only `t` changes group. */
  lemma UnlinkTouches(tasks: seq<Task>, head: nat, tasks1: seq<Task>, head1: nat, l: seq<nat>, k: nat, tasks': seq<Task>)
    requires k < |l| && Skips(tasks, head, tasks1, head1, l, k)
    requires tasks' == tasks1[l[k] := tasks1[l[k]].(idx := PGROUP_NONE, next := 0)]
    ensures SameTasks(tasks, tasks')
    ensures forall x: nat :: x < |tasks| && x != l[k] ==> tasks'[x].idx == tasks[x].idx
    ensures forall x: nat :: x < |tasks| && x !in l ==> tasks'[x] == tasks[x]
  {
    assert l[k] in l && (k > 0 ==> l[k - 1] in l);
  }

  /** Group `g` without task `t` fits in with the others. */
  lemma RegroupInv(tasks: seq<Task>, groups: seq<Group>, lists: seq<seq<nat>>, t: nat, g: nat, r: seq<nat>, x: Group, tasks': seq<Task>)
    requires Inv(tasks, groups, lists) && g < |lists| && t in lists[g] && t < |tasks|
    requires GroupOk(tasks', x, g, r) && (x.used ==> SameId(x, groups[g])) && forall y: nat :: y in r <==> y in lists[g] && y != t
    requires SameTasks(tasks, tasks') && tasks'[t].idx == PGROUP_NONE
    requires forall y: nat :: y < |tasks| && y != t ==> tasks'[y].idx == tasks[y].idx
    requires forall y: nat :: y < |tasks| && y !in lists[g] ==> tasks'[y] == tasks[y]
    ensures Loose(tasks', groups[g := x], lists[g := r], t)
  {
    var groups', lists' := groups[g := x], lists[g := r];
    forall h: nat | h < |lists| && h != g ensures GroupOk(tasks', groups'[h], h, lists'[h]) && t !in lists[h] {
      assert GroupOk(tasks, groups[h], h, lists[h]);
      NotListed(tasks, groups, lists, g, h, t);
      forall i: nat | i < |lists[h]| ensures lists[h][i] !in lists[g] { NotListed(tasks, groups, lists, h, g, lists[h][i]); }
      GroupKept(tasks, tasks', groups[h], h, lists[h]);
    }
    forall y: nat | y < |tasks'| && y != t ensures TaskOk(tasks', lists', y) { assert TaskOk(tasks, lists, y); }
    forall a: nat, b: nat | a < |groups'| && b < |groups'| && SameId(groups'[a], groups'[b]) ensures a == b {
      assert SameId(groups[a], groups[b]);
    }
  }

  lemma UnlinkInv(tasks: seq<Task>, groups: seq<Group>, lists: seq<seq<nat>>, tasks1: seq<Task>, head1: nat, t: nat, g: nat, k: nat, tasks': seq<Task>)
    requires Inv(tasks, groups, lists)
    requires g < |lists| && k < |lists[g]| && lists[g][k] == t && Skips(tasks, groups[g].head, tasks1, head1, lists[g], k)
    requires t < |tasks1| && tasks' == tasks1[t := tasks1[t].(idx := PGROUP_NONE, next := 0)]
    ensures Loose(tasks', groups[g := Dropped(groups[g].(head := head1))], lists[g := Cut(lists[g], k)], t)
    ensures SameTasks(tasks, tasks')
  {
    var l := lists[g];
    assert GroupOk(tasks, groups[g], g, l);
    UnlinkGroup(tasks, groups[g], g, l, tasks1, head1, k, tasks');
    UnlinkTouches(tasks, groups[g].head, tasks1, head1, l, k, tasks');
    CutMembers(l, k);
    RegroupInv(tasks, groups, lists, t, g, Cut(l, k), Dropped(groups[g].(head := head1)), tasks');
  }

  lemma UnlinkNone(tasks: seq<Task>, groups: seq<Group>, lists: seq<seq<nat>>, t: nat)
    requires Inv(tasks, groups, lists) && t < |tasks| && tasks[t].idx == PGROUP_NONE
    ensures Loose(tasks[t := tasks[t].(next := 0)], groups, lists, t)
  {
    var tasks' := tasks[t := tasks[t].(next := 0)];
    forall g: nat | g < |lists| ensures GroupOk(tasks', groups[g], g, lists[g]) && t !in lists[g] {
      assert GroupOk(tasks, groups[g], g, lists[g]);
      GroupKept(tasks, tasks', groups[g], g, lists[g]);
    }
    forall x: nat | x < |tasks'| && x != t ensures TaskOk(tasks', lists, x) { assert TaskOk(tasks, lists, x); }
  }

  /** A group as it is before a member joins: used already, or made in a slot that was not. */
  ghost predicate Ready(groups: seq<Group>, g: nat, x: Group) {
    && g < |groups| && x.used && x.pgid != 0
    && (if groups[g].used then x == groups[g] else x.count == 0 && x.head == 0 && !HasId(groups, x))
  }

  ghost predicate HasId(groups: seq<Group>, x: Group) {
    exists h: nat :: h < |groups| && SameId(groups[h], x)
  }

  /** Putting task `t` at the head of group `g`. */
  lemma JoinInv(tasks: seq<Task>, groups: seq<Group>, lists: seq<seq<nat>>, t: nat, g: nat, x: Group, task: Task)
    requires Loose(tasks, groups, lists, t) && Ready(groups, g, x)
    requires task.idx == g && task.next == x.head && task.pgid == x.pgid && task.sid == x.sid && task.alive
    ensures Inv(tasks[t := task], groups[g := x.(head := t + 1, count := x.count + 1)], lists[g := [t] + lists[g]])
  {
    var l := lists[g];
    var tasks', groups', lists' := tasks[t := task], groups[g := x.(head := t + 1, count := x.count + 1)], lists[g := [t] + l];
    assert GroupOk(tasks, groups[g], g, l);
    var r := [t] + l;
    forall k: nat | k < |r| ensures LinkAt(tasks', r, k) && MemberOf(tasks'[r[k]], x, g) {
      assert k > 0 ==> r[k] == l[k - 1] && l[k - 1] in l && LinkAt(tasks, l, k - 1);
    }
    forall h: nat | h < |lists| && h != g ensures GroupOk(tasks', groups'[h], h, lists'[h]) {
      assert GroupOk(tasks, groups[h], h, lists[h]);
      forall i: nat | i < |lists[h]| ensures lists[h][i] != t { assert lists[h][i] in lists[h]; }
      GroupKept(tasks, tasks', groups[h], h, lists[h]);
    }
    forall y: nat | y < |tasks'| ensures TaskOk(tasks', lists', y) {
      if y != t { assert TaskOk(tasks, lists, y); } else { assert r[0] == t; }
    }
    forall a: nat, b: nat | a < |groups'| && b < |groups'| && SameId(groups'[a], groups'[b]) ensures a == b {
      assert (a != g && b != g) || groups[g].used ==> SameId(groups[a], groups[b]);
      assert !groups[g].used && a == g && b != g ==> SameId(groups[b], x);
      assert !groups[g].used && b == g && a != g ==> SameId(groups[a], x);
    }
  }

  /** A task that is in no group and needs none. */
  lemma LooseAlone(tasks: seq<Task>, groups: seq<Group>, lists: seq<seq<nat>>, t: nat, task: Task)
    requires Loose(tasks, groups, lists, t) && task.idx == PGROUP_NONE && (task.alive ==> task.pgid == 0)
    ensures Inv(tasks[t := task], groups, lists)
  {
    var tasks' := tasks[t := task];
    forall g: nat | g < |lists| ensures GroupOk(tasks', groups[g], g, lists[g]) {
      assert GroupOk(tasks, groups[g], g, lists[g]);
      forall i: nat | i < |lists[g]| ensures lists[g][i] != t { assert lists[g][i] in lists[g]; }
      GroupKept(tasks, tasks', groups[g], g, lists[g]);
    }
    forall x: nat | x < |tasks'| ensures TaskOk(tasks', lists, x) { assert x != t ==> TaskOk(tasks, lists, x); }
  }

  /** Signal `sig` made pending for the tasks in `hit`. */
  ghost predicate Signalled(tasks: seq<Task>, tasks': seq<Task>, hit: set<nat>, sig: nat) {
    |tasks'| == |tasks| && forall t: nat :: t < |tasks| ==> SignalledAt(tasks[t], tasks'[t], t in hit, sig)
  }

  predicate SignalledAt(t: Task, t': Task, hit: bool, sig: nat) {
    t' == if hit then t.(pending := t.pending + {sig}) else t
  }

  lemma SignalKeeps(tasks: seq<Task>, tasks': seq<Task>, groups: seq<Group>, lists: seq<seq<nat>>, hit: set<nat>, sig: nat)
    requires Inv(tasks, groups, lists) && Signalled(tasks, tasks', hit, sig)
    ensures Inv(tasks', groups, lists)
  {
    forall g: nat | g < |lists| ensures GroupOk(tasks', groups[g], g, lists[g]) {
      assert GroupOk(tasks, groups[g], g, lists[g]);
      if groups[g].used { LinksKept(tasks, tasks', groups[g].head, lists[g]); }
    }
    forall t: nat | t < |tasks| ensures TaskOk(tasks', lists, t) { assert TaskOk(tasks, lists, t); }
  }

  /** The live tasks with group id `pgid`. */
  function Members(tasks: seq<Task>, pgid: nat): set<nat> {
    set t: nat | t < |tasks| && tasks[t].alive && tasks[t].pgid == pgid
  }

  /** The live tasks with group id `pgid` are the members of the used groups with that id. */
  lemma MembersAreListed(tasks: seq<Task>, groups: seq<Group>, lists: seq<seq<nat>>, pgid: nat, t: nat)
    requires Inv(tasks, groups, lists) && pgid != 0 && t < |tasks|
    ensures t in Members(tasks, pgid) <==> exists g: nat :: g < |groups| && groups[g].used && groups[g].pgid == pgid && t in lists[g]
  {
    assert TaskOk(tasks, lists, t);
    if t in Members(tasks, pgid) {
      var g := tasks[t].idx;
      assert GroupOk(tasks, groups[g], g, lists[g]);
    }
    forall g: nat | g < |groups| && t in lists[g] && groups[g].used ensures tasks[t].idx == g && tasks[t].pgid == groups[g].pgid {
      assert GroupOk(tasks, groups[g], g, lists[g]);
    }
  }

  /** The members in slots 1 to `n - 1`. */
  function Scanned(tasks: seq<Task>, pgid: nat, n: nat): set<nat> {
    set t: nat | t < n && t in Members(tasks, pgid) && t != 0
  }

  lemma ScanStep(tasks: seq<Task>, pgid: nat, i: nat)
    requires 1 <= i < |tasks|
    ensures Scanned(tasks, pgid, i + 1) == Scanned(tasks, pgid, i) + if tasks[i].alive && tasks[i].pgid == pgid then {i} else {}
    ensures i !in Scanned(tasks, pgid, i)
  {
  }

  /** Without slot 0, which is in no group, these are all. */
  lemma ScanEnd(tasks: seq<Task>, pgid: nat)
    requires |tasks| > 0 && tasks[0].pgid != pgid
    ensures Scanned(tasks, pgid, |tasks|) == Members(tasks, pgid)
  {
  }

  /** A group id has a used group exactly when it has a live task. */
  lemma GroupIffMember(tasks: seq<Task>, groups: seq<Group>, lists: seq<seq<nat>>, pgid: nat)
    requires Inv(tasks, groups, lists) && pgid != 0
    ensures (exists g: nat :: g < |groups| && groups[g].used && groups[g].pgid == pgid) <==> Members(tasks, pgid) != {}
  {
    if g: nat :| g < |groups| && groups[g].used && groups[g].pgid == pgid {
      assert GroupOk(tasks, groups[g], g, lists[g]);
      MembersAreListed(tasks, groups, lists, pgid, lists[g][0]);
    }
    if t: nat :| t in Members(tasks, pgid) { MembersAreListed(tasks, groups, lists, pgid, t); }
  }

  /** The tasks of `hit` and the first `i` of a list. */
  ghost function Firsts(hit: set<nat>, l: seq<nat>, i: nat): set<nat>
    requires i <= |l|
  {
    if i == 0 then hit else Firsts(hit, l, i - 1) + {l[i - 1]}
  }

  /** Task number `k` of a list is alive, links to the next, and is new to the walk. */
  ghost predicate Walkable(tasks: seq<Task>, l: seq<nat>, k: nat, hit: set<nat>)
    requires k < |l|
  {
    LinkAt(tasks, l, k) && tasks[l[k]].alive && l[k] !in Firsts(hit, l, k)
  }

  lemma {:induction false} FirstsIff(hit: set<nat>, l: seq<nat>, i: nat, t: nat)
    requires i <= |l|
    ensures t in Firsts(hit, l, i) <==> t in hit || t in l[..i]
  {
    if i > 0 {
      FirstsIff(hit, l, i - 1, t);
      assert l[..i] == l[..i - 1] + [l[i - 1]];
    }
  }

  /** Coming to member number `i` of group `g`: it is alive, not met before, and links to the next. */
  lemma WalkStep(tasks: seq<Task>, groups: seq<Group>, lists: seq<seq<nat>>, g: nat, i: nat, hit: set<nat>)
    requires Inv(tasks, groups, lists) && g < |lists| && groups[g].used && i < |lists[g]| && lists[g][i] !in hit
    ensures Walkable(tasks, lists[g], i, hit)
  {
    var l := lists[g];
    assert GroupOk(tasks, groups[g], g, l) && LinkAt(tasks, l, i) && TaskOk(tasks, lists, l[i]);
    FirstsIff(hit, l, i, l[i]);
  }

  class Table {
    var tasks: seq<Task>
    var groups: seq<Group>
    ghost var lists: seq<seq<nat>>

    /** `task_init`: slot 0 is the kernel's own task, the others are free. */
    constructor (n: nat)
      requires n > 0
      ensures Valid() && |tasks| == n && tasks[0].alive && forall t: nat :: 0 < t < n ==> !tasks[t].alive
    {
      tasks := seq(n, t => Task(t == 0, 0, 0, PGROUP_NONE, 0, {}));
      groups := seq(n, _ => Group(false, 0, 0, 0, 0));
      lists := seq(n, _ => []);
    }

    ghost predicate Valid()
      reads this
    {
      Inv(tasks, groups, lists) && |tasks| > 0 && tasks[0].pgid == 0
    }

    /** Follows the links from `head` to the one that leads to task `t`: the member it is in, -1 for the list head. */
    method FindLink(t: nat, head: nat, ghost l: seq<nat>, ghost k: nat) returns (prev: int)
      requires k < |l| && l[k] == t && Distinct(l) && Linked(tasks, head, l)
      ensures prev == if k == 0 then -1 else l[k - 1]
    {
      var link := head;
      prev := -1;
      ghost var i: nat := 0;
      while link != 0
        invariant i <= k && link == Link(l, i) && prev == if i == 0 then -1 else l[i - 1]
        decreases k - i
      {
        assert LinkAt(tasks, l, i);
        if link == t + 1 { return; }
        prev := link - 1;
        link := tasks[prev].next;
        i := i + 1;
      }
    }

    /** Takes task `t` off the list of group `g`. */
    method CutLink(t: nat, g: nat, ghost l: seq<nat>, ghost k: nat)
      requires g < |groups| && k < |l| && l[k] == t && Distinct(l) && Linked(tasks, groups[g].head, l)
      modifies this`tasks, this`groups
      ensures |groups| == old(|groups|) && groups == old(groups)[g := old(groups)[g].(head := groups[g].head)]
      ensures Skips(old(tasks), old(groups)[g].head, tasks, groups[g].head, l, k)
    {
      var prev := FindLink(t, groups[g].head, l, k);
      assert LinkAt(tasks, l, k) && (k > 0 ==> LinkAt(tasks, l, k - 1));
      if prev == -1 {
        groups := groups[g := groups[g].(head := tasks[t].next)];
      } else {
        tasks := tasks[prev := tasks[prev].(next := tasks[t].next)];
      }
    }

    /** `pgroup_unlink`. */
    method Unlink(t: nat)
      requires Valid() && t < |tasks|
      modifies this`tasks, this`groups, this`lists
      ensures Loose(tasks, groups, lists, t) && SameTasks(old(tasks), tasks) && tasks[t].next == 0
    {
      assert TaskOk(tasks, lists, t);
      if tasks[t].idx == PGROUP_NONE {
        UnlinkNone(tasks, groups, lists, t);
        tasks := tasks[t := tasks[t].(next := 0)];
        return;
      }
      var g := tasks[t].idx;
      ghost var k: nat :| k < |lists[g]| && lists[g][k] == t;
      ghost var tasks0, groups0 := tasks, groups;
      assert GroupOk(tasks, groups[g], g, lists[g]);
      CutLink(t, g, lists[g], k);
      UnlinkInv(tasks0, groups0, lists, tasks, groups[g].head, t, g, k, tasks[t := tasks[t].(idx := PGROUP_NONE, next := 0)]);
      groups := groups[g := Dropped(groups[g])];
      tasks := tasks[t := tasks[t].(idx := PGROUP_NONE, next := 0)];
      lists := lists[g := Cut(lists[g], k)];
    }

    /** `pgroup_find_or_create` for a task that is in no group: there is always a slot. */
    method FindOrCreate(pgid: nat, sid: nat, ghost t: nat) returns (g: nat)
      requires Loose(tasks, groups, lists, t) && pgid != 0
      modifies this`groups
      ensures g < |groups| && Ready(old(groups), g, groups[g]) && groups == old(groups)[g := groups[g]]
      ensures groups[g].pgid == pgid && groups[g].sid == sid
    {
      for i := 0 to |groups|
        invariant forall h: nat :: h < i ==> !(groups[h].used && groups[h].pgid == pgid && groups[h].sid == sid)
      {
        if groups[i].used && groups[i].pgid == pgid && groups[i].sid == sid {
          assert GroupOk(tasks, groups[i], i, lists[i]);
          return i;
        }
      }
      SpareGroup(tasks, groups, lists, t);
      for j := 0 to |groups|
        invariant groups == old(groups) && forall h: nat :: h < j ==> groups[h].used
      {
        if !groups[j].used {
          groups := groups[j := Group(true, pgid, sid, 0, 0)];
          return j;
        }
      }
    }

    /** `task_pgrp_join` of a task that is alive, or comes alive with it; the kernel's own task never joins a group. */
    method Join(t: nat, pgid: nat, sid: nat)
      requires Valid() && 0 < t < |tasks|
      modifies this`tasks, this`groups, this`lists
      ensures Valid() && |tasks| == old(|tasks|)
      ensures tasks[t].alive && tasks[t].pgid == pgid && tasks[t].sid == sid && tasks[t].pending == old(tasks)[t].pending
      ensures forall x: nat :: x < |tasks| && x != t ==>
        tasks[x] == old(tasks)[x].(idx := tasks[x].idx, next := tasks[x].next)
    {
      Unlink(t);
      if pgid == 0 {
        LooseAlone(tasks, groups, lists, t, tasks[t].(pgid := 0, sid := sid, alive := true));
        tasks := tasks[t := tasks[t].(pgid := 0, sid := sid, alive := true)];
        return;
      }
      ghost var groups1 := groups;
      var g := FindOrCreate(pgid, sid, t);
      var task := tasks[t].(pgid := pgid, sid := sid, alive := true, idx := g, next := groups[g].head);
      JoinInv(tasks, groups1, lists, t, g, groups[g], task);
      tasks := tasks[t := task];
      groups := groups[g := groups[g].(head := t + 1, count := groups[g].count + 1)];
      lists := lists[g := [t] + lists[g]];
    }

    /** A task's exit: it leaves its group and is no longer alive. */
    method Exit(t: nat)
      requires Valid() && t < |tasks|
      modifies this`tasks, this`groups, this`lists
      ensures Valid() && |tasks| == old(|tasks|) && !tasks[t].alive
      ensures forall x: nat :: x < |tasks| && x != t ==>
        tasks[x] == old(tasks)[x].(idx := tasks[x].idx, next := tasks[x].next)
    {
      Unlink(t);
      LooseAlone(tasks, groups, lists, t, tasks[t].(alive := false));
      tasks := tasks[t := tasks[t].(alive := false)];
    }

    /** Makes `sig` pending for one more task, if it is alive. */
    method Signal(t: nat, sig: nat, ghost tasks0: seq<Task>, ghost hit: set<nat>)
      requires Signalled(tasks0, tasks, hit, sig) && t < |tasks| && t !in hit
      modifies this`tasks
      ensures Signalled(tasks0, tasks, if tasks0[t].alive then hit + {t} else hit, sig)
    {
      if tasks[t].alive { tasks := tasks[t := tasks[t].(pending := tasks[t].pending + {sig})]; }
    }

    /** One group's part of `task_kill_pgrp`: the walk along its list. */
    method SignalGroup(g: nat, sig: nat, ghost tasks0: seq<Task>, ghost hit0: set<nat>) returns (ghost hit: set<nat>)
      requires Inv(tasks0, groups, lists) && Signalled(tasks0, tasks, hit0, sig) && g < |groups| && groups[g].used
      requires forall t: nat :: t in lists[g] ==> t !in hit0
      modifies this`tasks
      ensures Signalled(tasks0, tasks, hit, sig) && forall t: nat :: t in hit <==> t in hit0 || t in lists[g]
    {
      ghost var l := lists[g];
      forall k: nat | k < |l| ensures Walkable(tasks0, l, k, hit0) { WalkStep(tasks0, groups, lists, g, k, hit0); }
      assert GroupOk(tasks0, groups[g], g, l);
      SignalAlong(groups[g].head, sig, tasks0, hit0, l);
      hit := Firsts(hit0, l, |l|);
      assert l[..|l|] == l;
      forall t: nat ensures t in hit <==> t in hit0 || t in l { FirstsIff(hit0, l, |l|, t); }
    }

    method SignalAlong(head: nat, sig: nat, ghost tasks0: seq<Task>, ghost hit0: set<nat>, ghost l: seq<nat>)
      requires Signalled(tasks0, tasks, hit0, sig) && head == Link(l, 0)
      requires forall k: nat :: k < |l| ==> Walkable(tasks0, l, k, hit0)
      modifies this`tasks
      ensures Signalled(tasks0, tasks, Firsts(hit0, l, |l|), sig)
    {
      var m: nat := head;
      ghost var i: nat := 0;
      while m != 0
        invariant i <= |l| && m == Link(l, i) && Signalled(tasks0, tasks, Firsts(hit0, l, i), sig)
        decreases |l| - i
      {
        var t: nat := m - 1;
        ghost var hit := Firsts(hit0, l, i);
        assert Walkable(tasks0, l, i, hit0) && t == l[i] && Firsts(hit0, l, i + 1) == hit + {t};
        m := tasks[t].next;
        Signal(t, sig, tasks0, hit);
        i := i + 1;
      }
    }

    /** `task_kill_pgrp` for a group id that is not 0: the walk over the groups' lists. */
    method KillPgrp(pgid: nat, sig: nat)
      requires Valid() && pgid != 0
      modifies this`tasks
      ensures Valid() && Signalled(old(tasks), tasks, Members(old(tasks), pgid), sig)
    {
      ghost var hit: set<nat> := {};
      for g := 0 to |groups|
        invariant Signalled(old(tasks), tasks, hit, sig)
        invariant forall t: nat :: t in hit <==> t < |tasks| && 0 <= old(tasks)[t].idx < g && old(tasks)[t].pgid == pgid
      {
        assert GroupOk(old(tasks), groups[g], g, lists[g]);
        forall t: nat | t < |tasks| ensures t in lists[g] <==> old(tasks)[t].idx == g { assert TaskOk(old(tasks), lists, t); }
        if groups[g].used && groups[g].pgid == pgid {
          hit := SignalGroup(g, sig, old(tasks), hit);
        }
      }
      assert hit == Members(old(tasks), pgid) by {
        forall t: nat | t < |tasks| ensures t in hit <==> t in Members(old(tasks), pgid) { assert TaskOk(old(tasks), lists, t); }
      }
      SignalKeeps(old(tasks), tasks, groups, lists, hit, sig);
    }

    /** The scan of the task table that `sys_kill` does instead, from slot 1 on: it reaches the same tasks. */
    method ScanKill(pgid: nat, sig: nat)
      requires Valid() && pgid != 0
      modifies this`tasks
      ensures Valid() && Signalled(old(tasks), tasks, Members(old(tasks), pgid), sig)
    {
      for i := 1 to |tasks|
        invariant Signalled(old(tasks), tasks, Scanned(old(tasks), pgid, i), sig)
      {
        ScanStep(old(tasks), pgid, i);
        if tasks[i].pgid == pgid { Signal(i, sig, old(tasks), Scanned(old(tasks), pgid, i)); }
      }
      ScanEnd(old(tasks), pgid);
      SignalKeeps(old(tasks), tasks, groups, lists, Members(old(tasks), pgid), sig);
    }

    /** `task_pgrp_exists` */
    method Exists(pgid: nat) returns (found: bool)
      requires Valid() && pgid != 0
      ensures found <==> Members(tasks, pgid) != {}
    {
      GroupIffMember(tasks, groups, lists, pgid);
      for g := 0 to |groups|
        invariant forall h: nat :: h < g ==> !(groups[h].used && groups[h].pgid == pgid)
      {
        if groups[g].used && groups[g].pgid == pgid { return true; }
      }
      return false;
    }

    /** `sys_kill` of a negative process id. */
    method SysKillGroup(pgid: nat, sig: nat) returns (found: bool)
      requires Valid() && pgid != 0
      modifies this`tasks
      ensures Valid() && (found <==> Members(old(tasks), pgid) != {})
      ensures Signalled(old(tasks), tasks, if sig == 0 then {} else Members(old(tasks), pgid), sig)
    {
      found := Exists(pgid);
      if found && sig != 0 { ScanKill(pgid, sig); }
    }
  }
}
