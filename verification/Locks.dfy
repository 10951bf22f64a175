/** The ordered spinlocks, used by any number of CPUs, one shared access at a time. */
module Locks {

  const LOCK_COUNT: nat := 10
  const LOCK_MAX_DEPTH: nat := 8

  /** Outside the lock code, spinning for a lock, between taking its flag and noting that, and between unnoting and clearing it. */
  datatype Pc = Running | Spinning(id: nat) | Taken(id: nat) | Dropping(id: nat)

  /** `held` is the set of bits in `held_mask`. */
  datatype Cpu = Cpu(pc: Pc, held: set<nat>, depth: nat)

  /** `flag[id]` is the atomic flag of the one spinlock with that id. */
  datatype State = State(cpus: seq<Cpu>, flag: seq<bool>, panicked: bool)

  predicate IsLock(id: nat) {
    0 < id < LOCK_COUNT
  }

  /** The three checks of `lock_acquire`. */
  predicate MayAcquire(x: Cpu, id: nat) {
    && id !in x.held
    && (forall j: nat :: id < j < LOCK_COUNT ==> j !in x.held)
    && x.depth < LOCK_MAX_DEPTH
  }

  datatype Step = Acquire(id: nat) | Test | Note | Release(id: nat) | Clear

  /** CPU `c` takes a step. A failed check stops the machine. */
  ghost predicate Next(s: State, s': State, c: nat, step: Step) {
    && !s.panicked && c < |s.cpus| && |s.flag| == LOCK_COUNT
    && var x := s.cpus[c];
      match step
      case Acquire(id) =>
        && x.pc.Running? && IsLock(id) && s'.flag == s.flag && s'.panicked == !MayAcquire(x, id)
        && s'.cpus == if MayAcquire(x, id) then s.cpus[c := x.(pc := Spinning(id))] else s.cpus
      case Test =>
        && x.pc.Spinning? && IsLock(x.pc.id) && !s'.panicked
        && s'.flag == s.flag[x.pc.id := true]
        && s'.cpus == if s.flag[x.pc.id] then s.cpus else s.cpus[c := x.(pc := Taken(x.pc.id))]
      case Note =>
        && x.pc.Taken? && !s'.panicked && s'.flag == s.flag
        && s'.cpus == s.cpus[c := Cpu(Running, x.held + {x.pc.id}, x.depth + 1)]
      case Release(id) =>
        && x.pc.Running? && IsLock(id) && s'.flag == s.flag && s'.panicked == (id !in x.held)
        && (id in x.held ==> x.depth > 0 && s'.cpus == s.cpus[c := Cpu(Dropping(id), x.held - {id}, x.depth - 1)])
        && (id !in x.held ==> s'.cpus == s.cpus)
      case Clear =>
        && x.pc.Dropping? && IsLock(x.pc.id) && !s'.panicked
        && s'.flag == s.flag[x.pc.id := false] && s'.cpus == s.cpus[c := x.(pc := Running)]
  }

  /** The CPU has the lock's flag. */
  predicate Owns(x: Cpu, id: nat) {
    id in x.held || x.pc == Taken(id) || x.pc == Dropping(id)
  }

  predicate CpuOk(x: Cpu) {
    && |x.held| == x.depth && (forall j: nat :: j in x.held ==> IsLock(j))
    && (!x.pc.Running? ==> IsLock(x.pc.id) && x.pc.id !in x.held && x.depth < LOCK_MAX_DEPTH)
    && (x.pc.Spinning? || x.pc.Taken? ==> forall j: nat :: j in x.held ==> j < x.pc.id)
    && x.depth <= LOCK_MAX_DEPTH
  }

  ghost predicate Inv(s: State) {
    && |s.flag| == LOCK_COUNT
    && (forall c :: 0 <= c < |s.cpus| ==> CpuOk(s.cpus[c]))
    && (forall c, d, id: nat {:trigger Owns(s.cpus[c], id), Owns(s.cpus[d], id)} ::
          0 <= c < |s.cpus| && 0 <= d < |s.cpus| && Owns(s.cpus[c], id) && Owns(s.cpus[d], id) ==> c == d)
    && (forall id: nat :: id < LOCK_COUNT ==> (s.flag[id] <==> Owned(s, id)))
  }

  ghost predicate Owned(s: State, id: nat) {
    exists c :: 0 <= c < |s.cpus| && Owns(s.cpus[c], id)
  }

  ghost predicate Init(s: State) {
    && |s.flag| == LOCK_COUNT && !s.panicked
    && (forall id: nat :: id < LOCK_COUNT ==> !s.flag[id])
    && (forall c :: 0 <= c < |s.cpus| ==> s.cpus[c] == Cpu(Running, {}, 0))
  }

  lemma InitInv(s: State)
    requires Init(s)
    ensures Inv(s)
  {
  }

  /** A CPU's own bookkeeping stays right. */
  lemma CpuKept(s: State, s': State, c: nat, step: Step)
    requires Inv(s) && Next(s, s', c, step)
    ensures CpuOk(s'.cpus[c]) && |s'.cpus| == |s.cpus|
    ensures forall d: nat :: d < |s.cpus| && d != c ==> s'.cpus[d] == s.cpus[d]
  {
    assert CpuOk(s.cpus[c]);
  }

  /** Only a test of a clear flag makes an owner, and only clearing the flag unmakes one. */
  lemma OwnersKept(s: State, s': State, c: nat, step: Step, id: nat)
    requires Inv(s) && Next(s, s', c, step) && id < LOCK_COUNT
    ensures Owns(s'.cpus[c], id) && !Owns(s.cpus[c], id) ==> !s.flag[id] && s'.flag[id]
    ensures Owns(s.cpus[c], id) && !Owns(s'.cpus[c], id) ==> !s'.flag[id]
    ensures Owns(s.cpus[c], id) == Owns(s'.cpus[c], id) ==> s'.flag[id] == s.flag[id]
  {
    assert CpuOk(s.cpus[c]);
  }

  lemma NextInv(s: State, s': State, c: nat, step: Step)
    requires Inv(s) && Next(s, s', c, step)
    ensures Inv(s')
  {
    CpuKept(s, s', c, step);
    forall id: nat | id < LOCK_COUNT ensures s'.flag[id] <==> Owned(s', id) {
      OwnersKept(s, s', c, step, id);
      assert s.flag[id] <==> Owned(s, id);
      if Owned(s, id) {
        var d: nat :| d < |s.cpus| && Owns(s.cpus[d], id);
        assert d != c ==> Owns(s'.cpus[d], id);
      }
    }
    forall d, e, id: nat | 0 <= d < |s'.cpus| && 0 <= e < |s'.cpus| && Owns(s'.cpus[d], id) && Owns(s'.cpus[e], id) ensures d == e {
      assert CpuOk(s'.cpus[d]);
      OwnersKept(s, s', c, step, id);
      assert d != c ==> Owns(s.cpus[d], id);
      assert e != c ==> Owns(s.cpus[e], id);
      assert s.flag[id] <==> Owned(s, id);
    }
  }

  ghost predicate Run(states: seq<State>, cpus: seq<nat>, steps: seq<Step>) {
    && |states| == |steps| + 1 == |cpus| + 1 && Init(states[0])
    && forall n :: 0 <= n < |steps| ==> Next(states[n], states[n + 1], cpus[n], steps[n])
  }

  lemma {:induction false} RunInv(states: seq<State>, cpus: seq<nat>, steps: seq<Step>, n: nat)
    requires Run(states, cpus, steps) && n < |states|
    ensures Inv(states[n])
  {
    if n == 0 {
      InitInv(states[0]);
    } else {
      RunInv(states, cpus, steps, n - 1);
      NextInv(states[n - 1], states[n], cpus[n - 1], steps[n - 1]);
    }
  }

  /** Each lock has at most one holder, its flag tells whether it has one, and the depth counts the bits of the mask. */
  lemma MutualExclusion(states: seq<State>, cpus: seq<nat>, steps: seq<Step>, n: nat, c: nat, d: nat, id: nat)
    requires Run(states, cpus, steps) && n < |states|
    requires var s := states[n]; c < |s.cpus| && d < |s.cpus| && id in s.cpus[c].held
    ensures var s := states[n]; id in s.cpus[d].held ==> c == d
    ensures var s := states[n]; id < |s.flag| && s.flag[id]
    ensures var x := states[n].cpus[c]; |x.held| == x.depth <= LOCK_MAX_DEPTH
  {
    RunInv(states, cpus, steps, n);
    var s := states[n];
    assert CpuOk(s.cpus[c]) && Owns(s.cpus[c], id);
    assert s.flag[id] <==> Owned(s, id);
    assert id in s.cpus[d].held ==> Owns(s.cpus[d], id);
  }

  /** The lock comes after every lock the CPU holds, and fewer than 8 are held. */
  predicate InOrder(x: Cpu, id: nat) {
    (forall j: nat :: j in x.held ==> j < id) && |x.held| < LOCK_MAX_DEPTH
  }

  /**
   When the checks stop the machine: in every reachable state, an acquire is refused exactly if a lock that is held
   comes at or after the one asked for, or 8 are held; a release exactly if the lock is not held. Both can always be tried.
   */
  lemma PanicsExactly(states: seq<State>, cpus: seq<nat>, steps: seq<Step>, n: nat, c: nat, id: nat) returns (acquired: State, released: State)
    requires Run(states, cpus, steps) && n < |states| && !states[n].panicked && c < |states[n].cpus| && 0 < id < 10
    requires states[n].cpus[c].pc.Running?
    ensures Next(states[n], acquired, c, Acquire(id)) && (acquired.panicked <==> !InOrder(states[n].cpus[c], id))
    ensures Next(states[n], released, c, Release(id)) && (released.panicked <==> id !in states[n].cpus[c].held)
    ensures forall t: State :: Next(states[n], t, c, Acquire(id)) ==> t == acquired
    ensures forall t: State :: Next(states[n], t, c, Release(id)) ==> t == released
    ensures !acquired.panicked ==> acquired.cpus[c].pc == Spinning(id)
  {
    RunInv(states, cpus, steps, n);
    var s := states[n];
    var x := s.cpus[c];
    assert CpuOk(x);
    acquired := if MayAcquire(x, id) then After(s, c, x.(pc := Spinning(id)), s.flag) else s.(panicked := true);
    released := if id in x.held then After(s, c, Cpu(Dropping(id), x.held - {id}, x.depth - 1), s.flag) else s.(panicked := true);
  }

  predicate WaitsFor(s: State, c: nat, d: nat) {
    c < |s.cpus| && d < |s.cpus| && s.cpus[c].pc.Spinning? && Owns(s.cpus[d], s.cpus[c].pc.id)
  }

  /** Whoever holds what a CPU waits for waits, if at all, for an inner lock. */
  lemma WaitsInward(s: State, c: nat, d: nat)
    requires Inv(s) && WaitsFor(s, c, d) && s.cpus[d].pc.Spinning?
    ensures s.cpus[c].pc.id < s.cpus[d].pc.id
  {
    assert CpuOk(s.cpus[d]);
  }

  ghost predicate WaitPath(s: State, path: seq<nat>) {
    path != [] && path[0] < |s.cpus| && forall k :: 0 <= k < |path| - 1 ==> WaitsFor(s, path[k], path[k + 1])
  }

  lemma {:induction false} PathInward(s: State, path: seq<nat>)
    requires Inv(s) && WaitPath(s, path) && |path| > 1 && s.cpus[path[0]].pc.Spinning?
    ensures var last := path[|path| - 1];
      last < |s.cpus| && (s.cpus[last].pc.Spinning? ==> s.cpus[path[0]].pc.id < s.cpus[last].pc.id)
  {
    var k := |path| - 2;
    assert WaitsFor(s, path[k], path[k + 1]);
    if s.cpus[path[k + 1]].pc.Spinning? {
      WaitsInward(s, path[k], path[k + 1]);
      if k > 0 { PathInward(s, path[..k + 1]); }
    }
  }

  /** The wait-for relation has no cycle. */
  lemma NoWaitCycle(states: seq<State>, cpus: seq<nat>, steps: seq<Step>, n: nat, path: seq<nat>)
    requires Run(states, cpus, steps) && n < |states| && WaitPath(states[n], path) && |path| > 1
    ensures path[0] != path[|path| - 1]
  {
    RunInv(states, cpus, steps, n);
    assert WaitsFor(states[n], path[0], path[1]);
    PathInward(states[n], path);
  }

  /** The CPU is not spinning on a flag that is set. */
  predicate Able(s: State, c: nat) {
    c < |s.cpus| && (s.cpus[c].pc.Spinning? ==> s.cpus[c].pc.id < |s.flag| && !s.flag[s.cpus[c].pc.id])
  }

  lemma {:induction false} AblePath(s: State, c: nat) returns (path: seq<nat>)
    requires Inv(s) && c < |s.cpus|
    ensures WaitPath(s, path) && path[0] == c && Able(s, path[|path| - 1])
    decreases if s.cpus[c].pc.Spinning? then 1 + LOCK_COUNT - s.cpus[c].pc.id else 0
  {
    assert CpuOk(s.cpus[c]);
    if Able(s, c) { return [c]; }
    var id := s.cpus[c].pc.id;
    assert s.flag[id] <==> Owned(s, id);
    var d: nat :| d < |s.cpus| && Owns(s.cpus[d], id);
    assert WaitsFor(s, c, d);
    assert CpuOk(s.cpus[d]);
    if s.cpus[d].pc.Spinning? { WaitsInward(s, c, d); }
    var rest := AblePath(s, d);
    path := [c] + rest;
    forall k | 0 <= k < |path| - 1 ensures WaitsFor(s, path[k], path[k + 1]) {
      if k > 0 { assert WaitsFor(s, rest[k - 1], rest[k]); }
    }
  }

  /** Following who waits for whom from any CPU leads to one that is not held up. */
  lemma WaitsEnd(states: seq<State>, cpus: seq<nat>, steps: seq<Step>, n: nat, c: nat)
    requires Run(states, cpus, steps) && n < |states| && c < |states[n].cpus|
    ensures exists path: seq<nat> :: WaitPath(states[n], path) && path[0] == c && Able(states[n], path[|path| - 1])
  {
    RunInv(states, cpus, steps, n);
    var path := AblePath(states[n], c);
  }

  // ---- Every waiting CPU can be served

  datatype Move = Move(cpu: nat, step: Step)

  /** A piece of a run, from any state. */
  ghost predicate Trace(states: seq<State>, moves: seq<Move>) {
    && |states| == |moves| + 1
    && forall k :: 0 <= k < |moves| ==> Next(states[k], states[k + 1], moves[k].cpu, moves[k].step)
  }

  /** `t` comes after `s` by some moves. */
  ghost predicate Leads(s: State, t: State) {
    exists states, moves :: Trace(states, moves) && states[0] == s && states[|moves|] == t
  }

  lemma LeadsRefl(s: State)
    ensures Leads(s, s)
  {
    assert Trace([s], []);
  }

  lemma LeadsOn(s: State, t: State, u: State, c: nat, step: Step)
    requires Leads(s, t) && Next(t, u, c, step)
    ensures Leads(s, u)
  {
    var states, moves :| Trace(states, moves) && states[0] == s && states[|moves|] == t;
    var more, on := states + [u], moves + [Move(c, step)];
    assert Trace(more, on) && more[0] == s && more[|on|] == u;
  }

  /** The state after CPU `c` goes on to `x` with the flags `flag`. */
  function After(s: State, c: nat, x: Cpu, flag: seq<bool>): State
    requires c < |s.cpus|
  {
    State(s.cpus[c := x], flag, false)
  }

  /** The sound states that come after `s`, with CPU `c` as `x` and the CPUs waiting for locks up to `id` as they were. */
  ghost predicate Gets(s: State, t: State, c: nat, x: Cpu, id: nat) {
    && Leads(s, t) && Inv(t) && !t.panicked && |t.cpus| == |s.cpus| && c < |s.cpus| && t.cpus[c] == x
    && forall e: nat :: e < |s.cpus| && e != c && s.cpus[e].pc.Spinning? && s.cpus[e].pc.id <= id ==> t.cpus[e] == s.cpus[e]
  }

  lemma GetsOn(s: State, t: State, c: nat, x: Cpu, id: nat, step: Step, y: Cpu, flag: seq<bool>)
    requires Gets(s, t, c, x, id) && Next(t, After(t, c, y, flag), c, step)
    ensures Gets(s, After(t, c, y, flag), c, y, id)
  {
    LeadsOn(s, t, After(t, c, y, flag), c, step);
    NextInv(t, After(t, c, y, flag), c, step);
  }

  /** A CPU that runs and holds a lock can give it up. */
  lemma CanDrop(s: State, t: State, d: nat, x: Cpu, id: nat, k: nat) returns (u: State)
    requires Gets(s, t, d, x, k) && x.pc.Running? && id in x.held
    ensures Gets(s, u, d, Cpu(Running, x.held - {id}, x.depth - 1), k) && id < |u.flag| && !u.flag[id]
  {
    assert CpuOk(t.cpus[d]);
    var y := Cpu(Dropping(id), x.held - {id}, x.depth - 1);
    GetsOn(s, t, d, x, k, Release(id), y, t.flag);
    var t1 := After(t, d, y, t.flag);
    var z := y.(pc := Running);
    GetsOn(s, t1, d, y, k, Clear, z, t1.flag[id := false]);
    u := After(t1, d, z, t1.flag[id := false]);
  }

  /** One that has just taken a lock runs on, and so does one that is about to clear one. */
  lemma CanRun(s: State, t: State, d: nat, x: Cpu, k: nat) returns (u: State, y: Cpu)
    requires Gets(s, t, d, x, k) && !x.pc.Spinning?
    ensures y.pc.Running? && y.held == x.held + (if x.pc.Taken? then {x.pc.id} else {}) && Gets(s, u, d, y, k)
    ensures x.pc.Dropping? ==> x.pc.id < |u.flag| && !u.flag[x.pc.id]
  {
    assert CpuOk(t.cpus[d]);
    if x.pc.Running? {
      u, y := t, x;
    } else if x.pc.Taken? {
      y := Cpu(Running, x.held + {x.pc.id}, x.depth + 1);
      GetsOn(s, t, d, x, k, Note, y, t.flag);
      u := After(t, d, y, t.flag);
    } else {
      y := x.(pc := Running);
      GetsOn(s, t, d, x, k, Clear, y, t.flag[x.pc.id := false]);
      u := After(t, d, y, t.flag[x.pc.id := false]);
    }
  }

  /** Whoever has a lock can come to clear its flag while those that wait for it, or for outer locks, stay where they are. */
  lemma {:induction false} CanFree(s: State, d: nat, id: nat) returns (t: State, x: Cpu)
    requires Inv(s) && !s.panicked && d < |s.cpus| && IsLock(id) && Owns(s.cpus[d], id)
    ensures Gets(s, t, d, x, id) && !t.flag[id]
    decreases LOCK_COUNT - id, 0
  {
    x := s.cpus[d];
    assert CpuOk(x);
    LeadsRefl(s);
    t := s;
    if x.pc.Spinning? {
      t := CanTake(s, d);
      x := x.(pc := Taken(x.pc.id));
    }
    var was := x;
    t, x := CanRun(s, t, d, x, id);
    if was.pc != Dropping(id) {
      t := CanDrop(s, t, d, x, id, id);
      x := t.cpus[d];
    }
  }

  /** A CPU that waits can come to take its lock. */
  lemma {:induction false} CanTake(s: State, c: nat) returns (t: State)
    requires Inv(s) && !s.panicked && c < |s.cpus| && s.cpus[c].pc.Spinning? && IsLock(s.cpus[c].pc.id)
    ensures Gets(s, t, c, s.cpus[c].(pc := Taken(s.cpus[c].pc.id)), s.cpus[c].pc.id)
    decreases LOCK_COUNT - s.cpus[c].pc.id, 1
  {
    var x := s.cpus[c];
    var id := x.pc.id;
    LeadsRefl(s);
    t := s;
    assert s.flag[id] <==> Owned(s, id);
    if s.flag[id] {
      var d: nat :| d < |s.cpus| && Owns(s.cpus[d], id);
      var y;
      t, y := CanFree(s, d, id);
      FreedFor(s, t, c, d, y, id);
    }
    GetsOn(s, t, c, x, id, Test, x.(pc := Taken(id)), t.flag[id := true]);
    t := After(t, c, x.(pc := Taken(id)), t.flag[id := true]);
  }

  lemma FreedFor(s: State, t: State, c: nat, d: nat, y: Cpu, id: nat)
    requires Inv(s) && Gets(s, t, d, y, id) && c < |s.cpus| && s.cpus[c].pc == Spinning(id) && d < |s.cpus| && Owns(s.cpus[d], id)
    ensures Gets(s, t, c, s.cpus[c], id)
  {
    assert CpuOk(s.cpus[c]) && CpuOk(s.cpus[d]);
  }

  /** In `t`, which comes after `s`, CPU `c` has the lock it waits for in `s`. */
  ghost predicate Served(s: State, t: State, c: nat)
    requires c < |s.cpus| && s.cpus[c].pc.Spinning?
  {
    Leads(s, t) && !t.panicked && |t.cpus| == |s.cpus| && t.cpus[c] == s.cpus[c].(pc := Taken(s.cpus[c].pc.id))
  }

  /** No deadlock: in every reachable state, each CPU that waits for a lock has a schedule on which it gets the lock. */
  lemma NoDeadlock(states: seq<State>, cpus: seq<nat>, steps: seq<Step>, n: nat, c: nat)
    requires Run(states, cpus, steps) && n < |states| && c < |states[n].cpus| && !states[n].panicked && states[n].cpus[c].pc.Spinning?
    ensures exists t: State :: Served(states[n], t, c)
  {
    RunInv(states, cpus, steps, n);
    assert CpuOk(states[n].cpus[c]);
    var t := CanTake(states[n], c);
    assert Served(states[n], t, c);
  }
}
