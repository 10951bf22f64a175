/** Waiting on channels and futexes against concurrent wakers, one shared access at a time. */
module Wait {

  /** Where a task is in `task_wait` or `task_futex_wait`. */
  datatype Pc = Idle | Loaded | Published | Registered | Clearing | Checking | Leaving | Sleeping | Left

  /** `chan`, `futex` and `expected` are the call's arguments; `epoch` counts the task's registrations. */
  datatype Task = Task(pc: Pc, chan: nat, futex: bool, expected: nat, seen: nat,
    waitChan: nat, blocked: bool, gen: nat, epoch: nat)

  datatype WPc = Off | Ready | Scanning | Bumping | Unblocking

  /**
   * A run of `task_wake_chan`, or of the timer, which picks its tasks by deadline. `i` is the slot it is at.
   * `hits` records which registration of each task its scan saw. A futex waker first stores its word;
   * `since` collects the values the word has had from then on.
   */
  datatype Waker = Waker(pc: WPc, timer: bool, chan: nat, i: nat, hits: map<nat, nat>, stored: bool, since: set<nat>)

  datatype State = State(tasks: seq<Task>, wakers: seq<Waker>, words: map<nat, nat>)

  datatype Step =
    | Load(t: nat, chan: nat, futex: bool, expected: nat)
    | Publish(t: nat)
    | Register(t: nat)
    | Recheck(t: nat)
    | Clear(t: nat)
    | ReadWord(t: nat)
    | Fault(t: nat)
    | Leave(t: nat)
    | Wake(t: nat)
    | Retire(t: nat)
    | Start(w: nat, timer: bool, wchan: nat)
    | Store(w: nat, addr: nat, v: nat)
    | Enter(w: nat)
    | Hit(w: nat)
    | Skip(w: nat)
    | Bump(w: nat)
    | Unblock(w: nat)
    | Finish(w: nat)

  function Word(s: State, a: nat): nat {
    if a in s.words then s.words[a] else 0
  }

  /** What a waiter's next step makes of its task, from the shared word it may read. */
  function TaskAfter(x: Task, step: Step, word: nat): Task {
    match step
    case Load(_, chan, futex, expected) => x.(pc := Loaded, chan := chan, futex := futex, expected := expected, seen := x.gen)
    case Publish(_) => x.(pc := Published, waitChan := x.chan, epoch := x.epoch + 1)
    case Register(_) => x.(pc := Registered, blocked := true)
    case Recheck(_) => x.(pc := if x.gen != x.seen then Clearing else if x.futex then Checking else Sleeping)
    case Clear(_) => x.(pc := if x.futex then Checking else Sleeping, blocked := false)
    case ReadWord(_) => x.(pc := if word == x.expected then Sleeping else Leaving)
    case Fault(_) => x.(pc := Leaving)
    case Leave(_) => x.(pc := Left, blocked := false)
    case Wake(_) => x.(pc := Left)
    case Retire(_) => x.(pc := Idle, waitChan := 0)
    case _ => x
  }

  /** When a waiter can take the step. */
  predicate TaskReady(x: Task, step: Step) {
    match step
    case Load(_, chan, futex, _) => x.pc == Idle && (futex ==> chan != 0)
    case Publish(_) => x.pc == Loaded
    case Register(_) => x.pc == Published
    case Recheck(_) => x.pc == Registered
    case Clear(_) => x.pc == Clearing
    case ReadWord(_) | Fault(_) => x.pc == Checking
    case Leave(_) => x.pc == Leaving
    case Wake(_) => x.pc == Sleeping && !x.blocked
    case Retire(_) => x.pc == Left
    case _ => false
  }

  predicate IsTaskStep(step: Step) {
    step.Load? || step.Publish? || step.Register? || step.Recheck? || step.Clear? || step.ReadWord? || step.Fault?
    || step.Leave? || step.Wake? || step.Retire?
  }

  ghost predicate TaskStep(s: State, s': State, step: Step) {
    && IsTaskStep(step) && step.t < |s.tasks| && TaskReady(s.tasks[step.t], step)
    && s'.tasks == s.tasks[step.t := TaskAfter(s.tasks[step.t], step, Word(s, s.tasks[step.t].chan))]
    && s'.wakers == s.wakers && s'.words == s.words
  }

  /** A waker that stored to `a` earlier sees the word take the value `v`. */
  function Noted(x: Waker, a: nat, v: nat): Waker {
    if x.stored && x.chan == a then x.(since := x.since + {v}) else x
  }

  ghost predicate StoreStep(s: State, s': State, w: nat, a: nat, v: nat) {
    && w < |s.wakers| && s.wakers[w].pc == Off && a != 0
    && s'.tasks == s.tasks && s'.words == s.words[a := v] && |s'.wakers| == |s.wakers|
    && s'.wakers[w] == Waker(Ready, false, a, 0, s.wakers[w].hits, true, {v})
    && forall k :: 0 <= k < |s.wakers| && k != w ==> s'.wakers[k] == Noted(s.wakers[k], a, v)
  }

  /** The scan's test of the task it is at. The timer looks at deadlines, which are not modelled. */
  predicate MayHit(s: State, x: Waker) {
    x.i < |s.tasks| && (x.timer || s.tasks[x.i].waitChan == x.chan)
  }

  predicate MaySkip(s: State, x: Waker) {
    x.i < |s.tasks| && (x.timer || s.tasks[x.i].waitChan != x.chan)
  }

  ghost predicate WakerStep(s: State, s': State, step: Step) {
    && !IsTaskStep(step) && !step.Store? && step.w < |s.wakers| && s'.words == s.words
    && var w := step.w; var x := s.wakers[w];
      match step
      case Start(_, timer, wchan) =>
        && x.pc == Off && (timer || wchan != 0) && s'.tasks == s.tasks
        && s'.wakers == s.wakers[w := Waker(Scanning, timer, wchan, 0, x.hits, false, {})]
      case Enter(_) => x.pc == Ready && s'.tasks == s.tasks && s'.wakers == s.wakers[w := x.(pc := Scanning)]
      case Hit(_) =>
        && x.pc == Scanning && MayHit(s, x) && s'.tasks == s.tasks
        && s'.wakers == s.wakers[w := x.(pc := Bumping, hits := x.hits[x.i := s.tasks[x.i].epoch])]
      case Skip(_) => x.pc == Scanning && MaySkip(s, x) && s'.tasks == s.tasks && s'.wakers == s.wakers[w := x.(i := x.i + 1)]
      case Bump(_) =>
        && x.pc == Bumping && x.i < |s.tasks|
        && s'.tasks == s.tasks[x.i := s.tasks[x.i].(gen := s.tasks[x.i].gen + 1)]
        && s'.wakers == s.wakers[w := x.(pc := Unblocking)]
      case Unblock(_) =>
        && x.pc == Unblocking && x.i < |s.tasks|
        && s'.tasks == s.tasks[x.i := s.tasks[x.i].(blocked := false)]
        && s'.wakers == s.wakers[w := x.(pc := Scanning, i := x.i + 1)]
      case Finish(_) =>
        && x.pc == Scanning && x.i >= |s.tasks| && s'.tasks == s.tasks && s'.wakers == s.wakers[w := x.(pc := Off)]
      case _ => false
  }

  ghost predicate Next(s: State, s': State, step: Step) {
    TaskStep(s, s', step) || WakerStep(s, s', step) || (step.Store? && StoreStep(s, s', step.w, step.addr, step.v))
  }

  predicate Fresh(x: Task) {
    x.pc == Idle && !x.blocked && x.waitChan == 0 && x.gen == 0 && x.seen == 0 && !x.futex
  }

  ghost predicate Init(s: State) {
    && (forall t :: 0 <= t < |s.tasks| ==> Fresh(s.tasks[t]))
    && (forall w :: 0 <= w < |s.wakers| ==> s.wakers[w].pc == Off && s.wakers[w].hits == map[] && !s.wakers[w].stored)
  }

  /** The task's channel is in the table from publishing to retiring. */
  predicate TaskOk(x: Task) {
    && x.seen <= x.gen && (x.futex ==> x.chan != 0)
    && (x.pc.Idle? || x.pc.Loaded? || x.pc.Published? || x.pc.Left? ==> !x.blocked)
    && (x.pc.Checking? || x.pc.Leaving? ==> x.futex) && (x.pc.Idle? || x.pc.Loaded? ==> x.waitChan == 0)
    && (x.pc.Published? || x.pc.Registered? || x.pc.Clearing? || x.pc.Checking? || x.pc.Sleeping? ==> x.waitChan == x.chan)
  }

  /** The waker's scan saw the task's present registration. */
  predicate Saw(x: Waker, t: nat, task: Task) {
    t in x.hits && x.hits[t] == task.epoch
  }

  predicate At(x: Waker, pc: WPc, t: nat) {
    x.pc == pc && x.i == t
  }

  /** A registration that was seen shows in the generation until the recheck, and in `blocked` after it. */
  predicate SeenOk(x: Waker, t: nat, task: Task) {
    && (t in x.hits ==> x.hits[t] <= task.epoch)
    && (Saw(x, t, task) && (task.pc.Published? || task.pc.Registered?) ==> task.gen > task.seen || At(x, Bumping, t))
    && (Saw(x, t, task) && (task.pc.Checking? || task.pc.Sleeping?) ==>
          !task.blocked || At(x, Bumping, t) || At(x, Unblocking, t))
  }

  /** The waker stored a word, and the futex waiter sleeps on a value that the word has not had since. */
  predicate Obsolete(x: Waker, task: Task) {
    x.stored && task.futex && task.pc.Sleeping? && task.chan == x.chan && task.expected !in x.since
  }

  /** The waker has yet to come by the task. */
  predicate Ahead(x: Waker, t: nat) {
    x.pc.Ready? || ((x.pc.Scanning? || x.pc.Bumping? || x.pc.Unblocking?) && x.i <= t)
  }

  predicate WakerOk(s: State, x: Waker) {
    && (x.stored ==> !x.timer && x.chan != 0 && Word(s, x.chan) in x.since) && (x.pc.Ready? ==> x.i == 0)
    && (x.pc.Bumping? || x.pc.Unblocking? ==> x.i < |s.tasks|)
  }

  ghost predicate Inv(s: State) {
    && (forall t :: 0 <= t < |s.tasks| ==> TaskOk(s.tasks[t]))
    && (forall w :: 0 <= w < |s.wakers| ==> WakerOk(s, s.wakers[w]))
    && (forall w, t: nat :: 0 <= w < |s.wakers| && 0 <= t < |s.tasks| ==> SeenOk(s.wakers[w], t, s.tasks[t]))
    && (forall w, t: nat :: 0 <= w < |s.wakers| && 0 <= t < |s.tasks| && Obsolete(s.wakers[w], s.tasks[t]) ==>
          !s.tasks[t].blocked || Ahead(s.wakers[w], t))
  }

  lemma InitInv(s: State)
    requires Init(s)
    ensures Inv(s)
  {
  }

  /** A waiter's step keeps what every waker knows about it. */
  lemma TaskAfterOk(x: Waker, t: nat, task: Task, step: Step, word: nat)
    requires TaskOk(task) && SeenOk(x, t, task) && TaskReady(task, step) && IsTaskStep(step)
    requires x.stored && x.chan == task.chan ==> word in x.since
    requires Obsolete(x, task) ==> !task.blocked || Ahead(x, t)
    ensures var task' := TaskAfter(task, step, word);
      TaskOk(task') && SeenOk(x, t, task') && (Obsolete(x, task') ==> !task'.blocked || Ahead(x, t))
  {
  }

  lemma TaskStepInv(s: State, s': State, step: Step)
    requires Inv(s) && TaskStep(s, s', step)
    ensures Inv(s')
  {
    var word, task := Word(s, s.tasks[step.t].chan), s.tasks[step.t];
    forall w: nat | w < |s.wakers|
      ensures SeenOk(s.wakers[w], step.t, s'.tasks[step.t])
      ensures Obsolete(s.wakers[w], s'.tasks[step.t]) ==> !s'.tasks[step.t].blocked || Ahead(s.wakers[w], step.t)
    {
      assert WakerOk(s, s.wakers[w]) && SeenOk(s.wakers[w], step.t, task);
      TaskAfterOk(s.wakers[w], step.t, task, step, word);
    }
    assert TaskOk(s'.tasks[step.t]);
    forall w: nat | w < |s'.wakers| ensures WakerOk(s', s'.wakers[w]) { assert WakerOk(s, s.wakers[w]); }
  }

  lemma StoreStepInv(s: State, s': State, w: nat, a: nat, v: nat)
    requires Inv(s) && StoreStep(s, s', w, a, v)
    ensures Inv(s')
  {
  }

  /** Scanning on, or finishing, leaves no sleeper on an obsolete value behind. */
  lemma ScanOk(s: State, s': State, step: Step)
    requires Inv(s) && WakerStep(s, s', step) && !step.Bump? && !step.Unblock?
    ensures Inv(s')
  {
    forall t: nat | t < |s.tasks|
      ensures SeenOk(s'.wakers[step.w], t, s.tasks[t])
      ensures Obsolete(s'.wakers[step.w], s.tasks[t]) ==> !s.tasks[t].blocked || Ahead(s'.wakers[step.w], t)
    {
      assert TaskOk(s.tasks[t]) && SeenOk(s.wakers[step.w], t, s.tasks[t]) && WakerOk(s, s.wakers[step.w]);
    }
    forall w: nat | w < |s.wakers| ensures WakerOk(s', s'.wakers[w]) { assert WakerOk(s, s.wakers[w]); }
  }

  /** So does releasing the task the scan is at. */
  lemma ReleaseOk(s: State, s': State, step: Step)
    requires Inv(s) && WakerStep(s, s', step) && (step.Bump? || step.Unblock?)
    ensures Inv(s')
  {
    forall w: nat, t: nat | w < |s.wakers| && t < |s.tasks|
      ensures TaskOk(s'.tasks[t]) && SeenOk(s'.wakers[w], t, s'.tasks[t])
      ensures Obsolete(s'.wakers[w], s'.tasks[t]) ==> !s'.tasks[t].blocked || Ahead(s'.wakers[w], t)
    {
      assert TaskOk(s.tasks[t]) && SeenOk(s.wakers[w], t, s.tasks[t]);
    }
    forall t: nat | t < |s.tasks| ensures TaskOk(s'.tasks[t]) { assert TaskOk(s.tasks[t]); }
    forall w: nat | w < |s.wakers| ensures WakerOk(s', s'.wakers[w]) { assert WakerOk(s, s.wakers[w]); }
  }

  lemma NextInv(s: State, s': State, step: Step)
    requires Inv(s) && Next(s, s', step)
    ensures Inv(s')
  {
    if TaskStep(s, s', step) { TaskStepInv(s, s', step); }
    else if step.Store? { StoreStepInv(s, s', step.w, step.addr, step.v); }
    else if step.Bump? || step.Unblock? { ReleaseOk(s, s', step); }
    else { ScanOk(s, s', step); }
  }

  /** An interleaving of any number of waiters and wakers. */
  ghost predicate Run(states: seq<State>, steps: seq<Step>) {
    && |states| == |steps| + 1 && Init(states[0])
    && forall n :: 0 <= n < |steps| ==> Next(states[n], states[n + 1], steps[n])
  }

  lemma {:induction false} RunInv(states: seq<State>, steps: seq<Step>, n: nat)
    requires Run(states, steps) && n < |states|
    ensures Inv(states[n])
  {
    if n == 0 {
      InitInv(states[0]);
    } else {
      RunInv(states, steps, n - 1);
      NextInv(states[n - 1], states[n], steps[n - 1]);
    }
  }

  /** No wake is erased: a waker that saw the registration and is done with the task leaves it unblocked in its sleep loop. */
  lemma NoWakeErased(states: seq<State>, steps: seq<Step>, n: nat, w: nat, t: nat)
    requires Run(states, steps) && n < |states|
    requires var s := states[n]; w < |s.wakers| && t < |s.tasks| && s.tasks[t].pc.Sleeping? && Saw(s.wakers[w], t, s.tasks[t])
    ensures var s := states[n]; var x := s.wakers[w];
      At(x, Bumping, t) || At(x, Unblocking, t) || !s.tasks[t].blocked
  {
    RunInv(states, steps, n);
    var s := states[n];
    assert SeenOk(s.wakers[w], t, s.tasks[t]);
  }

  /** Once a waker that stored the word has finished its scan, no futex waiter sleeps blocked on a value the word has not had since. */
  lemma FutexNotStuck(states: seq<State>, steps: seq<Step>, n: nat, w: nat, t: nat)
    requires Run(states, steps) && n < |states|
    requires var s := states[n]; w < |s.wakers| && t < |s.tasks| && s.wakers[w].stored && s.wakers[w].pc.Off?
    requires var s := states[n]; var x, task := s.wakers[w], s.tasks[t];
      task.futex && task.pc.Sleeping? && task.chan == x.chan && task.expected !in x.since
    ensures !states[n].tasks[t].blocked
  {
    RunInv(states, steps, n);
    var s := states[n];
    assert Obsolete(s.wakers[w], s.tasks[t]);
  }

  // ---- The same in terms of the run alone

  /** In call `a` of task `t`, waker `w` has hit it: the registration that it saw is the present one. */
  lemma {:induction false} HitSeen(states: seq<State>, steps: seq<Step>, a: nat, n: nat, w: nat, t: nat)
    requires Run(states, steps) && a < n < |states| && steps[a] == Hit(w) && w < |states[a].wakers| && states[a].wakers[w].i == t
    requires forall b :: a < b < n ==> !LoadsAt(steps, b, t)
    requires t < |states[a].tasks| && !states[a].tasks[t].pc.Idle? && !states[a].tasks[t].pc.Loaded? && !states[a].tasks[t].pc.Left?
    ensures w < |states[n].wakers| && t < |states[n].tasks| && Saw(states[n].wakers[w], t, states[n].tasks[t]) && !states[n].tasks[t].pc.Loaded?
    decreases n
  {
    assert Next(states[n - 1], states[n], steps[n - 1]);
    if n > a + 1 {
      HitSeen(states, steps, a, n - 1, w, t);
      assert !LoadsAt(steps, n - 1, t);
      SawMore(states[n - 1], states[n], steps[n - 1], w, t);
    }
  }

  lemma SawMore(s: State, s': State, step: Step, w: nat, t: nat)
    requires Next(s, s', step) && w < |s.wakers| && t < |s.tasks| && Saw(s.wakers[w], t, s.tasks[t]) && !s.tasks[t].pc.Loaded?
    requires !(step.Load? && step.t == t)
    ensures w < |s'.wakers| && t < |s'.tasks| && Saw(s'.wakers[w], t, s'.tasks[t]) && !s'.tasks[t].pc.Loaded?
  {
    if TaskStep(s, s', step) {
      assert s'.wakers == s.wakers && s'.tasks[t].epoch == s.tasks[t].epoch;
    } else if step.Store? {
      assert s'.tasks == s.tasks && s'.wakers[w].hits == s.wakers[w].hits;
    } else {
      assert s'.tasks[t].epoch == s.tasks[t].epoch && s'.tasks[t].pc == s.tasks[t].pc;
      assert s'.wakers[w].hits == s.wakers[w].hits || (step.w == w && s'.wakers[w].hits == s.wakers[w].hits[s.wakers[w].i := s.tasks[s.wakers[w].i].epoch]);
    }
  }

  /** A waker that came by task `t` while it was registered, and has gone on, has it released: in its sleep loop it is not blocked. */
  lemma HitReleases(states: seq<State>, steps: seq<Step>, a: nat, n: nat, w: nat, t: nat)
    requires Run(states, steps) && a < n < |states| && steps[a] == Hit(w) && w < |states[a].wakers| && states[a].wakers[w].i == t
    requires forall b :: a < b < n ==> !LoadsAt(steps, b, t)
    requires t < |states[a].tasks| && !states[a].tasks[t].pc.Idle? && !states[a].tasks[t].pc.Loaded? && !states[a].tasks[t].pc.Left?
    ensures w < |states[n].wakers| && t < |states[n].tasks|
    ensures var x := states[n].wakers[w];
      states[n].tasks[t].pc.Sleeping? && !At(x, Bumping, t) && !At(x, Unblocking, t) ==> !states[n].tasks[t].blocked
  {
    HitSeen(states, steps, a, n, w, t);
    if states[n].tasks[t].pc.Sleeping? { NoWakeErased(states, steps, n, w, t); }
  }

  /** Waker `w` stored its word with step `a` and has not begun anew. */
  ghost predicate StoredAt(steps: seq<Step>, a: nat, n: nat, w: nat) {
    && a < n <= |steps| && steps[a].Store? && steps[a].w == w
    && forall b :: a < b < n ==> !((steps[b].Store? || steps[b].Start?) && steps[b].w == w)
  }

  ghost predicate HadSince(states: seq<State>, a: nat, n: nat, addr: nat, v: nat) {
    exists m: nat :: a < m <= n < |states| && Word(states[m], addr) == v
  }

  /** The values that a waker has noted are values that its word has had since the store. */
  lemma {:induction false} NotedSince(states: seq<State>, steps: seq<Step>, a: nat, n: nat, w: nat)
    requires Run(states, steps) && n < |states| && StoredAt(steps, a, n, w)
    ensures w < |states[n].wakers| && states[n].wakers[w].stored && states[n].wakers[w].chan == steps[a].addr
    ensures forall v :: v in states[n].wakers[w].since ==> HadSince(states, a, n, steps[a].addr, v)
    decreases n
  {
    var k, addr := n - 1, steps[a].addr;
    assert Next(states[k], states[n], steps[k]);
    if k > a { NotedSince(states, steps, a, k, w); }
    forall v | v in states[n].wakers[w].since ensures HadSince(states, a, n, addr, v) {
      if k > a && v in states[k].wakers[w].since {
        var m: nat :| a < m <= k && Word(states[m], addr) == v;
        assert HadSince(states, a, n, addr, v);
      } else {
        assert Word(states[n], addr) == v;
      }
    }
  }

  /**
   No lost futex wake: a waker stored a word with step `a` and has finished. Then a waiter on it that expects a value
   which the word has not had since is not left blocked in its sleep loop.
   */
  lemma FutexWoken(states: seq<State>, steps: seq<Step>, a: nat, n: nat, w: nat, t: nat)
    requires Run(states, steps) && n < |states| && StoredAt(steps, a, n, w) && w < |states[n].wakers| && t < |states[n].tasks|
    requires states[n].wakers[w].pc.Off? && states[n].tasks[t].futex && states[n].tasks[t].pc.Sleeping?
    requires states[n].tasks[t].chan == steps[a].addr && !HadSince(states, a, n, steps[a].addr, states[n].tasks[t].expected)
    ensures !states[n].tasks[t].blocked
  {
    NotedSince(states, steps, a, n, w);
    FutexNotStuck(states, steps, n, w, t);
  }

  // ---- Nobody wakes by itself

  /** Step `m` bumps the generation of task `t` or clears its flag: the two halves of `task_release_wait`. */
  predicate Releases(states: seq<State>, steps: seq<Step>, m: nat, t: nat) {
    && m < |steps| && m < |states| && (steps[m].Bump? || steps[m].Unblock?)
    && steps[m].w < |states[m].wakers| && states[m].wakers[steps[m].w].i == t
  }

  predicate LoadsAt(steps: seq<Step>, a: nat, t: nat) {
    a < |steps| && steps[a].Load? && steps[a].t == t
  }

  /** Task `t` began its present call with step `a`. */
  ghost predicate Began(steps: seq<Step>, a: nat, n: nat, t: nat) {
    a < n && LoadsAt(steps, a, t) && forall b :: a < b < n ==> !LoadsAt(steps, b, t)
  }

  ghost predicate ReleasedSince(states: seq<State>, steps: seq<Step>, a: nat, n: nat, t: nat) {
    exists m: nat :: a <= m < n && Releases(states, steps, m, t)
  }

  /** Step `b` is the one by which futex waiter `t` finds that it must not sleep. */
  predicate Refuses(states: seq<State>, steps: seq<Step>, b: nat, t: nat) {
    && b < |steps| && b < |states| && t < |states[b].tasks|
    && (steps[b] == Fault(t) || (steps[b] == ReadWord(t) && Word(states[b], states[b].tasks[t].chan) != states[b].tasks[t].expected))
  }

  ghost predicate RefusedSince(states: seq<State>, steps: seq<Step>, a: nat, n: nat, t: nat) {
    exists b: nat :: a <= b < n && Refuses(states, steps, b, t)
  }

  /** What task `t`, whose call began with step `a`, shows by step `n` of releases and refusals. */
  ghost predicate Accounted(states: seq<State>, steps: seq<Step>, a: nat, n: nat, t: nat)
    requires n < |states| && t < |states[n].tasks|
  {
    Began(steps, a, n, t) && Shows(states[n].tasks[t], ReleasedSince(states, steps, a, n, t), RefusedSince(states, steps, a, n, t))
  }

  predicate Shows(x: Task, released: bool, refused: bool) {
    && (x.gen > x.seen ==> released)
    && (x.pc.Clearing? ==> x.gen > x.seen)
    && ((x.pc.Registered? || x.pc.Clearing? || x.pc.Checking? || x.pc.Sleeping?) && !x.blocked ==> released)
    && (x.pc.Leaving? ==> refused)
    && (x.pc.Left? ==> refused || released)
  }

  lemma ShowsMore(s: State, s': State, step: Step, t: nat, released: bool, refused: bool)
    requires Next(s, s', step) && t < |s.tasks| && s.tasks[t].seen <= s.tasks[t].gen && !(step.Load? && step.t == t)
    requires Shows(s.tasks[t], released, refused)
    ensures |s'.tasks| == |s.tasks|
    ensures var freed := (step.Bump? || step.Unblock?) && step.w < |s.wakers| && s.wakers[step.w].i == t;
      var denied := step == Fault(t) || (step == ReadWord(t) && Word(s, s.tasks[t].chan) != s.tasks[t].expected);
      Shows(s'.tasks[t], released || freed, refused || denied)
  {
    if TaskStep(s, s', step) {
      assert step.t == t ==> s'.tasks[t] == TaskAfter(s.tasks[t], step, Word(s, s.tasks[t].chan));
    } else if step.Store? {
      assert s'.tasks == s.tasks;
    } else {
      assert s'.tasks[t].pc == s.tasks[t].pc && s'.tasks[t].seen == s.tasks[t].seen;
    }
  }

  /** One more step keeps the account. */
  lemma AccountedMore(states: seq<State>, steps: seq<Step>, a: nat, n: nat, t: nat)
    requires n < |steps| && |states| == |steps| + 1 && Next(states[n], states[n + 1], steps[n])
    requires t < |states[n].tasks| && Accounted(states, steps, a, n, t) && !LoadsAt(steps, n, t)
    requires states[n].tasks[t].seen <= states[n].tasks[t].gen
    ensures |states[n + 1].tasks| == |states[n].tasks| && Accounted(states, steps, a, n + 1, t)
  {
    ShowsMore(states[n], states[n + 1], steps[n], t, ReleasedSince(states, steps, a, n, t), RefusedSince(states, steps, a, n, t));
    if ReleasedSince(states, steps, a, n, t) {
      var m: nat :| a <= m < n && Releases(states, steps, m, t);
      assert ReleasedSince(states, steps, a, n + 1, t);
    }
    if RefusedSince(states, steps, a, n, t) {
      var b: nat :| a <= b < n && Refuses(states, steps, b, t);
      assert RefusedSince(states, steps, a, n + 1, t);
    }
    assert Releases(states, steps, n, t) ==> ReleasedSince(states, steps, a, n + 1, t);
    assert Refuses(states, steps, n, t) ==> RefusedSince(states, steps, a, n + 1, t);
  }

  /** In every run, each task in a call has begun it with a load, and its account is right. */
  lemma {:induction false} AccountOf(states: seq<State>, steps: seq<Step>, n: nat, t: nat) returns (a: nat)
    requires Run(states, steps) && n < |states| && t < |states[n].tasks| && !states[n].tasks[t].pc.Idle?
    ensures Accounted(states, steps, a, n, t)
  {
    var m := n - 1;
    RunInv(states, steps, m);
    assert Next(states[m], states[n], steps[m]) && TaskOk(states[m].tasks[t]);
    if LoadsAt(steps, m, t) {
      a := m;
    } else {
      a := AccountOf(states, steps, m, t);
      AccountedMore(states, steps, a, m, t);
    }
  }

  /** A task that wakes was released since it began its call. */
  lemma WokenByRelease(states: seq<State>, steps: seq<Step>, n: nat, t: nat) returns (a: nat)
    requires Run(states, steps) && n < |steps| && steps[n] == Wake(t)
    ensures Began(steps, a, n, t) && ReleasedSince(states, steps, a, n, t)
  {
    assert Next(states[n], states[n + 1], steps[n]);
    a := AccountOf(states, steps, n, t);
  }

  /**
   Without a release a waiter that has come to its sleep loop stays there, blocked: none of its own steps is possible.
   A futex waiter comes there exactly if it reads the value it expects; it leaves only if it does not.
   */
  lemma StaysAsleep(states: seq<State>, steps: seq<Step>, n: nat, t: nat, a: nat)
    requires Run(states, steps) && n < |states| && t < |states[n].tasks|
    requires Began(steps, a, n, t) && !ReleasedSince(states, steps, a, n, t) && !states[n].tasks[t].pc.Idle?
    ensures states[n].tasks[t].pc.Sleeping? ==>
      states[n].tasks[t].blocked && forall step :: IsTaskStep(step) ==> !TaskReady(states[n].tasks[t], step)
    ensures states[n].tasks[t].pc.Leaving? || states[n].tasks[t].pc.Left? ==> RefusedSince(states, steps, a, n, t)
  {
    var b := AccountOf(states, steps, n, t);
    assert a == b by { assert LoadsAt(steps, a, t) && LoadsAt(steps, b, t); }
  }

  // ---- Everybody can go on

  /** A waiter in a call has a next step, unless it sleeps blocked. */
  lemma WaiterGoesOn(s: State, t: nat) returns (step: Step, s': State)
    requires t < |s.tasks| && !s.tasks[t].pc.Idle? && !(s.tasks[t].pc.Sleeping? && s.tasks[t].blocked)
    ensures Next(s, s', step) && IsTaskStep(step) && step.t == t && s'.tasks[t].pc != s.tasks[t].pc
    ensures s.tasks[t].pc.Sleeping? ==> s'.tasks[t].pc.Left?
  {
    step := match s.tasks[t].pc
      case Idle | Loaded => Publish(t)
      case Published => Register(t)
      case Registered => Recheck(t)
      case Clearing => Clear(t)
      case Checking => ReadWord(t)
      case Leaving => Leave(t)
      case Sleeping => Wake(t)
      case Left => Retire(t);
    s' := s.(tasks := s.tasks[t := TaskAfter(s.tasks[t], step, Word(s, s.tasks[t].chan))]);
    assert TaskStep(s, s', step);
  }

  /** How far a waker has to go at most. */
  function Rest(s: State, x: Waker): nat {
    match x.pc
    case Off => 0
    case Ready => 3 * |s.tasks| + 2
    case _ =>
      var left := if x.i < |s.tasks| then 3 * (|s.tasks| - x.i) else 0;
      1 + left - if left == 0 then 0 else if x.pc.Bumping? then 1 else if x.pc.Unblocking? then 2 else 0
  }

  /** A waker that is under way has a next step, and comes to its end after boundedly many. */
  lemma WakerGoesOn(s: State, w: nat) returns (step: Step, s': State)
    requires Inv(s) && w < |s.wakers| && !s.wakers[w].pc.Off?
    ensures Next(s, s', step) && !IsTaskStep(step) && step.w == w && w < |s'.wakers| && Rest(s', s'.wakers[w]) < Rest(s, s.wakers[w])
    ensures s.wakers[w].pc.Scanning? && !s.wakers[w].timer && s.wakers[w].i < |s.tasks| ==>
      (step.Hit? <==> s.tasks[s.wakers[w].i].waitChan == s.wakers[w].chan)
  {
    var x := s.wakers[w];
    assert WakerOk(s, x);
    step, s' := WakerMove(s, w).0, WakerMove(s, w).1;
    assert WakerStep(s, s', step);
  }

  /** What waker `w` does next, if it is under way. */
  function WakerMove(s: State, w: nat): (Step, State)
    requires w < |s.wakers| && (s.wakers[w].pc.Bumping? || s.wakers[w].pc.Unblocking? ==> s.wakers[w].i < |s.tasks|)
  {
    var x := s.wakers[w];
    match x.pc
    case Off | Ready => (Enter(w), s.(wakers := s.wakers[w := x.(pc := Scanning)]))
    case Scanning =>
      if x.i >= |s.tasks| then (Finish(w), s.(wakers := s.wakers[w := x.(pc := Off)]))
      else if MayHit(s, x) then (Hit(w), s.(wakers := s.wakers[w := x.(pc := Bumping, hits := x.hits[x.i := s.tasks[x.i].epoch])]))
      else (Skip(w), s.(wakers := s.wakers[w := x.(i := x.i + 1)]))
    case Bumping =>
      (Bump(w), s.(tasks := s.tasks[x.i := s.tasks[x.i].(gen := s.tasks[x.i].gen + 1)], wakers := s.wakers[w := x.(pc := Unblocking)]))
    case Unblocking =>
      (Unblock(w), s.(tasks := s.tasks[x.i := s.tasks[x.i].(blocked := false)], wakers := s.wakers[w := x.(pc := Scanning, i := x.i + 1)]))
  }
}
