/** The thread pool's hand-off protocol, one shared-memory access at a time: any number of dispatchers and workers
    interleave freely.  A worker locks its own control lock twice and so blocks on itself; a dispatcher unlocks it. */
module ThreadPool {
  import opened Sequences

  /** Each call of `run_task` is numbered, so that two calls with equal arguments are two tasks. */
  datatype Task = Task(id: nat, input: int)

  /** Where a worker is in `task_thread_func`. */
  datatype WorkerPc = FirstLock | SetIdle | WaitLock | Starting | Running

  datatype Worker = Worker(pc: WorkerPc, locked: bool, busy: bool, arg: Task)

  /** Where a dispatcher is in `run_task`. */
  datatype DispatcherPc =
    | Outside
    | Entering
    | Looking(i: nat)
    | Claiming(i: nat)
    | Copying(i: nat)
    | Unlocking(i: nat)
    | Leaving(suc: bool)

  datatype Dispatcher = Dispatcher(pc: DispatcherPc, task: Task)

  /** `holder` is the dispatcher inside the dispatch lock, or `-1`.  The last five fields are history: the tasks launched,
      started and finished in order, and those for which `run_task` returned 1 or 0. */
  datatype Pool = Pool(workers: seq<Worker>, dispatchers: seq<Dispatcher>, holder: int, calls: nat,
                       launched: seq<Task>, started: seq<Task>, finished: seq<Task>,
                       accepted: set<Task>, refused: set<Task>)

  function InitPool(workers: nat, dispatchers: nat): Pool {
    Pool(seq(workers, _ => Worker(FirstLock, false, true, Task(0, 0))),
         seq(dispatchers, _ => Dispatcher(Outside, Task(0, 0))), -1, 1, [], [], [], {}, {})
  }

  datatype Event =
    | Call(d: nat, input: int)   // run_task is called
    | Enter(d: nat)              // lock the dispatch lock
    | Look(d: nat)               // read one busy flag
    | Claim(d: nat)              // busy = 1
    | Copy(d: nat)               // arg = *arg
    | Unlock(d: nat)             // unlock the control lock
    | Leave(d: nat)              // unlock the dispatch lock and return
    | LockFirst(w: nat)          // the lock before the loop
    | GoIdle(w: nat)             // busy = 0
    | Wake(w: nat)               // the lock inside the loop
    | Start(w: nat)              // call arg.func
    | Finish(w: nat)             // arg.func returns

  predicate Enabled(p: Pool, e: Event) {
    match e
    case Call(d, _) => d < |p.dispatchers| && p.dispatchers[d].pc.Outside?
    case Enter(d) => d < |p.dispatchers| && p.dispatchers[d].pc.Entering? && p.holder == -1
    case Look(d) => d < |p.dispatchers| && p.dispatchers[d].pc.Looking?
    case Claim(d) => d < |p.dispatchers| && p.dispatchers[d].pc.Claiming? && p.dispatchers[d].pc.i < |p.workers|
    case Copy(d) => d < |p.dispatchers| && p.dispatchers[d].pc.Copying? && p.dispatchers[d].pc.i < |p.workers|
    case Unlock(d) => d < |p.dispatchers| && p.dispatchers[d].pc.Unlocking? && p.dispatchers[d].pc.i < |p.workers|
    case Leave(d) => d < |p.dispatchers| && p.dispatchers[d].pc.Leaving?
    case LockFirst(w) => w < |p.workers| && p.workers[w].pc.FirstLock? && !p.workers[w].locked
    case GoIdle(w) => w < |p.workers| && p.workers[w].pc.SetIdle?
    case Wake(w) => w < |p.workers| && p.workers[w].pc.WaitLock? && !p.workers[w].locked
    case Start(w) => w < |p.workers| && p.workers[w].pc.Starting?
    case Finish(w) => w < |p.workers| && p.workers[w].pc.Running?
  }

  function Go(p: Pool, d: nat, pc: DispatcherPc): Pool
    requires d < |p.dispatchers|
  {
    p.(dispatchers := p.dispatchers[d := p.dispatchers[d].(pc := pc)])
  }

  function Become(p: Pool, w: nat, worker: Worker): Pool
    requires w < |p.workers|
  {
    p.(workers := p.workers[w := worker])
  }

  function Next(p: Pool, e: Event): Pool
    requires Enabled(p, e)
  {
    match e
    case Call(d, input) =>
      p.(dispatchers := p.dispatchers[d := Dispatcher(Entering, Task(p.calls, input))], calls := p.calls + 1)
    case Enter(d) => Go(p, d, Looking(0)).(holder := d)
    case Look(d) =>
      var i := p.dispatchers[d].pc.i;
      if i >= |p.workers| then Go(p, d, Leaving(false))
      else if !p.workers[i].busy then Go(p, d, Claiming(i))
      else Go(p, d, Looking(i + 1))
    case Claim(d) =>
      var i := p.dispatchers[d].pc.i;
      Become(Go(p, d, Copying(i)), i, p.workers[i].(busy := true))
    case Copy(d) =>
      var i := p.dispatchers[d].pc.i;
      Become(Go(p, d, Unlocking(i)), i, p.workers[i].(arg := p.dispatchers[d].task))
    case Unlock(d) =>
      var i := p.dispatchers[d].pc.i;
      Become(Go(p, d, Leaving(true)), i, p.workers[i].(locked := false))
        .(launched := p.launched + [p.dispatchers[d].task])
    case Leave(d) =>
      var task := p.dispatchers[d].task;
      var suc := p.dispatchers[d].pc.suc;
      Go(p, d, Outside).(holder := -1, accepted := if suc then p.accepted + {task} else p.accepted,
                         refused := if suc then p.refused else p.refused + {task})
    case LockFirst(w) => Become(p, w, p.workers[w].(locked := true, pc := SetIdle))
    case GoIdle(w) => Become(p, w, p.workers[w].(busy := false, pc := WaitLock))
    case Wake(w) => Become(p, w, p.workers[w].(locked := true, pc := Starting))
    case Start(w) => Become(p, w, p.workers[w].(pc := Running)).(started := p.started + [p.workers[w].arg])
    case Finish(w) => Become(p, w, p.workers[w].(pc := SetIdle)).(finished := p.finished + [p.workers[w].arg])
  }

  ghost predicate IsRun(n: nat, m: nat, pools: seq<Pool>, events: seq<Event>) {
    && |pools| == |events| + 1
    && pools[0] == InitPool(n, m)
    && forall i {:trigger events[i]} :: 0 <= i < |events| ==>
         Enabled(pools[i], events[i]) && pools[i + 1] == Next(pools[i], events[i])
  }

  // ----- the invariant -----

  predicate Inside(d: Dispatcher) {
    !d.pc.Outside? && !d.pc.Entering?
  }

  /** A dispatcher that is about to hand a task to worker `w`, from the moment it has found it idle. */
  predicate Serving(d: Dispatcher, w: int) {
    (d.pc.Claiming? || d.pc.Copying? || d.pc.Unlocking?) && d.pc.i == w
  }

  /** A worker that has been handed a task and has not started it. */
  predicate Pending(w: Worker) {
    (w.pc.WaitLock? && !w.locked) || w.pc.Starting?
  }

  predicate Occupied(w: Worker) {
    Pending(w) || w.pc.Running?
  }

  /** How a worker's flag and lock go with its position. */
  predicate WorkerInv(w: Worker) {
    match w.pc
    case FirstLock => !w.locked && w.busy
    case WaitLock => w.locked || w.busy
    case _ => w.locked && w.busy
  }

  /** Only the holder of the dispatch lock is inside, and the worker it serves waits on its own lock. */
  ghost predicate DispatcherInv(p: Pool, d: nat)
    requires d < |p.dispatchers|
  {
    var x := p.dispatchers[d];
    && (Inside(x) <==> p.holder == d)
    && (x.pc.Claiming? ==> x.pc.i < |p.workers| && p.workers[x.pc.i].pc.WaitLock? && !p.workers[x.pc.i].busy)
    && (x.pc.Copying? || x.pc.Unlocking? ==>
          x.pc.i < |p.workers| && p.workers[x.pc.i].pc.WaitLock? && p.workers[x.pc.i].locked && p.workers[x.pc.i].busy)
    && (x.pc.Unlocking? ==> p.workers[x.pc.i].arg == x.task)
  }

  /** A worker that waits with its flag up and its lock held is being served. */
  ghost predicate IdleInv(p: Pool) {
    forall w :: 0 <= w < |p.workers| && p.workers[w].pc.WaitLock? && p.workers[w].locked && p.workers[w].busy ==>
      0 <= p.holder < |p.dispatchers| && Serving(p.dispatchers[p.holder], w)
      && !p.dispatchers[p.holder].pc.Claiming?
  }

  ghost predicate Control(p: Pool) {
    && (forall w :: 0 <= w < |p.workers| ==> WorkerInv(p.workers[w]))
    && -1 <= p.holder < |p.dispatchers|
    && (forall d :: 0 <= d < |p.dispatchers| ==> DispatcherInv(p, d))
    && IdleInv(p)
  }

  /** The histories: no task is launched, started or finished twice, and each step of its life follows the one before. */
  ghost predicate Histories(p: Pool) {
    && NoDup(p.launched) && NoDup(p.started) && NoDup(p.finished)
    && (forall t :: t in p.started ==> t in p.launched)
    && (forall t :: t in p.finished ==> t in p.started)
  }

  ghost predicate Awaited(p: Pool, t: Task) {
    exists w :: 0 <= w < |p.workers| && Pending(p.workers[w]) && p.workers[w].arg == t
  }

  predicate AtWork(p: Pool, w: Worker) {
    && (Pending(w) ==> w.arg in p.launched && w.arg !in p.started)
    && (w.pc.Running? ==> w.arg in p.started && w.arg !in p.finished)
  }

  predicate Apart(v: Worker, w: Worker) {
    Occupied(v) && Occupied(w) ==> v.arg != w.arg
  }

  /** Each launched task is started, or pending at one worker; nothing else is pending or running. */
  ghost predicate Placement(p: Pool) {
    && (forall t :: t in p.launched && t !in p.started ==> Awaited(p, t))
    && (forall w :: 0 <= w < |p.workers| ==> AtWork(p, p.workers[w]))
    && (forall v, w :: 0 <= v < w < |p.workers| ==> Apart(p.workers[v], p.workers[w]))
  }

  ghost predicate Delivery(p: Pool) {
    Histories(p) && Placement(p)
  }

  /** A launched task that is not yet accepted is that of a dispatcher about to return 1. */
  ghost predicate Returning(p: Pool, t: Task) {
    exists d :: 0 <= d < |p.dispatchers| && p.dispatchers[d].pc == Leaving(true) && p.dispatchers[d].task == t
  }

  /** Whether a dispatcher's current task has been launched is known from its position. */
  ghost predicate Accounting(p: Pool) {
    && (forall t :: t in p.launched || t in p.accepted || t in p.refused ==> t.id < p.calls)
    && (forall t :: t in p.accepted ==> t in p.launched)
    && (forall t :: t in p.refused ==> t !in p.launched)
    && (forall d :: 0 <= d < |p.dispatchers| && !p.dispatchers[d].pc.Outside? ==>
          && p.dispatchers[d].task.id < p.calls
          && p.dispatchers[d].task !in p.accepted && p.dispatchers[d].task !in p.refused
          && (p.dispatchers[d].task in p.launched <==> p.dispatchers[d].pc == Leaving(true)))
    && (forall c, d :: 0 <= c < d < |p.dispatchers| && !p.dispatchers[c].pc.Outside? && !p.dispatchers[d].pc.Outside? ==>
          p.dispatchers[c].task.id != p.dispatchers[d].task.id)
    && (forall t :: t in p.launched && t !in p.accepted ==> Returning(p, t))
  }

  ghost predicate Inv(p: Pool) {
    Control(p) && Delivery(p) && Accounting(p)
  }

  // ----- every step keeps the invariant -----

  /** The dispatcher that takes the step, if it is one that does. */
  function Actor(e: Event): int {
    match e
    case Call(d, _) => d
    case Enter(d) => d
    case Look(d) => d
    case Claim(d) => d
    case Copy(d) => d
    case Unlock(d) => d
    case Leave(d) => d
    case _ => -1
  }

  lemma StepKeepsDispatcher(p: Pool, e: Event, d: nat)
    requires Control(p) && Enabled(p, e) && d < |p.dispatchers|
    ensures DispatcherInv(Next(p, e), d)
  {
    assert DispatcherInv(p, d);
    if Actor(e) >= 0 {
      assert DispatcherInv(p, Actor(e));
    }
    var x := p.dispatchers[d];
    if x.pc.Claiming? || x.pc.Copying? || x.pc.Unlocking? {
      assert WorkerInv(p.workers[x.pc.i]);
    }
  }

  lemma StepKeepsWorker(p: Pool, e: Event, w: nat)
    requires Control(p) && Enabled(p, e) && w < |p.workers|
    ensures WorkerInv(Next(p, e).workers[w])
  {
    assert WorkerInv(p.workers[w]);
    if Actor(e) >= 0 {
      assert DispatcherInv(p, Actor(e));
    }
  }

  lemma StepKeepsIdle(p: Pool, e: Event)
    requires Control(p) && Enabled(p, e)
    ensures IdleInv(Next(p, e))
  {
    var t := Next(p, e);
    if Actor(e) >= 0 {
      assert DispatcherInv(p, Actor(e));
    }
    forall w | 0 <= w < |t.workers| && t.workers[w].pc.WaitLock? && t.workers[w].locked && t.workers[w].busy
      ensures 0 <= t.holder < |t.dispatchers| && Serving(t.dispatchers[t.holder], w)
        && !t.dispatchers[t.holder].pc.Claiming?
    {
      assert WorkerInv(p.workers[w]);
    }
  }

  lemma StepKeepsControl(p: Pool, e: Event)
    requires Control(p) && Enabled(p, e)
    ensures Control(Next(p, e))
  {
    var t := Next(p, e);
    forall d | 0 <= d < |t.dispatchers|
      ensures DispatcherInv(t, d)
    {
      StepKeepsDispatcher(p, e, d);
    }
    forall w | 0 <= w < |t.workers|
      ensures WorkerInv(t.workers[w])
    {
      StepKeepsWorker(p, e, w);
    }
    StepKeepsIdle(p, e);
  }

  lemma UnlockKeepsDelivery(p: Pool, d: nat)
    requires Inv(p) && Enabled(p, Unlock(d))
    ensures Delivery(Next(p, Unlock(d)))
  {
    var t := Next(p, Unlock(d));
    assert DispatcherInv(p, d);
    var i, task := p.dispatchers[d].pc.i, p.dispatchers[d].task;
    assert Pending(t.workers[i]) && t.workers[i].arg == task;
    assert task !in p.launched;
    forall x | x in t.launched && x !in t.started
      ensures Awaited(t, x)
    {
      if x != task {
        assert Awaited(p, x);
        var w :| 0 <= w < |p.workers| && Pending(p.workers[w]) && p.workers[w].arg == x;
        assert t.workers[w] == p.workers[w];
      }
    }
    forall w | 0 <= w < |p.workers|
      ensures AtWork(t, t.workers[w]) && (Occupied(p.workers[w]) ==> p.workers[w].arg in p.launched)
    {
      assert AtWork(p, p.workers[w]);
    }
    forall v, w | 0 <= v < w < |p.workers|
      ensures Apart(t.workers[v], t.workers[w])
    {
      assert Apart(p.workers[v], p.workers[w]);
    }
  }

  lemma StartKeepsDelivery(p: Pool, w: nat)
    requires Inv(p) && Enabled(p, Start(w))
    ensures Delivery(Next(p, Start(w)))
  {
    var t := Next(p, Start(w));
    assert Pending(p.workers[w]) && AtWork(p, p.workers[w]);
    assert t.started[|p.started|] == p.workers[w].arg;
    forall x | x in t.launched && x !in t.started
      ensures Awaited(t, x)
    {
      assert x !in p.started && Awaited(p, x);
      var v :| 0 <= v < |p.workers| && Pending(p.workers[v]) && p.workers[v].arg == x;
      assert v != w && t.workers[v] == p.workers[v];
    }
    forall v | 0 <= v < |p.workers|
      ensures AtWork(t, t.workers[v])
    {
      assert AtWork(p, p.workers[v]);
      assert v < w ==> Apart(p.workers[v], p.workers[w]);
      assert w < v ==> Apart(p.workers[w], p.workers[v]);
    }
    forall u, v | 0 <= u < v < |p.workers|
      ensures Apart(t.workers[u], t.workers[v])
    {
      assert Apart(p.workers[u], p.workers[v]);
    }
  }

  lemma FinishKeepsDelivery(p: Pool, w: nat)
    requires Inv(p) && Enabled(p, Finish(w))
    ensures Delivery(Next(p, Finish(w)))
  {
    var t := Next(p, Finish(w));
    assert AtWork(p, p.workers[w]);
    forall x | x in t.launched && x !in t.started
      ensures Awaited(t, x)
    {
      assert Awaited(p, x);
      var v :| 0 <= v < |p.workers| && Pending(p.workers[v]) && p.workers[v].arg == x;
      assert t.workers[v] == p.workers[v];
    }
    forall v | 0 <= v < |p.workers|
      ensures AtWork(t, t.workers[v])
    {
      assert AtWork(p, p.workers[v]);
      assert v < w ==> Apart(p.workers[v], p.workers[w]);
      assert w < v ==> Apart(p.workers[w], p.workers[v]);
    }
    forall u, v | 0 <= u < v < |p.workers|
      ensures Apart(t.workers[u], t.workers[v])
    {
      assert Apart(p.workers[u], p.workers[v]);
    }
  }

  /** As far as tasks go, the worker is where it was. */
  predicate SamePlace(was: Worker, now: Worker) {
    && Pending(now) == Pending(was) && now.pc.Running? == was.pc.Running?
    && (Occupied(was) ==> now.arg == was.arg)
  }

  /** The remaining steps do not change which tasks are pending or running where. */
  lemma OtherStepsKeepWorker(p: Pool, e: Event, w: nat)
    requires Control(p) && Enabled(p, e) && !e.Unlock? && !e.Start? && !e.Finish? && w < |p.workers|
    ensures SamePlace(p.workers[w], Next(p, e).workers[w])
  {
    if Actor(e) >= 0 {
      assert DispatcherInv(p, Actor(e));
    }
    assert WorkerInv(p.workers[w]);
  }

  lemma SamePlacement(p: Pool, t: Pool)
    requires Placement(p) && |t.workers| == |p.workers|
    requires t.launched == p.launched && t.started == p.started && t.finished == p.finished
    requires forall w :: 0 <= w < |p.workers| ==> SamePlace(p.workers[w], t.workers[w])
    ensures Placement(t)
  {
    forall x | x in t.launched && x !in t.started
      ensures Awaited(t, x)
    {
      assert Awaited(p, x);
      var v :| 0 <= v < |p.workers| && Pending(p.workers[v]) && p.workers[v].arg == x;
      assert SamePlace(p.workers[v], t.workers[v]);
    }
    forall w | 0 <= w < |t.workers|
      ensures AtWork(t, t.workers[w])
    {
      assert SamePlace(p.workers[w], t.workers[w]) && AtWork(p, p.workers[w]);
    }
    forall v, w | 0 <= v < w < |t.workers|
      ensures Apart(t.workers[v], t.workers[w])
    {
      assert SamePlace(p.workers[v], t.workers[v]) && SamePlace(p.workers[w], t.workers[w]);
      assert Apart(p.workers[v], p.workers[w]);
    }
  }

  lemma OtherStepsKeepDelivery(p: Pool, e: Event)
    requires Inv(p) && Enabled(p, e) && !e.Unlock? && !e.Start? && !e.Finish?
    ensures Delivery(Next(p, e))
  {
    var t := Next(p, e);
    forall w | 0 <= w < |p.workers|
      ensures SamePlace(p.workers[w], t.workers[w])
    {
      OtherStepsKeepWorker(p, e, w);
    }
    SamePlacement(p, t);
  }

  lemma CallKeepsAccounting(p: Pool, d: nat, input: int)
    requires Accounting(p) && Enabled(p, Call(d, input))
    ensures Accounting(Next(p, Call(d, input)))
  {
    var t := Next(p, Call(d, input));
    forall x | x in t.launched && x !in t.accepted
      ensures Returning(t, x)
    {
      var c :| 0 <= c < |p.dispatchers| && p.dispatchers[c].pc == Leaving(true) && p.dispatchers[c].task == x;
      assert t.dispatchers[c] == p.dispatchers[c];
    }
  }

  lemma LeaveKeepsAccounting(p: Pool, d: nat)
    requires Accounting(p) && Enabled(p, Leave(d))
    ensures Accounting(Next(p, Leave(d)))
  {
    var t := Next(p, Leave(d));
    forall x | x in t.launched && x !in t.accepted
      ensures Returning(t, x)
    {
      var c :| 0 <= c < |p.dispatchers| && p.dispatchers[c].pc == Leaving(true) && p.dispatchers[c].task == x;
      assert c != d && t.dispatchers[c] == p.dispatchers[c];
    }
  }

  lemma UnlockKeepsAccounting(p: Pool, d: nat)
    requires Accounting(p) && Enabled(p, Unlock(d))
    ensures Accounting(Next(p, Unlock(d)))
  {
    var t := Next(p, Unlock(d));
    forall x | x in t.launched && x !in t.accepted
      ensures Returning(t, x)
    {
      if x == p.dispatchers[d].task {
        assert t.dispatchers[d].pc == Leaving(true);
      } else {
        var c :| 0 <= c < |p.dispatchers| && p.dispatchers[c].pc == Leaving(true) && p.dispatchers[c].task == x;
        assert t.dispatchers[c] == p.dispatchers[c];
      }
    }
  }

  lemma OtherStepsKeepAccounting(p: Pool, e: Event)
    requires Accounting(p) && Enabled(p, e) && !e.Call? && !e.Leave? && !e.Unlock?
    ensures Accounting(Next(p, e))
  {
    var t := Next(p, e);
    forall d | 0 <= d < |p.dispatchers|
      ensures t.dispatchers[d].task == p.dispatchers[d].task
      ensures t.dispatchers[d].pc.Outside? == p.dispatchers[d].pc.Outside?
      ensures (t.dispatchers[d].pc == Leaving(true)) == (p.dispatchers[d].pc == Leaving(true))
    {
    }
    forall x | x in t.launched && x !in t.accepted
      ensures Returning(t, x)
    {
      var c :| 0 <= c < |p.dispatchers| && p.dispatchers[c].pc == Leaving(true) && p.dispatchers[c].task == x;
      assert t.dispatchers[c].task == x;
    }
  }

  lemma StepKeepsAccounting(p: Pool, e: Event)
    requires Inv(p) && Enabled(p, e)
    ensures Accounting(Next(p, e))
  {
    match e
    case Call(d, input) => CallKeepsAccounting(p, d, input);
    case Unlock(d) => UnlockKeepsAccounting(p, d);
    case Leave(d) => LeaveKeepsAccounting(p, d);
    case _ => OtherStepsKeepAccounting(p, e);
  }

  lemma StepKeepsInv(p: Pool, e: Event)
    requires Inv(p) && Enabled(p, e)
    ensures Inv(Next(p, e))
  {
    StepKeepsControl(p, e);
    StepKeepsAccounting(p, e);
    match e
    case Unlock(d) => UnlockKeepsDelivery(p, d);
    case Start(w) => StartKeepsDelivery(p, w);
    case Finish(w) => FinishKeepsDelivery(p, w);
    case _ => OtherStepsKeepDelivery(p, e);
  }

  lemma InitInv(n: nat, m: nat)
    ensures Inv(InitPool(n, m))
  {
  }

  lemma StepKeepsSizes(p: Pool, e: Event)
    requires Enabled(p, e)
    ensures |Next(p, e).workers| == |p.workers| && |Next(p, e).dispatchers| == |p.dispatchers|
  {
  }

  lemma {:induction false} InvOnEveryRun(n: nat, m: nat, pools: seq<Pool>, events: seq<Event>, k: nat)
    requires IsRun(n, m, pools, events) && k <= |events|
    ensures Inv(pools[k]) && |pools[k].workers| == n && |pools[k].dispatchers| == m
  {
    if k == 0 {
      InitInv(n, m);
    } else {
      InvOnEveryRun(n, m, pools, events, k - 1);
      var p, e := pools[k - 1], events[k - 1];
      StepKeepsInv(p, e);
      StepKeepsSizes(p, e);
      assert pools[k] == Next(p, e);
    }
  }

  // ----- the main results -----

  /** A task for which `run_task` returned 1 is started at most once; until then it waits, with its own argument, at
      exactly one worker, which can take it; a refused task is never started, and nothing is started uncalled. */
  lemma HandOffIsExactlyOnce(n: nat, m: nat, pools: seq<Pool>, events: seq<Event>, k: nat, task: Task)
    requires IsRun(n, m, pools, events) && k <= |events|
    ensures var p := pools[k];
      && multiset(p.started)[task] <= 1 && multiset(p.finished)[task] <= multiset(p.started)[task]
      && (task in p.accepted && task !in p.started ==>
            exists w :: 0 <= w < n && |p.workers| == n && Pending(p.workers[w]) && p.workers[w].arg == task
              && (Enabled(p, Wake(w)) || Enabled(p, Start(w)))
              && forall v :: 0 <= v < n && Occupied(p.workers[v]) && p.workers[v].arg == task ==> v == w)
      && (task in p.refused ==> task !in p.started && task !in p.accepted)
      && (task in p.started && task !in p.accepted ==> Returning(p, task))
  {
    InvOnEveryRun(n, m, pools, events, k);
    var p := pools[k];
    NoDupCountsOnce(p.started, task);
    NoDupCountsOnce(p.finished, task);
    if task in p.accepted && task !in p.started {
      var w :| 0 <= w < |p.workers| && Pending(p.workers[w]) && p.workers[w].arg == task;
      assert Enabled(p, Wake(w)) || Enabled(p, Start(w));
    }
  }

  // ----- an accepted task is executed as soon as its worker takes its steps -----

  /** The worker whose own step this is, or `-1`. */
  function WorkerOf(e: Event): int {
    match e
    case LockFirst(w) => w
    case GoIdle(w) => w
    case Wake(w) => w
    case Start(w) => w
    case Finish(w) => w
    case _ => -1
  }

  /** How many of its own steps a worker takes from step `k` on before step `n`. */
  function OwnSteps(events: seq<Event>, w: nat, k: nat, n: nat): nat
    requires k <= n <= |events|
    decreases n
  {
    if k == n then 0 else OwnSteps(events, w, k, n - 1) + (if WorkerOf(events[n - 1]) == w then 1 else 0)
  }

  /** How many of its own steps an occupied worker has to take until its function has returned. */
  function Rank(w: Worker): nat {
    if w.pc.Running? then 1 else if w.pc.Starting? then 2 else 3
  }

  /** An own step of an occupied worker lowers its rank, and a step of anyone else leaves it alone. */
  lemma StepLowersRank(p: Pool, e: Event, w: nat)
    requires Control(p) && Enabled(p, e) && w < |p.workers| && Occupied(p.workers[w])
    ensures var was, now, t := p.workers[w], Next(p, e).workers[w], Next(p, e);
      && p.started <= t.started && p.finished <= t.finished && now.arg == was.arg
      && (WorkerOf(e) != w ==> now == was)
      && (WorkerOf(e) == w && Rank(was) > 1 ==> Occupied(now) && now.arg == was.arg && Rank(now) == Rank(was) - 1)
      && (WorkerOf(e) == w && Rank(was) == 2 ==> t.started == p.started + [was.arg] && was.arg in t.started)
      && (WorkerOf(e) == w && Rank(was) == 1 ==> t.finished == p.finished + [was.arg] && was.arg in t.finished)
  {
    if Actor(e) >= 0 {
      assert DispatcherInv(p, Actor(e));
    }
    assert WorkerInv(p.workers[w]);
    assert p.workers[w].arg in p.started + [p.workers[w].arg] && p.workers[w].arg in p.finished + [p.workers[w].arg];
  }

  lemma {:induction false} HistoriesGrow(n: nat, m: nat, pools: seq<Pool>, events: seq<Event>, k: nat, l: nat)
    requires IsRun(n, m, pools, events) && k <= l <= |events|
    ensures pools[k].started <= pools[l].started && pools[k].finished <= pools[l].finished
    decreases l
  {
    if k < l {
      HistoriesGrow(n, m, pools, events, k, l - 1);
      assert pools[l] == Next(pools[l - 1], events[l - 1]);
    }
  }

  /** How far `steps` own steps have brought the task of an occupied worker that was `was`. */
  ghost predicate Executed(was: Worker, p: Pool, w: nat, steps: nat)
    requires w < |p.workers|
  {
    && (steps < Rank(was) ==>
          Occupied(p.workers[w]) && p.workers[w].arg == was.arg && Rank(p.workers[w]) == Rank(was) - steps)
    && (Rank(was) > 1 && steps >= Rank(was) - 1 ==> was.arg in p.started)
    && (steps >= Rank(was) ==> was.arg in p.finished)
  }

  lemma StepExecutes(was: Worker, p: Pool, e: Event, w: nat, steps: nat)
    requires Control(p) && Enabled(p, e) && w < |p.workers| && Executed(was, p, w, steps)
    ensures w < |Next(p, e).workers|
    ensures Executed(was, Next(p, e), w, steps + (if WorkerOf(e) == w then 1 else 0))
  {
    if steps < Rank(was) {
      StepLowersRank(p, e, w);
    } else {
      assert p.started <= Next(p, e).started && p.finished <= Next(p, e).finished;
    }
  }

  /** Its own steps bring an occupied worker's task from launched to started to finished. */
  lemma {:induction false} OwnStepsExecute(n: nat, m: nat, pools: seq<Pool>, events: seq<Event>, k: nat, l: nat, w: nat)
    requires IsRun(n, m, pools, events) && k <= l <= |events| && w < n
    requires |pools[k].workers| == n && Occupied(pools[k].workers[w])
    ensures |pools[l].workers| == n && Executed(pools[k].workers[w], pools[l], w, OwnSteps(events, w, k, l))
    decreases l
  {
    if k < l {
      OwnStepsExecute(n, m, pools, events, k, l - 1, w);
      ControlOnEveryRun(n, m, pools, events, l - 1);
      StepKeepsSizes(pools[l - 1], events[l - 1]);
      StepExecutes(pools[k].workers[w], pools[l - 1], events[l - 1], w, OwnSteps(events, w, k, l - 1));
    }
  }

  lemma ControlOnEveryRun(n: nat, m: nat, pools: seq<Pool>, events: seq<Event>, k: nat)
    requires IsRun(n, m, pools, events) && k < |events|
    ensures Control(pools[k]) && Enabled(pools[k], events[k]) && pools[k + 1] == Next(pools[k], events[k])
  {
    InvOnEveryRun(n, m, pools, events, k);
  }

  /** Exactly once, the other half: a task for which `run_task` has returned 1 by step `k` waits at one worker or has been
      started, and once that worker has taken two steps of its own it has been started, with its own argument. */
  lemma AcceptedTasksAreStarted(n: nat, m: nat, pools: seq<Pool>, events: seq<Event>, k: nat, task: Task) returns (w: nat)
    requires IsRun(n, m, pools, events) && k <= |events| && task in pools[k].accepted
    ensures task !in pools[k].started ==> w < n == |pools[k].workers| && pools[k].workers[w].arg == task
    ensures forall l :: k <= l <= |events| && (task !in pools[k].started ==> OwnSteps(events, w, k, l) >= 2) ==>
              multiset(pools[l].started)[task] == 1
  {
    InvOnEveryRun(n, m, pools, events, k);
    w := 0;
    if task !in pools[k].started {
      assert Awaited(pools[k], task);
      w :| 0 <= w < |pools[k].workers| && Pending(pools[k].workers[w]) && pools[k].workers[w].arg == task;
    }
    forall l | k <= l <= |events| && (task !in pools[k].started ==> OwnSteps(events, w, k, l) >= 2)
      ensures multiset(pools[l].started)[task] == 1
    {
      InvOnEveryRun(n, m, pools, events, l);
      if task in pools[k].started {
        HistoriesGrow(n, m, pools, events, k, l);
      } else {
        OwnStepsExecute(n, m, pools, events, k, l, w);
      }
      NoDupCountsOnce(pools[l].started, task);
    }
  }

  // ----- what a dispatcher and a worker can rely on -----

  /** From the launch until the function returns, nobody overwrites a worker's argument. */
  lemma ArgumentIsStable(n: nat, m: nat, pools: seq<Pool>, events: seq<Event>, k: nat, w: nat)
    requires IsRun(n, m, pools, events) && k < |events| && w < n
    ensures |pools[k].workers| == |pools[k + 1].workers| == n
    ensures Occupied(pools[k].workers[w]) ==>
      pools[k + 1].workers[w].arg == pools[k].workers[w].arg
      && (Occupied(pools[k + 1].workers[w]) || events[k] == Finish(w))
  {
    InvOnEveryRun(n, m, pools, events, k);
    InvOnEveryRun(n, m, pools, events, k + 1);
    if Occupied(pools[k].workers[w]) {
      StepLowersRank(pools[k], events[k], w);
    }
  }

  /** A dispatcher unlocks a control lock only while it is held, by a worker that is not running anything. */
  lemma UnlockFindsTheLockHeld(n: nat, m: nat, pools: seq<Pool>, events: seq<Event>, k: nat, d: nat)
    requires IsRun(n, m, pools, events) && k < |events| && events[k] == Unlock(d)
    ensures d < m && |pools[k].dispatchers| == m && pools[k].dispatchers[d].pc.Unlocking?
    ensures var i := pools[k].dispatchers[d].pc.i;
      i < |pools[k].workers| && pools[k].workers[i].locked && pools[k].workers[i].pc.WaitLock?
  {
    InvOnEveryRun(n, m, pools, events, k);
    assert DispatcherInv(pools[k], d);
  }

  /** A worker whose flag is down has nothing to do, so a refusal means that each flag was up when it was read. */
  lemma IdleFlagIsTruthful(n: nat, m: nat, pools: seq<Pool>, events: seq<Event>, k: nat, w: nat)
    requires IsRun(n, m, pools, events) && k <= |events| && w < n
    ensures |pools[k].workers| == n
    ensures !pools[k].workers[w].busy ==> !Occupied(pools[k].workers[w]) && pools[k].workers[w].locked
  {
    InvOnEveryRun(n, m, pools, events, k);
    assert WorkerInv(pools[k].workers[w]);
  }

  // ----- what a call of run_task finds -----

  /** Earlier in the call that handles `task`, the dispatcher looked at worker `i` and found it busy. */
  ghost predicate FoundBusy(pools: seq<Pool>, events: seq<Event>, k: nat, d: nat, task: Task, i: nat)
    requires |pools| == |events| + 1 && k <= |events|
  {
    exists h {:trigger events[h]} :: 0 <= h < k && events[h] == Look(d)
      && d < |pools[h].dispatchers| && pools[h].dispatchers[d] == Dispatcher(Looking(i), task)
      && i < |pools[h].workers| && pools[h].workers[i].busy
  }

  /** The workers that a dispatcher has gone past in its call. */
  predicate HasPassed(x: Dispatcher, i: nat) {
    x.pc == Leaving(false)
    || ((x.pc.Looking? || x.pc.Claiming? || x.pc.Copying? || x.pc.Unlocking?) && i < x.pc.i)
  }

  lemma PassedMeansBusy(pools: seq<Pool>, events: seq<Event>, k: nat, d: nat, i: nat)
    requires |pools| == |events| + 1 && k < |events|
    requires Enabled(pools[k], events[k]) && pools[k + 1] == Next(pools[k], events[k])
    requires d < |pools[k].dispatchers| && i < |pools[k].workers| && HasPassed(pools[k + 1].dispatchers[d], i)
    requires var x := pools[k].dispatchers[d];
      && (HasPassed(x, i) ==> FoundBusy(pools, events, k, d, x.task, i))
      && (x.pc.Looking? ==> x.pc.i <= |pools[k].workers|)
    ensures FoundBusy(pools, events, k + 1, d, pools[k + 1].dispatchers[d].task, i)
  {
    var x, e := pools[k].dispatchers[d], events[k];
    if HasPassed(x, i) {
      assert pools[k + 1].dispatchers[d].task == x.task;
      var h :| 0 <= h < k && events[h] == Look(d)
        && d < |pools[h].dispatchers| && pools[h].dispatchers[d] == Dispatcher(Looking(i), x.task)
        && i < |pools[h].workers| && pools[h].workers[i].busy;
      assert events[h] == Look(d);
    } else {
      assert e == Look(d) && x.pc == Looking(i) && x == Dispatcher(Looking(i), x.task);
      assert events[k] == Look(d);
    }
  }

  lemma {:induction false} LooksInTurn(n: nat, m: nat, pools: seq<Pool>, events: seq<Event>, k: nat, d: nat)
    requires IsRun(n, m, pools, events) && k <= |events| && d < m
    ensures |pools[k].workers| == n && |pools[k].dispatchers| == m
    ensures var x := pools[k].dispatchers[d];
      && (forall i: nat :: i < n && HasPassed(x, i) ==> FoundBusy(pools, events, k, d, x.task, i))
      && (x.pc.Looking? ==> x.pc.i <= n)
  {
    InvOnEveryRun(n, m, pools, events, k);
    if k > 0 {
      var h := k - 1;
      LooksInTurn(n, m, pools, events, h, d);
      InvOnEveryRun(n, m, pools, events, h);
      assert pools[k] == Next(pools[h], events[h]) && Enabled(pools[h], events[h]);
      forall i: nat | i < n && HasPassed(pools[k].dispatchers[d], i)
        ensures FoundBusy(pools, events, k, d, pools[k].dispatchers[d].task, i)
      {
        PassedMeansBusy(pools, events, h, d, i);
      }
    }
  }

  /** A call returns 0 if and only if its task has not been launched, and then it has found every worker busy; a call that
      launches takes the first worker that it has not found busy.  What it returns is remembered. */
  lemma CallsTakeTheFirstIdleWorker(n: nat, m: nat, pools: seq<Pool>, events: seq<Event>, k: nat, d: nat)
    requires IsRun(n, m, pools, events) && k < |events| && d < m && (events[k] == Unlock(d) || events[k] == Leave(d))
    ensures |pools[k].workers| == |pools[k + 1].workers| == n && |pools[k].dispatchers| == m
    ensures var p, t, x := pools[k], pools[k + 1], pools[k].dispatchers[d];
      if events[k] == Unlock(d) then
        && x.pc.Unlocking? && x.pc.i < n && Occupied(t.workers[x.pc.i]) && t.workers[x.pc.i].arg == x.task
        && t.launched == p.launched + [x.task]
        && forall i :: 0 <= i < x.pc.i ==> FoundBusy(pools, events, k, d, x.task, i)
      else
        && x.pc == Leaving(x.task in p.launched)
        && (if x.task in p.launched then t.accepted == p.accepted + {x.task} && t.refused == p.refused
            else
              && t.accepted == p.accepted && t.refused == p.refused + {x.task}
              && forall i :: 0 <= i < n ==> FoundBusy(pools, events, k, d, x.task, i))
  {
    LooksInTurn(n, m, pools, events, k, d);
    InvOnEveryRun(n, m, pools, events, k);
    var p := pools[k];
    StepKeepsSizes(p, events[k]);
    assert DispatcherInv(p, d) && pools[k + 1] == Next(p, events[k]);
    var x := p.dispatchers[d];
    forall i: nat | i < n && HasPassed(x, i)
      ensures FoundBusy(pools, events, k, d, x.task, i)
    {
    }
    if events[k] == Leave(d) && !x.pc.suc {
      assert forall i: nat :: i < n ==> HasPassed(x, i);
    }
    if events[k] == Unlock(d) {
      assert forall i: nat :: i < x.pc.i ==> HasPassed(x, i);
    }
  }
}
