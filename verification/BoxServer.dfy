/** The csiebox server on top of its thread pool: the main loop hands each readable connection to a worker and keeps it
    out of the next scan with the `in_thread` flag. */
module BoxServer {
  import opened ThreadPool

  /** The scan goes through the descriptors below this one. */
  const MAX_CONN := 1024

  /** Where the scan is: about to test whether connection `i` can be read from, or whether it counts.  The flag is read for
      each of the two tests.  `counted` is history. */
  datatype ScanPc =
    | NoScan
    | Testing(i: int, count: nat, counted: set<int>)
    | Counting(i: int, count: nat, counted: set<int>)

  /** `clients` maps each connection that is logged in to its `in_thread` flag.  The main loop is the pool's only
      dispatcher; `readset` holds the connections that it has still to go through.  `released` are the workers that have
      cleared the flag of their connection and whose function has still to return. */
  datatype Server = Server(pool: Pool, clients: map<int, bool>, readset: set<int>, activeThreadNum: nat, scan: ScanPc,
                           released: set<nat>)

  datatype ServerEvent =
    | StartScan
    | ScanStep                       // one of the two tests, or the end of the scan
    | Accept(conn: int)              // a new connection logs in
    | ChooseThread(conn: int)        // set the flag and call run_task
    | PoolStep(step: Event)
    | Return(logout: bool)           // run_task returns; a refused connection is answered or found closed
    | ClearFlag(w: nat, logout: bool)
    | FinishTask(w: nat)
    | Relogin(w: nat)                // a dispatched request logs its own connection in again

  function Main(s: Server): DispatcherPc
    requires |s.pool.dispatchers| == 1
  {
    s.pool.dispatchers[0].pc
  }

  predicate EnabledServer(s: Server, e: ServerEvent)
    requires |s.pool.dispatchers| == 1
  {
    match e
    case StartScan => Main(s).Outside? && s.scan.NoScan?
    case ScanStep => !s.scan.NoScan?
    case Accept(conn) => Main(s).Outside? && s.scan.NoScan? && conn !in s.clients
    case ChooseThread(conn) => Main(s).Outside? && s.scan.NoScan? && conn in s.readset
    case PoolStep(step) => !step.Call? && !step.Leave? && !step.Finish? && Enabled(s.pool, step)
    case Return(_) => Main(s).Leaving?
    case ClearFlag(w, _) => Enabled(s.pool, Finish(w)) && w !in s.released
    case FinishTask(w) => Enabled(s.pool, Finish(w)) && w in s.released
    case Relogin(w) => Enabled(s.pool, Finish(w)) && w !in s.released
  }

  function Flagged(clients: map<int, bool>): set<int> {
    set c | c in clients && clients[c]
  }

  /** What happens to a connection once its request has been handled; the logout takes the flag with it. */
  function Handled(clients: map<int, bool>, conn: int, logout: bool): map<int, bool> {
    if logout then clients - {conn}
    else if conn in clients then clients[conn := false] else clients
  }

  predicate IsUp(clients: map<int, bool>, conn: int) {
    conn in clients && clients[conn]
  }

  function Scanned(s: Server): Server
    requires !s.scan.NoScan?
  {
    match s.scan
    case Testing(i, count, counted) =>
      if i >= MAX_CONN then s.(activeThreadNum := count, scan := NoScan)
      else s.(scan := Counting(i, count, counted),
              readset := if i in s.clients && !s.clients[i] then s.readset + {i} else s.readset)
    case Counting(i, count, counted) =>
      if IsUp(s.clients, i) then s.(scan := Testing(i + 1, count + 1, counted + {i}))
      else s.(scan := Testing(i + 1, count, counted))
  }

  function NextServer(s: Server, e: ServerEvent): Server
    requires |s.pool.dispatchers| == 1 && EnabledServer(s, e)
  {
    match e
    case StartScan => s.(readset := {}, scan := Testing(2, 0, {}))
    case ScanStep => Scanned(s)
    case Accept(conn) => s.(clients := s.clients[conn := false])
    case ChooseThread(conn) =>
      s.(clients := s.clients[conn := true], readset := s.readset - {conn}, pool := Next(s.pool, Call(0, conn)))
    case PoolStep(step) => s.(pool := Next(s.pool, step))
    case Return(logout) =>
      var task := s.pool.dispatchers[0].task;
      s.(pool := Next(s.pool, Leave(0)),
         clients := if Main(s).suc then s.clients else Handled(s.clients, task.input, logout))
    case ClearFlag(w, logout) =>
      s.(clients := Handled(s.clients, s.pool.workers[w].arg.input, logout), released := s.released + {w})
    case FinishTask(w) => s.(pool := Next(s.pool, Finish(w)), released := s.released - {w})
    case Relogin(w) => s.(clients := s.clients[s.pool.workers[w].arg.input := false])
  }

  function InitServer(n: nat): Server {
    Server(InitPool(n, 1), map[], {}, 0, NoScan, {})
  }

  ghost predicate IsServerRun(n: nat, servers: seq<Server>, events: seq<ServerEvent>) {
    && |servers| == |events| + 1
    && servers[0] == InitServer(n)
    && (forall i :: 0 <= i < |servers| ==> |servers[i].pool.dispatchers| == 1)
    && forall i {:trigger events[i]} :: 0 <= i < |events| ==>
         EnabledServer(servers[i], events[i]) && servers[i + 1] == NextServer(servers[i], events[i])
  }

  ghost predicate NobodyLogsInAgain(events: seq<ServerEvent>) {
    forall i :: 0 <= i < |events| ==> !events[i].Relogin?
  }

  // ----- the invariant -----

  /** The connection that the main loop is trying to hand over. */
  predicate InHand(p: Pool, conn: int)
    requires |p.dispatchers| == 1
  {
    !p.dispatchers[0].pc.Outside? && p.dispatchers[0].pc != Leaving(true) && p.dispatchers[0].task.input == conn
  }

  /** A worker has the connection of its task until it clears the flag. */
  predicate Handles(s: Server, w: nat)
    requires w < |s.pool.workers|
  {
    Occupied(s.pool.workers[w]) && w !in s.released
  }

  ghost predicate HasWorker(s: Server, conn: int) {
    exists w :: 0 <= w < |s.pool.workers| && Handles(s, w) && s.pool.workers[w].arg.input == conn
  }

  ghost predicate Exclusive(s: Server)
    requires |s.pool.dispatchers| == 1
  {
    && (forall c :: c in s.readset ==> c in s.clients && !s.clients[c])
    && (forall c :: c in s.clients && s.clients[c] ==> InHand(s.pool, c) || HasWorker(s, c))
    && (forall c :: InHand(s.pool, c) ==> IsUp(s.clients, c) && !HasWorker(s, c))
    && (forall w :: 0 <= w < |s.pool.workers| && Handles(s, w) ==> IsUp(s.clients, s.pool.workers[w].arg.input))
    && (forall v, w :: 0 <= v < w < |s.pool.workers| && Handles(s, v) && Handles(s, w) ==>
          s.pool.workers[v].arg.input != s.pool.workers[w].arg.input)
    && (forall w :: w in s.released ==> w < |s.pool.workers| && s.pool.workers[w].pc.Running?)
  }

  /** The flags that are up at or behind descriptor `i`. */
  function Ahead(clients: map<int, bool>, i: int): (cs: set<int>)
    ensures forall c :: c in cs <==> IsUp(clients, c) && c >= i
  {
    set c | c in clients && clients[c] && c >= i
  }

  /** While the scan is on, nothing is dispatched, and the connections counted so far and those whose flag is still up ahead
      are no more than there are workers. */
  ghost predicate ScanInv(s: Server)
    requires |s.pool.dispatchers| == 1
  {
    !s.scan.NoScan? ==>
      && Main(s).Outside?
      && s.scan.count == |s.scan.counted|
      && (forall c :: c in s.scan.counted ==> c < s.scan.i)
      && |s.scan.counted + Ahead(s.clients, s.scan.i)| <= |s.pool.workers|
  }

  ghost predicate ServerInv(s: Server) {
    && |s.pool.dispatchers| == 1 && Inv(s.pool) && Exclusive(s) && ScanInv(s)
    && s.activeThreadNum <= |s.pool.workers|
  }

  // ----- every step keeps the invariant -----

  /** A step of the pool changes who is occupied only by a launch or by the end of a task. */
  lemma OccupationChanges(p: Pool, e: Event, w: nat)
    requires Control(p) && Enabled(p, e) && w < |p.workers|
    ensures var t := Next(p, e);
      && |t.workers| == |p.workers|
      && (Occupied(p.workers[w]) ==> t.workers[w].arg == p.workers[w].arg)
      && (e.Unlock? ==> p.dispatchers[e.d].pc.i < |p.workers| && !Occupied(p.workers[p.dispatchers[e.d].pc.i]))
      && (Occupied(t.workers[w]) <==>
            (Occupied(p.workers[w]) && e != Finish(w)) || (e.Unlock? && p.dispatchers[e.d].pc.i == w))
      && (e.Unlock? && p.dispatchers[e.d].pc.i == w ==> t.workers[w].arg == p.dispatchers[e.d].task)
  {
    if Actor(e) >= 0 {
      assert DispatcherInv(p, Actor(e));
    }
    assert WorkerInv(p.workers[w]);
  }

  lemma QuietStepKeepsExclusive(s: Server, t: Server, e: Event)
    requires |s.pool.dispatchers| == 1 && Control(s.pool) && Exclusive(s)
    requires Enabled(s.pool, e) && !e.Unlock? && !e.Finish? && !e.Call? && !e.Leave?
    requires t == s.(pool := Next(s.pool, e))
    ensures |t.pool.dispatchers| == 1 && Exclusive(t)
  {
    forall w | 0 <= w < |s.pool.workers|
      ensures Handles(t, w) == Handles(s, w)
      ensures Occupied(s.pool.workers[w]) ==> t.pool.workers[w].arg == s.pool.workers[w].arg
    {
      OccupationChanges(s.pool, e, w);
    }
    forall c
      ensures HasWorker(t, c) == HasWorker(s, c)
      ensures InHand(t.pool, c) == InHand(s.pool, c)
    {
      if HasWorker(s, c) {
        HandlingStays(s, t, c);
      }
    }
  }

  lemma HandlingStays(s: Server, t: Server, c: int)
    requires HasWorker(s, c) && |t.pool.workers| == |s.pool.workers|
    requires forall w :: 0 <= w < |s.pool.workers| && Handles(s, w) && s.pool.workers[w].arg.input == c ==>
               Handles(t, w) && t.pool.workers[w].arg == s.pool.workers[w].arg
    ensures HasWorker(t, c)
  {
    var w :| 0 <= w < |s.pool.workers| && Handles(s, w) && s.pool.workers[w].arg.input == c;
    assert Handles(t, w);
  }

  lemma UnlockKeepsExclusive(s: Server, t: Server)
    requires |s.pool.dispatchers| == 1 && Control(s.pool) && Exclusive(s)
    requires Enabled(s.pool, Unlock(0)) && t == s.(pool := Next(s.pool, Unlock(0)))
    ensures |t.pool.dispatchers| == 1 && Exclusive(t)
  {
    var i, conn := s.pool.dispatchers[0].pc.i, s.pool.dispatchers[0].task.input;
    assert InHand(s.pool, conn);
    forall w | 0 <= w < |s.pool.workers|
      ensures i < |s.pool.workers| && !Occupied(s.pool.workers[i])
      ensures Handles(t, w) <==> Handles(s, w) || w == i
      ensures Occupied(s.pool.workers[w]) ==> t.pool.workers[w].arg == s.pool.workers[w].arg
      ensures w == i ==> t.pool.workers[w].arg.input == conn
    {
      OccupationChanges(s.pool, Unlock(0), w);
    }
    assert HasWorker(t, conn) by {
      assert Handles(t, i);
    }
    forall c | HasWorker(s, c)
      ensures HasWorker(t, c)
    {
      HandlingStays(s, t, c);
    }
    assert forall w :: 0 <= w < |s.pool.workers| && Handles(s, w) ==> HasWorker(s, s.pool.workers[w].arg.input);
  }

  /** Clearing the flag ends the hold on the connection. */
  lemma ClearKeepsExclusive(s: Server, w: nat, logout: bool)
    requires |s.pool.dispatchers| == 1 && Exclusive(s) && EnabledServer(s, ClearFlag(w, logout))
    ensures Exclusive(NextServer(s, ClearFlag(w, logout)))
  {
    var t := NextServer(s, ClearFlag(w, logout));
    var conn := s.pool.workers[w].arg.input;
    assert forall v :: 0 <= v < |s.pool.workers| ==> (Handles(t, v) <==> Handles(s, v) && v != w);
    assert HasWorker(s, conn) by {
      assert Handles(s, w);
    }
    forall c
      ensures HasWorker(t, c) <==> HasWorker(s, c) && c != conn
    {
      if HasWorker(s, c) && c != conn {
        HandlingStays(s, t, c);
      }
    }
  }

  /** The return of the function then changes nothing of it. */
  lemma FinishKeepsExclusive(s: Server, w: nat)
    requires |s.pool.dispatchers| == 1 && Control(s.pool) && Exclusive(s) && EnabledServer(s, FinishTask(w))
    ensures var t := NextServer(s, FinishTask(w)); |t.pool.dispatchers| == 1 && Exclusive(t)
  {
    var t := NextServer(s, FinishTask(w));
    forall v | 0 <= v < |s.pool.workers|
      ensures Handles(t, v) <==> Handles(s, v)
      ensures Occupied(s.pool.workers[v]) ==> t.pool.workers[v].arg == s.pool.workers[v].arg
    {
      OccupationChanges(s.pool, Finish(w), v);
    }
    forall c
      ensures HasWorker(t, c) <==> HasWorker(s, c)
      ensures InHand(t.pool, c) == InHand(s.pool, c)
    {
      if HasWorker(s, c) {
        HandlingStays(s, t, c);
      }
    }
  }

  lemma ChooseKeepsExclusive(s: Server, conn: int)
    requires |s.pool.dispatchers| == 1 && Exclusive(s) && EnabledServer(s, ChooseThread(conn))
    ensures var t := NextServer(s, ChooseThread(conn)); |t.pool.dispatchers| == 1 && Exclusive(t)
  {
    var t := NextServer(s, ChooseThread(conn));
    assert t.pool.workers == s.pool.workers;
    assert forall w :: 0 <= w < |s.pool.workers| ==> Handles(t, w) == Handles(s, w);
    assert forall c :: HasWorker(t, c) == HasWorker(s, c);
    assert forall c :: InHand(t.pool, c) <==> c == conn;
    assert !s.clients[conn];
  }

  lemma ReturnKeepsExclusive(s: Server, logout: bool)
    requires |s.pool.dispatchers| == 1 && Exclusive(s) && EnabledServer(s, Return(logout))
    ensures var t := NextServer(s, Return(logout)); |t.pool.dispatchers| == 1 && Exclusive(t)
  {
    var t := NextServer(s, Return(logout));
    var conn := s.pool.dispatchers[0].task.input;
    assert t.pool.workers == s.pool.workers;
    assert forall w :: 0 <= w < |s.pool.workers| ==> Handles(t, w) == Handles(s, w);
    assert forall c :: HasWorker(t, c) == HasWorker(s, c);
    assert forall c :: !InHand(t.pool, c);
    if !Main(s).suc {
      assert InHand(s.pool, conn);
      assert forall w :: 0 <= w < |s.pool.workers| && Handles(s, w) ==> HasWorker(s, s.pool.workers[w].arg.input);
    }
  }

  lemma SameHandling(s: Server, t: Server)
    requires |s.pool.dispatchers| == 1 && Exclusive(s) && t.pool == s.pool && t.released == s.released
    requires forall c :: c in t.readset ==> c in t.clients && !t.clients[c]
    requires forall c :: IsUp(t.clients, c) <==> IsUp(s.clients, c)
    ensures Exclusive(t)
  {
    assert forall w :: 0 <= w < |s.pool.workers| ==> Handles(t, w) == Handles(s, w);
    assert forall c :: HasWorker(t, c) == HasWorker(s, c);
    assert forall c :: c in t.clients && t.clients[c] ==> IsUp(s.clients, c);
  }

  /** The connections that the first workers have. */
  function WorkingConns(s: Server, n: nat): (cs: set<int>)
    requires n <= |s.pool.workers|
    ensures |cs| <= n
    ensures forall w :: 0 <= w < n && Handles(s, w) ==> s.pool.workers[w].arg.input in cs
  {
    if n == 0 then {}
    else
      var rest := WorkingConns(s, n - 1);
      if Handles(s, n - 1) then rest + {s.pool.workers[n - 1].arg.input} else rest
  }

  lemma SmallerSet(a: set<int>, b: set<int>)
    requires a <= b
    ensures |a| <= |b|
  {
    assert b == a + (b - a);
  }

  /** When the main loop is not in `run_task`, each flag that is up stands for a worker of its own. */
  lemma FlagsAreWorkers(s: Server)
    requires ServerInv(s) && Main(s).Outside?
    ensures |Flagged(s.clients)| <= |s.pool.workers|
  {
    var cs := WorkingConns(s, |s.pool.workers|);
    forall c | c in Flagged(s.clients)
      ensures c in cs
    {
      assert HasWorker(s, c);
    }
    SmallerSet(Flagged(s.clients), cs);
  }

  // ----- the scan -----

  /** A step that raises no flag and leaves the scan where it is keeps the bound. */
  lemma LoweringKeepsScan(s: Server, t: Server)
    requires |s.pool.dispatchers| == |t.pool.dispatchers| == 1 && ScanInv(s)
    requires t.scan == s.scan && |t.pool.workers| == |s.pool.workers| && (Main(s).Outside? ==> Main(t).Outside?)
    requires forall c :: IsUp(t.clients, c) ==> IsUp(s.clients, c)
    ensures ScanInv(t)
  {
    if !s.scan.NoScan? {
      SmallerSet(s.scan.counted + Ahead(t.clients, s.scan.i), s.scan.counted + Ahead(s.clients, s.scan.i));
    }
  }

  lemma StartKeepsScan(s: Server)
    requires ServerInv(s) && EnabledServer(s, StartScan)
    ensures ScanInv(NextServer(s, StartScan))
  {
    FlagsAreWorkers(s);
    SmallerSet({} + Ahead(s.clients, 2), Flagged(s.clients));
  }

  /** A connection that counts moves from those ahead to those counted. */
  lemma OneMoreCounted(clients: map<int, bool>, counted: set<int>, i: int, n: int)
    requires n == i + 1 && forall c :: c in counted ==> c < i
    ensures var counted' := if IsUp(clients, i) then counted + {i} else counted;
      && counted' + Ahead(clients, n) == counted + Ahead(clients, i)
      && |counted'| == |counted| + (if IsUp(clients, i) then 1 else 0)
      && forall c :: c in counted' ==> c < n
  {
    var counted' := if IsUp(clients, i) then counted + {i} else counted;
    assert forall c :: c in counted' + Ahead(clients, n) <==> c in counted + Ahead(clients, i);
  }

  /** So the number that is published in the end is no more than there are workers. */
  lemma ScanKeepsScan(s: Server)
    requires |s.pool.dispatchers| == 1 && ScanInv(s) && !s.scan.NoScan? && s.activeThreadNum <= |s.pool.workers|
    ensures ScanInv(Scanned(s)) && Scanned(s).activeThreadNum <= |s.pool.workers|
  {
    var i, counted, t := s.scan.i, s.scan.counted, Scanned(s);
    SmallerSet(counted, counted + Ahead(s.clients, i));
    if s.scan.Counting? {
      OneMoreCounted(s.clients, counted, i, t.scan.i);
    }
  }

  lemma ScanStepKeepsExclusive(s: Server)
    requires |s.pool.dispatchers| == 1 && Exclusive(s) && !s.scan.NoScan?
    ensures Exclusive(Scanned(s))
  {
    SameHandling(s, Scanned(s));
  }

  lemma ScanStepKeepsServerInv(s: Server)
    requires ServerInv(s) && !s.scan.NoScan?
    ensures ServerInv(Scanned(s))
  {
    assert Scanned(s).pool == s.pool;
    ScanStepKeepsExclusive(s);
    ScanKeepsScan(s);
  }

  lemma ChooseKeepsServerInv(s: Server, conn: int)
    requires ServerInv(s) && EnabledServer(s, ChooseThread(conn))
    ensures ServerInv(NextServer(s, ChooseThread(conn)))
  {
    StepKeepsInv(s.pool, Call(0, conn));
    ChooseKeepsExclusive(s, conn);
  }

  lemma ReturnKeepsServerInv(s: Server, logout: bool)
    requires ServerInv(s) && EnabledServer(s, Return(logout))
    ensures ServerInv(NextServer(s, Return(logout)))
  {
    StepKeepsInv(s.pool, Leave(0));
    ReturnKeepsExclusive(s, logout);
    LoweringKeepsScan(s, NextServer(s, Return(logout)));
  }

  lemma ClearKeepsServerInv(s: Server, w: nat, logout: bool)
    requires ServerInv(s) && EnabledServer(s, ClearFlag(w, logout))
    ensures ServerInv(NextServer(s, ClearFlag(w, logout)))
  {
    ClearKeepsExclusive(s, w, logout);
    LoweringKeepsScan(s, NextServer(s, ClearFlag(w, logout)));
  }

  lemma FinishKeepsServerInv(s: Server, w: nat)
    requires ServerInv(s) && EnabledServer(s, FinishTask(w))
    ensures ServerInv(NextServer(s, FinishTask(w)))
  {
    StepKeepsInv(s.pool, Finish(w));
    StepKeepsSizes(s.pool, Finish(w));
    FinishKeepsExclusive(s, w);
    LoweringKeepsScan(s, NextServer(s, FinishTask(w)));
  }

  lemma PoolStepKeepsServerInv(s: Server, step: Event)
    requires ServerInv(s) && EnabledServer(s, PoolStep(step))
    ensures ServerInv(NextServer(s, PoolStep(step)))
  {
    var t := NextServer(s, PoolStep(step));
    StepKeepsInv(s.pool, step);
    StepKeepsSizes(s.pool, step);
    if step.Unlock? {
      UnlockKeepsExclusive(s, t);
    } else {
      QuietStepKeepsExclusive(s, t, step);
    }
    LoweringKeepsScan(s, t);
  }

  lemma StartOrAcceptKeepsServerInv(s: Server, e: ServerEvent)
    requires ServerInv(s) && EnabledServer(s, e) && (e.StartScan? || e.Accept?)
    ensures ServerInv(NextServer(s, e))
  {
    SameHandling(s, NextServer(s, e));
    if e.StartScan? {
      StartKeepsScan(s);
    }
  }

  lemma StepKeepsServerInv(s: Server, e: ServerEvent)
    requires ServerInv(s) && EnabledServer(s, e) && !e.Relogin?
    ensures ServerInv(NextServer(s, e))
  {
    match e
    case StartScan => StartOrAcceptKeepsServerInv(s, e);
    case ScanStep => ScanStepKeepsServerInv(s);
    case Accept(_) => StartOrAcceptKeepsServerInv(s, e);
    case ChooseThread(conn) => ChooseKeepsServerInv(s, conn);
    case PoolStep(step) => PoolStepKeepsServerInv(s, step);
    case Return(logout) => ReturnKeepsServerInv(s, logout);
    case ClearFlag(w, logout) => ClearKeepsServerInv(s, w, logout);
    case FinishTask(w) => FinishKeepsServerInv(s, w);
  }

  lemma InitServerInv(n: nat)
    ensures ServerInv(InitServer(n)) && |InitServer(n).pool.workers| == n
  {
    InitInv(n, 1);
  }

  lemma StepKeepsPoolSize(s: Server, e: ServerEvent)
    requires |s.pool.dispatchers| == 1 && EnabledServer(s, e)
    ensures |NextServer(s, e).pool.workers| == |s.pool.workers|
  {
  }

  lemma {:induction false} ServerInvOnEveryRun(n: nat, servers: seq<Server>, events: seq<ServerEvent>, k: nat)
    requires IsServerRun(n, servers, events) && NobodyLogsInAgain(events) && k <= |events|
    ensures ServerInv(servers[k]) && |servers[k].pool.workers| == n
  {
    if k == 0 {
      InitServerInv(n);
    } else {
      ServerInvOnEveryRun(n, servers, events, k - 1);
      var s, e := servers[k - 1], events[k - 1];
      StepKeepsServerInv(s, e);
      StepKeepsPoolSize(s, e);
      assert servers[k] == NextServer(s, e);
    }
  }

  // ----- the main results -----

  /** At most one worker has a connection, from the launch of its task until it clears the flag. */
  lemma OneTaskPerConnection(n: nat, servers: seq<Server>, events: seq<ServerEvent>, k: nat, v: nat, w: nat)
    requires IsServerRun(n, servers, events) && NobodyLogsInAgain(events) && k <= |events| && v < n && w < n
    ensures |servers[k].pool.workers| == n
    ensures var s := servers[k];
      Handles(s, v) && Handles(s, w) && s.pool.workers[v].arg.input == s.pool.workers[w].arg.input ==> v == w
  {
    ServerInvOnEveryRun(n, servers, events, k);
  }

  /** Although the flags are read one by one while workers clear them, the published number of active threads never exceeds
      the size of the pool. Whenever the main loop is not in `run_task`, the flag of a connection is up exactly when a
      worker has it, and that worker is busy. */
  lemma ActiveThreadsFitThePool(n: nat, servers: seq<Server>, events: seq<ServerEvent>, k: nat)
    requires IsServerRun(n, servers, events) && NobodyLogsInAgain(events) && k <= |events|
    ensures servers[k].activeThreadNum <= n
    ensures Main(servers[k]).Outside? ==> forall c :: IsUp(servers[k].clients, c) <==> HasWorker(servers[k], c)
    ensures |servers[k].pool.workers| == n
    ensures forall w :: 0 <= w < n && Occupied(servers[k].pool.workers[w]) ==> servers[k].pool.workers[w].busy
  {
    ServerInvOnEveryRun(n, servers, events, k);
    assert forall w :: 0 <= w < n ==> WorkerInv(servers[k].pool.workers[w]);
  }

  /** Only a connection that is logged in, whose flag is down and which no worker has, is dispatched. */
  lemma OnlyFreeConnectionsAreDispatched(n: nat, servers: seq<Server>, events: seq<ServerEvent>, k: nat)
    requires IsServerRun(n, servers, events) && NobodyLogsInAgain(events) && k < |events| && events[k].ChooseThread?
    ensures var s, t, conn := servers[k], servers[k + 1], events[k].conn;
      && conn in s.clients && !s.clients[conn] && t.clients == s.clients[conn := true]
      && forall w :: 0 <= w < |s.pool.workers| && Handles(s, w) ==> s.pool.workers[w].arg.input != conn
  {
    ServerInvOnEveryRun(n, servers, events, k);
    var s := servers[k];
    assert s.clients[events[k].conn] == false;
  }

  /** What becomes of a connection when its request has been handled, by a worker or, after a refusal, by the main loop: a
      logout takes it out of the records and everything else leaves it there with its flag down.  No other connection is
      touched; and an accepted task leaves all flags to its worker. */
  lemma HandledConnectionIsFreedOrGone(n: nat, servers: seq<Server>, events: seq<ServerEvent>, k: nat)
    requires IsServerRun(n, servers, events) && NobodyLogsInAgain(events) && k < |events|
    requires events[k].ClearFlag? || events[k].Return?
    ensures |servers[k].pool.dispatchers| == 1
    ensures events[k].ClearFlag? ==> events[k].w < |servers[k].pool.workers|
    ensures var s, t, e := servers[k], servers[k + 1], events[k];
      var conn := if e.ClearFlag? then s.pool.workers[e.w].arg.input else s.pool.dispatchers[0].task.input;
      if e.Return? && Main(s) == Leaving(true) then t.clients == s.clients
      else
        && conn in s.clients && s.clients[conn]
        && (forall c :: c in t.clients <==> c in s.clients && (e.logout ==> c != conn))
        && forall c :: c in t.clients ==> t.clients[c] == (c != conn && s.clients[c])
  {
    ServerInvOnEveryRun(n, servers, events, k);
    var s, e := servers[k], events[k];
    if e.ClearFlag? {
      assert Handles(s, e.w);
    } else if Main(s) == Leaving(false) {
      assert InHand(s.pool, s.pool.dispatchers[0].task.input);
    }
  }

  // ----- what logging in again breaks -----

  /** Logging in again while a task of the connection runs always puts the flag out of step with the worker. */
  lemma ReloginBreaksExclusion(s: Server, w: nat)
    requires ServerInv(s) && EnabledServer(s, Relogin(w))
    ensures !Exclusive(NextServer(s, Relogin(w)))
  {
    assert Handles(NextServer(s, Relogin(w)), w);
  }

  lemma Extend(servers: seq<Server>, events: seq<ServerEvent>, e: ServerEvent, t: Server)
      returns (servers': seq<Server>, events': seq<ServerEvent>)
    requires IsServerRun(2, servers, events) && |t.pool.dispatchers| == 1
    requires EnabledServer(servers[|events|], e) && t == NextServer(servers[|events|], e)
    ensures IsServerRun(2, servers', events') && servers'[|events'|] == t
    ensures NobodyLogsInAgain(events) && !e.Relogin? ==> NobodyLogsInAgain(events')
  {
    servers', events' := servers + [t], events + [e];
  }

  function Readable(clients: map<int, bool>, i: int): (cs: set<int>)
    ensures forall c :: c in cs <==> c in clients && !clients[c] && i <= c < MAX_CONN
  {
    set c | c in clients && !clients[c] && i <= c < MAX_CONN
  }

  function UpFrom(clients: map<int, bool>, i: int): (cs: set<int>)
    ensures forall c :: c in cs <==> IsUp(clients, c) && i <= c < MAX_CONN
  {
    set c | c in clients && clients[c] && i <= c < MAX_CONN
  }

  lemma OneMoreScanned(clients: map<int, bool>, readset: set<int>, i: int, n: int)
    requires i < MAX_CONN && n == i + 1
    ensures readset + Readable(clients, i) ==
            (if i in clients && !clients[i] then readset + {i} else readset) + Readable(clients, n)
    ensures |UpFrom(clients, i)| == (if IsUp(clients, i) then 1 else 0) + |UpFrom(clients, n)|
  {
    assert UpFrom(clients, i) == (if IsUp(clients, i) then {i} else {}) + UpFrom(clients, n);
  }

  /** What a scan comes to from there if no flag changes. */
  function ScanResult(s: Server): Server
    requires s.scan.Testing?
  {
    s.(scan := NoScan, readset := s.readset + Readable(s.clients, s.scan.i),
       activeThreadNum := s.scan.count + |UpFrom(s.clients, s.scan.i)|)
  }

  lemma TwoTests(s: Server)
    requires s.scan.Testing? && s.scan.i < MAX_CONN
    ensures Scanned(s).scan.Counting?
    ensures var t := Scanned(Scanned(s));
      t.scan.Testing? && t.scan.i == s.scan.i + 1 && t.pool == s.pool && ScanResult(t) == ScanResult(s)
  {
    var i, t := s.scan.i, Scanned(Scanned(s));
    OneMoreScanned(s.clients, s.readset, i, t.scan.i);
    assert t.clients == s.clients && t.readset == if i in s.clients && !s.clients[i] then s.readset + {i} else s.readset;
    assert t.scan.count == s.scan.count + if IsUp(s.clients, i) then 1 else 0;
  }

  lemma LastTest(s: Server)
    requires s.scan.Testing? && s.scan.i == MAX_CONN
    ensures Scanned(s) == ScanResult(s)
  {
    assert UpFrom(s.clients, MAX_CONN) == {} && s.readset + Readable(s.clients, MAX_CONN) == s.readset;
  }

  lemma {:induction false} ScanOn(servers: seq<Server>, events: seq<ServerEvent>)
      returns (servers': seq<Server>, events': seq<ServerEvent>)
    requires IsServerRun(2, servers, events)
    requires servers[|events|].scan.Testing? && servers[|events|].scan.i <= MAX_CONN
    ensures IsServerRun(2, servers', events') && (NobodyLogsInAgain(events) ==> NobodyLogsInAgain(events'))
    ensures servers'[|events'|] == ScanResult(servers[|events|])
    decreases MAX_CONN - servers[|events|].scan.i
  {
    var s := servers[|events|];
    servers', events' := Extend(servers, events, ScanStep, Scanned(s));
    if s.scan.i < MAX_CONN {
      TwoTests(s);
      servers', events' := Extend(servers', events', ScanStep, Scanned(Scanned(s)));
      servers', events' := ScanOn(servers', events');
    } else {
      LastTest(s);
    }
  }

  /** A scan during which no worker takes a step sees all flags as they are. */
  lemma QuietScan(servers: seq<Server>, events: seq<ServerEvent>)
      returns (servers': seq<Server>, events': seq<ServerEvent>)
    requires IsServerRun(2, servers, events) && EnabledServer(servers[|events|], StartScan)
    ensures IsServerRun(2, servers', events') && (NobodyLogsInAgain(events) ==> NobodyLogsInAgain(events'))
    ensures var s := servers[|events|];
      servers'[|events'|] == s.(readset := Readable(s.clients, 2), activeThreadNum := |UpFrom(s.clients, 2)|)
  {
    var s := servers[|events|];
    servers', events' := Extend(servers, events, StartScan, NextServer(s, StartScan));
    servers', events' := ScanOn(servers', events');
    assert {} + Readable(s.clients, 2) == Readable(s.clients, 2);
  }

  const NO_TASK := Task(0, 0)
  const IDLE := Worker(WaitLock, true, false, NO_TASK)

  function TwoWorkers(w0: Worker, w1: Worker, d: Dispatcher, holder: int, calls: nat, launched: seq<Task>,
                      accepted: set<Task>, started: seq<Task>): Pool {
    Pool([w0, w1], [d], holder, calls, launched, started, [], accepted, {})
  }

  const FRESH := Worker(FirstLock, false, true, NO_TASK)

  lemma OneIdle() returns (servers: seq<Server>, events: seq<ServerEvent>)
    ensures IsServerRun(2, servers, events) && NobodyLogsInAgain(events)
    ensures servers[|events|] ==
      Server(TwoWorkers(IDLE, FRESH, Dispatcher(Outside, NO_TASK), -1, 1, [], {}, []), map[5 := false], {}, 0, NoScan, {})
  {
    var first, second := FRESH, Worker(SetIdle, true, true, NO_TASK);
    var d := Dispatcher(Outside, NO_TASK);
    servers, events := [InitServer(2)], [];
    assert InitServer(2).pool.workers == [first, first] && InitServer(2).pool.dispatchers == [d];
    var s := Server(TwoWorkers(first, first, d, -1, 1, [], {}, []), map[5 := false], {}, 0, NoScan, {});
    servers, events := Extend(servers, events, Accept(5), s);
    s := s.(pool := TwoWorkers(second, first, d, -1, 1, [], {}, []));
    servers, events := Extend(servers, events, PoolStep(LockFirst(0)), s);
    s := s.(pool := TwoWorkers(IDLE, first, d, -1, 1, [], {}, []));
    servers, events := Extend(servers, events, PoolStep(GoIdle(0)), s);
  }

  /** Both workers wait for work and connection 5 has been found readable. */
  lemma BothIdle() returns (servers: seq<Server>, events: seq<ServerEvent>)
    ensures IsServerRun(2, servers, events) && NobodyLogsInAgain(events)
    ensures servers[|events|] ==
      Server(TwoWorkers(IDLE, IDLE, Dispatcher(Outside, NO_TASK), -1, 1, [], {}, []), map[5 := false], {5}, 0, NoScan, {})
  {
    servers, events := OneIdle();
    var second := Worker(SetIdle, true, true, NO_TASK);
    var d := Dispatcher(Outside, NO_TASK);
    var s := Server(TwoWorkers(IDLE, second, d, -1, 1, [], {}, []), map[5 := false], {}, 0, NoScan, {});
    servers, events := Extend(servers, events, PoolStep(LockFirst(1)), s);
    s := s.(pool := TwoWorkers(IDLE, IDLE, d, -1, 1, [], {}, []));
    servers, events := Extend(servers, events, PoolStep(GoIdle(1)), s);
    servers, events := QuietScan(servers, events);
    assert Readable(s.clients, 2) == {5} && UpFrom(s.clients, 2) == {};
  }

  const ONE := Task(1, 5)
  const TWO := Task(2, 5)

  lemma OneClaimed() returns (servers: seq<Server>, events: seq<ServerEvent>)
    ensures IsServerRun(2, servers, events) && NobodyLogsInAgain(events)
    ensures servers[|events|] ==
      Server(TwoWorkers(IDLE, IDLE, Dispatcher(Claiming(0), ONE), 0, 2, [], {}, []), map[5 := true], {}, 0, NoScan, {})
  {
    servers, events := BothIdle();
    var d := Dispatcher(Entering, ONE);
    var s := Server(TwoWorkers(IDLE, IDLE, d, -1, 2, [], {}, []), map[5 := true], {}, 0, NoScan, {});
    servers, events := Extend(servers, events, ChooseThread(5), s);
    s := s.(pool := TwoWorkers(IDLE, IDLE, d.(pc := Looking(0)), 0, 2, [], {}, []));
    servers, events := Extend(servers, events, PoolStep(Enter(0)), s);
    s := s.(pool := TwoWorkers(IDLE, IDLE, d.(pc := Claiming(0)), 0, 2, [], {}, []));
    servers, events := Extend(servers, events, PoolStep(Look(0)), s);
  }

  lemma OneCopied() returns (servers: seq<Server>, events: seq<ServerEvent>)
    ensures IsServerRun(2, servers, events) && NobodyLogsInAgain(events)
    ensures servers[|events|] ==
      Server(TwoWorkers(IDLE.(busy := true, arg := ONE), IDLE, Dispatcher(Unlocking(0), ONE), 0, 2, [], {}, []),
             map[5 := true], {}, 0, NoScan, {})
  {
    servers, events := OneClaimed();
    var d := Dispatcher(Entering, ONE);
    var s := servers[|events|];
    s := s.(pool := TwoWorkers(IDLE.(busy := true), IDLE, d.(pc := Copying(0)), 0, 2, [], {}, []));
    servers, events := Extend(servers, events, PoolStep(Claim(0)), s);
    s := s.(pool := TwoWorkers(IDLE.(busy := true, arg := ONE), IDLE, d.(pc := Unlocking(0)), 0, 2, [], {}, []));
    servers, events := Extend(servers, events, PoolStep(Copy(0)), s);
  }

  /** Worker 0 has been handed the connection. */
  lemma OneLaunched() returns (servers: seq<Server>, events: seq<ServerEvent>)
    ensures IsServerRun(2, servers, events) && NobodyLogsInAgain(events)
    ensures servers[|events|] ==
      Server(TwoWorkers(Worker(WaitLock, false, true, ONE), IDLE, Dispatcher(Outside, ONE), -1, 2, [ONE], {ONE}, []),
             map[5 := true], {}, 0, NoScan, {})
  {
    servers, events := OneCopied();
    var d := Dispatcher(Entering, ONE);
    var s := servers[|events|];
    s := s.(pool := TwoWorkers(Worker(WaitLock, false, true, ONE), IDLE, d.(pc := Leaving(true)), 0, 2, [ONE], {}, []));
    servers, events := Extend(servers, events, PoolStep(Unlock(0)), s);
    s := s.(pool := TwoWorkers(Worker(WaitLock, false, true, ONE), IDLE, d.(pc := Outside), -1, 2, [ONE], {ONE}, []));
    servers, events := Extend(servers, events, Return(false), s);
  }

  /** Who has let go of the connection. */
  function Released(clears: bool): set<nat> {
    if clears then {0} else {}
  }

  lemma OneRunning() returns (servers: seq<Server>, events: seq<ServerEvent>)
    ensures IsServerRun(2, servers, events) && NobodyLogsInAgain(events)
    ensures servers[|events|] ==
      Server(TwoWorkers(Worker(Running, true, true, ONE), IDLE, Dispatcher(Outside, ONE), -1, 2, [ONE], {ONE}, [ONE]),
             map[5 := true], {}, 0, NoScan, {})
  {
    servers, events := OneLaunched();
    var d := Dispatcher(Outside, ONE);
    var s := servers[|events|].(pool := TwoWorkers(Worker(Starting, true, true, ONE), IDLE, d, -1, 2, [ONE], {ONE}, []));
    servers, events := Extend(servers, events, PoolStep(Wake(0)), s);
    s := s.(pool := TwoWorkers(Worker(Running, true, true, ONE), IDLE, d, -1, 2, [ONE], {ONE}, [ONE]));
    servers, events := Extend(servers, events, PoolStep(Start(0)), s);
  }

  /** The request of worker 0 clears the flag or logs in again, and the connection is found readable once more. */
  lemma FlagLost(clears: bool) returns (servers: seq<Server>, events: seq<ServerEvent>)
    ensures IsServerRun(2, servers, events) && (clears ==> NobodyLogsInAgain(events))
    ensures servers[|events|] ==
      Server(TwoWorkers(Worker(Running, true, true, ONE), IDLE, Dispatcher(Outside, ONE), -1, 2, [ONE], {ONE}, [ONE]),
             map[5 := false], {5}, 0, NoScan, Released(clears))
  {
    servers, events := OneRunning();
    var s := servers[|events|].(clients := map[5 := false], released := Released(clears));
    servers, events := Extend(servers, events, if clears then ClearFlag(0, false) else Relogin(0), s);
    servers, events := QuietScan(servers, events);
    assert Readable(s.clients, 2) == {5} && UpFrom(s.clients, 2) == {};
  }

  lemma TwoClaimed(clears: bool) returns (servers: seq<Server>, events: seq<ServerEvent>)
    ensures IsServerRun(2, servers, events) && (clears ==> NobodyLogsInAgain(events))
    ensures servers[|events|] == Server(TwoWorkers(Worker(Running, true, true, ONE), IDLE, Dispatcher(Claiming(1), TWO), 0, 3,
                                                   [ONE], {ONE}, [ONE]), map[5 := true], {}, 0, NoScan, Released(clears))
  {
    servers, events := FlagLost(clears);
    var d := Dispatcher(Entering, TWO);
    var w := Worker(Running, true, true, ONE);
    var s := Server(TwoWorkers(w, IDLE, d, -1, 3, [ONE], {ONE}, [ONE]), map[5 := true], {}, 0, NoScan, Released(clears));
    servers, events := Extend(servers, events, ChooseThread(5), s);
    s := s.(pool := TwoWorkers(w, IDLE, d.(pc := Looking(0)), 0, 3, [ONE], {ONE}, [ONE]));
    servers, events := Extend(servers, events, PoolStep(Enter(0)), s);
    s := s.(pool := TwoWorkers(w, IDLE, d.(pc := Looking(1)), 0, 3, [ONE], {ONE}, [ONE]));
    servers, events := Extend(servers, events, PoolStep(Look(0)), s);
    s := s.(pool := TwoWorkers(w, IDLE, d.(pc := Claiming(1)), 0, 3, [ONE], {ONE}, [ONE]));
    servers, events := Extend(servers, events, PoolStep(Look(0)), s);
  }

  /** Worker 1 is handed the connection while the function of worker 0 has not returned. */
  lemma TwoLaunched(clears: bool) returns (servers: seq<Server>, events: seq<ServerEvent>)
    ensures IsServerRun(2, servers, events) && (clears ==> NobodyLogsInAgain(events))
    ensures var s := servers[|events|];
      && |s.pool.workers| == 2 && Occupied(s.pool.workers[0]) && Handles(s, 1)
      && s.pool.workers[0].arg.input == s.pool.workers[1].arg.input && s.released == Released(clears)
  {
    servers, events := TwoClaimed(clears);
    var d := Dispatcher(Entering, TWO);
    var w := Worker(Running, true, true, ONE);
    var s := servers[|events|];
    s := s.(pool := TwoWorkers(w, IDLE.(busy := true), d.(pc := Copying(1)), 0, 3, [ONE], {ONE}, [ONE]));
    servers, events := Extend(servers, events, PoolStep(Claim(0)), s);
    s := s.(pool := TwoWorkers(w, IDLE.(busy := true, arg := TWO), d.(pc := Unlocking(1)), 0, 3, [ONE], {ONE}, [ONE]));
    servers, events := Extend(servers, events, PoolStep(Copy(0)), s);
    s := s.(pool := TwoWorkers(w, Worker(WaitLock, false, true, TWO), d.(pc := Leaving(true)), 0, 3, [ONE, TWO], {ONE},
                               [ONE]));
    servers, events := Extend(servers, events, PoolStep(Unlock(0)), s);
  }

  /** A dispatched request that logs its connection in again replaces the record, and with it the flag; the next scan
      then dispatches the connection a second time, and two workers have it at once. */
  lemma ReloginLetsASecondTaskIn() returns (servers: seq<Server>, events: seq<ServerEvent>)
    ensures IsServerRun(2, servers, events)
    ensures var s := servers[|events|];
      |s.pool.workers| == 2 && Handles(s, 0) && Handles(s, 1) && s.pool.workers[0].arg.input == s.pool.workers[1].arg.input
  {
    servers, events := TwoLaunched(false);
  }

  /** The flag protects a connection only until it is cleared: without any second login, the next task can be launched
      before the function that has cleared it returns. */
  lemma NextTaskBeforeReturn() returns (servers: seq<Server>, events: seq<ServerEvent>)
    ensures IsServerRun(2, servers, events) && NobodyLogsInAgain(events)
    ensures var s := servers[|events|];
      && |s.pool.workers| == 2 && Occupied(s.pool.workers[0]) && Occupied(s.pool.workers[1])
      && s.pool.workers[0].arg.input == s.pool.workers[1].arg.input
  {
    servers, events := TwoLaunched(true);
  }
}
