/** The matchmaking server as a state machine: one client at a time is tested against an ordered waiting list by four
    workers that answer in any order, while clients come and go.  Every step of the server is a function on `State`;
    the proofs about runs are in `MatchmakingProofs` and the imperative server is in `Matchmaker`. */
module Matchmaking {
  import opened Sequences

  const MAX_FD := 1025
  const MAX_P := 4

  /** The value of `solution` that means that no acceptable client has been found. */
  const NO_SOLUTION := 4096

  type Fd = int

  /** A descriptor can be closed and reused with a new filter, so each admitted `try_match` gets a number of its own. */
  type Request = nat

  /** `accepts(a, b)` is the verdict of the filter that came with request `a` on the user of request `b`. */
  type Filters = (Request, Request) -> bool

  /** A worker reports success when both filters accept. */
  predicate Agree(accepts: Filters, a: Request, b: Request) {
    accepts(a, b) && accepts(b, a)
  }

  /** `askedFirst` and `askedSecond` record whose filters the worker was given; the source keeps only descriptors. */
  datatype Worker = Worker(working: bool, waitingListIndex: int, validAns: bool, first: Fd, second: Fd,
                           askedFirst: Request, askedSecond: Request)

  datatype Boss = Boss(hasJob: bool, assignNextIndex: int, needToAssignJob: bool, solution: int, workingOnFd: Fd)

  const BOSS_INIT := Boss(false, 0, false, NO_SOLUTION, -1)

  const WORKER_INIT := Worker(false, -1, false, 0, 0, 0, 0)

  datatype Status = Idle | Trying | Matched

  datatype Client = Client(status: Status, friend: Fd)

  const CLIENT_INIT := Client(Idle, 0)

  const MAX_CLIENTS := 2048

  /** The last four fields are history, which the server never reads: `request` maps each admitted, unmatched and
      undeparted client to its request, `asked` lists the requests handed to workers for the current job, and `rejected`
      holds the pairs of requests that a valid answer has rejected. */
  datatype State = State(tryList: seq<Fd>, waitingList: seq<Fd>, mama: Boss, pool: seq<Worker>, clients: map<Fd, Client>,
                         request: map<Fd, Request>, nextRequest: Request, asked: seq<Request>,
                         rejected: set<(Request, Request)>)

  const INIT_CLIENTS := map fd: Fd | 0 <= fd < MAX_CLIENTS :: CLIENT_INIT

  const INIT_STATE := State([], [], BOSS_INIT, [WORKER_INIT, WORKER_INIT, WORKER_INIT, WORKER_INIT], INIT_CLIENTS,
                            map[], 0, [], {})

  function ClientOf(s: State, fd: Fd): Client {
    if fd in s.clients then s.clients[fd] else CLIENT_INIT
  }

  function RequestOf(s: State, fd: Fd): Request {
    if fd in s.request then s.request[fd] else 0
  }

  // ----- the steps -----

  function WithStatus(s: State, fd: Fd, status: Status): State {
    s.(clients := s.clients[fd := ClientOf(s, fd).(status := status)])
  }

  /** A `try_match` message.  The source looks neither at the old status nor at the lists, so a client may stand in them
      already; a filter that does not compile leaves the lists alone, but what the client has sent replaces what it had. */
  function TryMatch(s: State, fd: Fd, compiles: bool): State {
    var s1 := WithStatus(s, fd, Trying);
    if compiles then
      s1.(tryList := s.tryList + [fd], request := s.request[fd := s.nextRequest], nextRequest := s.nextRequest + 1)
    else if fd in s.request then s1.(request := s.request[fd := s.nextRequest], nextRequest := s.nextRequest + 1)
    else s1
  }

  /** Reads the waiting list at an index that need not be in range; out of range the read yields `junk`. */
  function ReadWaiting(waitingList: seq<Fd>, i: int, junk: Fd): Fd {
    if 0 <= i < |waitingList| then waitingList[i] else junk
  }

  function Invalidate(s: State, fd: Fd, w: Worker, junk: Fd): Worker {
    if s.mama.workingOnFd == fd || ReadWaiting(s.waitingList, w.waitingListIndex, junk) == fd
    then w.(validAns := false) else w
  }

  function InvalidatePool(s: State, fd: Fd, junk: seq<Fd>): seq<Worker>
    requires |junk| == |s.pool|
  {
    seq(|s.pool|, i requires 0 <= i < |s.pool| => Invalidate(s, fd, s.pool[i], junk[i]))
  }

  function ShiftIndex(quitIdx: int, w: Worker): Worker {
    if quitIdx < w.waitingListIndex then w.(waitingListIndex := w.waitingListIndex - 1) else w
  }

  function ShiftPool(quitIdx: int, pool: seq<Worker>): seq<Worker> {
    seq(|pool|, i requires 0 <= i < |pool| => ShiftIndex(quitIdx, pool[i]))
  }

  function ShiftBoss(quitIdx: int, mama: Boss): Boss {
    mama.(assignNextIndex := if quitIdx < mama.assignNextIndex then mama.assignNextIndex - 1 else mama.assignNextIndex,
          solution := if quitIdx < mama.solution && mama.solution != NO_SOLUTION then mama.solution - 1
                      else mama.solution)
  }

  /** The client at position `quitIdx` of the waiting list leaves and every index behind it moves up. */
  function RemoveWaiting(s: State, quitIdx: nat): State
    requires quitIdx < |s.waitingList|
  {
    s.(waitingList := EraseAt(s.waitingList, quitIdx),
       pool := ShiftPool(quitIdx, s.pool),
       mama := ShiftBoss(quitIdx, s.mama))
  }

  predicate Placed(s: State, fd: Fd) {
    fd in s.tryList || fd == s.mama.workingOnFd || fd in s.waitingList
  }

  /** `remove_try_match`; a client that is in no list makes the source erase at 4096, hence the precondition. */
  function Remove(s: State, fd: Fd, junk: seq<Fd>): State
    requires |junk| == |s.pool| && Placed(s, fd)
  {
    var s1 := s.(pool := InvalidatePool(s, fd, junk), request := s.request - {fd});
    if fd in s.tryList then s1.(tryList := EraseAt(s.tryList, FirstIndexOf(s.tryList, fd)))
    else if fd == s.mama.workingOnFd then s1.(mama := s.mama.(workingOnFd := -1))
    else RemoveWaiting(s1, LastIndexOf(s.waitingList, fd))
  }

  /** A client quits, or its connection closes: what happens depends on the status it has.  Only a `quit` message makes a
      matched partner idle, whatever the partner's status is by then. */
  function Leave(s: State, fd: Fd, junk: seq<Fd>, closes: bool): State
    requires |junk| == |s.pool| && (ClientOf(s, fd).status.Trying? ==> Placed(s, fd))
  {
    var c := ClientOf(s, fd);
    var s1 := if c.status.Trying? then Remove(s, fd, junk) else s.(request := s.request - {fd});
    var s2 := if c.status.Matched? && !closes then WithStatus(s1, c.friend, Idle) else s1;
    WithStatus(s2, fd, Idle)
  }

  /** `receive_from_child` for worker `i`. */
  function Receive(s: State, i: nat, result: bool): State
    requires i < |s.pool|
  {
    var w := s.pool[i];
    s.(pool := s.pool[i := w.(working := false)],
       mama := if !w.validAns || !result then s.mama
               else s.mama.(solution := if w.waitingListIndex < s.mama.solution then w.waitingListIndex
                                        else s.mama.solution),
       rejected := if w.validAns && !result then s.rejected + {(w.askedFirst, w.askedSecond)} else s.rejected)
  }

  ghost predicate AllIdle(pool: seq<Worker>) {
    forall i :: 0 <= i < |pool| ==> !pool[i].working
  }

  ghost predicate Concludes(s: State) {
    s.mama.hasJob && !s.mama.needToAssignJob && AllIdle(s.pool)
  }

  /** The two clients are matched to each other. */
  function StartChats(clients: map<Fd, Client>, a: Fd, b: Fd): map<Fd, Client> {
    clients[a := Client(Matched, b)][b := Client(Matched, a)]
  }

  /** `judge_answer`. */
  ghost function Judge(s: State): State
    requires Concludes(s) && s.mama.workingOnFd != -1 && s.mama.solution < NO_SOLUTION ==>
               0 <= s.mama.solution < |s.waitingList|
  {
    if !Concludes(s) then s
    else if s.mama.workingOnFd == -1 then s.(mama := BOSS_INIT, asked := [])
    else if s.mama.solution < NO_SOLUTION then
      var other := s.waitingList[s.mama.solution];
      s.(waitingList := EraseAt(s.waitingList, s.mama.solution), mama := BOSS_INIT, asked := [],
         clients := StartChats(s.clients, s.mama.workingOnFd, other), request := s.request - {s.mama.workingOnFd, other})
    else s.(waitingList := s.waitingList + [s.mama.workingOnFd], mama := BOSS_INIT, asked := [])
  }

  /** An empty waiting list takes the first client of the try list, whether or not a job is running. */
  function Lift(s: State): State {
    if s.waitingList == [] && s.tryList != [] then s.(waitingList := [s.tryList[0]], tryList := s.tryList[1..])
    else s
  }

  function StartJob(s: State): State {
    if s.tryList != [] && !s.mama.hasJob then
      s.(mama := s.mama.(needToAssignJob := true, hasJob := true, workingOnFd := s.tryList[0]), tryList := s.tryList[1..])
    else s
  }

  predicate NothingToAssign(s: State) {
    s.waitingList == [] || s.mama.assignNextIndex >= |s.waitingList| || s.mama.workingOnFd == -1
    || s.mama.solution < NO_SOLUTION
  }

  /** `GO_TO_WORK` together with the advance of `assign_next_index`. */
  function Dispatch(s: State, i: nat): State
    requires i < |s.pool| && 0 <= s.mama.assignNextIndex < |s.waitingList|
  {
    var k := s.mama.assignNextIndex;
    var first, second := s.mama.workingOnFd, s.waitingList[k];
    s.(pool := s.pool[i := Worker(true, k, true, first, second, RequestOf(s, first), RequestOf(s, second))],
       mama := s.mama.(assignNextIndex := k + 1),
       asked := s.asked + [RequestOf(s, second)])
  }

  /** One round of the assignment loop. */
  function Assign(s: State, i: nat): State
    requires i < |s.pool| && 0 <= s.mama.assignNextIndex
  {
    var s1 := if NothingToAssign(s) then s.(mama := s.mama.(needToAssignJob := false)) else s;
    if !s1.mama.needToAssignJob || s1.pool[i].working then s1 else Dispatch(s1, i)
  }

  // ----- the invariant -----

  /** Every pending client is in exactly one of the three places, once. */
  ghost predicate Conserved(s: State) {
    && NoDup(s.tryList) && NoDup(s.waitingList)
    && (forall fd :: fd in s.tryList ==> fd !in s.waitingList && fd != s.mama.workingOnFd)
    && s.mama.workingOnFd !in s.waitingList
    && (forall fd :: fd in s.request <==> fd in s.tryList || fd in s.waitingList || (fd == s.mama.workingOnFd && fd != -1))
    && (forall fd :: fd in s.request ==> 0 <= fd < MAX_FD && s.request[fd] < s.nextRequest)
    && (forall fd, fd' :: fd in s.request && fd' in s.request && fd != fd' ==> s.request[fd] != s.request[fd'])
  }

  /** The server sees every pending client as trying, and friends are descriptors. */
  ghost predicate StatusAgrees(s: State) {
    && (forall fd :: fd in s.request ==> ClientOf(s, fd).status.Trying?)
    && (forall fd :: ClientOf(s, fd).status.Matched? ==> 0 <= ClientOf(s, fd).friend < MAX_FD)
  }

  ghost predicate Indexed(s: State) {
    && |s.pool| == MAX_P
    && 0 <= s.mama.assignNextIndex <= |s.waitingList|
    && 0 <= s.mama.solution <= NO_SOLUTION
    && (s.mama.needToAssignJob ==> s.mama.hasJob)
    && (!s.mama.hasJob ==> s.mama == BOSS_INIT && AllIdle(s.pool) && s.asked == [])
  }

  predicate InFlight(w: Worker) {
    w.working && w.validAns
  }

  /** A pending answer belongs to the client at the worker's index and to the client being worked on. */
  ghost predicate CreditedTo(s: State, w: Worker)
    requires s.mama.assignNextIndex <= |s.waitingList|
  {
    && s.mama.workingOnFd != -1 && w.first == s.mama.workingOnFd
    && 0 <= w.waitingListIndex < s.mama.assignNextIndex
    && s.waitingList[w.waitingListIndex] == w.second
    && w.askedFirst == RequestOf(s, w.first) && w.askedSecond == RequestOf(s, w.second)
  }

  ghost predicate Credited(s: State)
    requires Indexed(s)
  {
    && (forall i :: 0 <= i < MAX_P && InFlight(s.pool[i]) ==> CreditedTo(s, s.pool[i]))
    && (forall i, j :: 0 <= i < j < MAX_P && InFlight(s.pool[i]) && InFlight(s.pool[j]) ==>
                         s.pool[i].waitingListIndex != s.pool[j].waitingListIndex)
  }

  ghost predicate BeingAsked(s: State, k: int) {
    exists i :: 0 <= i < |s.pool| && InFlight(s.pool[i]) && s.pool[i].waitingListIndex == k
  }

  predicate MatchesAt(s: State, accepts: Filters, k: int)
    requires 0 <= k < |s.waitingList|
  {
    Agree(accepts, RequestOf(s, s.mama.workingOnFd), RequestOf(s, s.waitingList[k]))
  }

  /** As long as no client has been accepted, every dispatched one is still being asked or has been rejected. */
  ghost predicate Accounted(s: State)
    requires Indexed(s)
  {
    s.mama.workingOnFd != -1 && s.mama.solution == NO_SOLUTION ==>
      forall k :: 0 <= k < s.mama.assignNextIndex ==>
        BeingAsked(s, k) || (RequestOf(s, s.mama.workingOnFd), RequestOf(s, s.waitingList[k])) in s.rejected
  }

  /** Only requests that disagree have been rejected. */
  ghost predicate Rejections(s: State, accepts: Filters) {
    forall p :: p in s.rejected ==> !Agree(accepts, p.0, p.1) && p.0 < s.nextRequest && p.1 < s.nextRequest
  }

  /** `solution` names an agreeing client, and every agreeing one before it is still being asked.  This is what makes the
      verdict right, and the only thing that a departure can spoil. */
  ghost predicate Sound(s: State, accepts: Filters) {
    s.mama.workingOnFd != -1 && s.mama.solution != NO_SOLUTION ==>
      && 0 <= s.mama.solution < s.mama.assignNextIndex <= |s.waitingList|
      && MatchesAt(s, accepts, s.mama.solution)
      && forall k :: 0 <= k < s.mama.solution && MatchesAt(s, accepts, k) ==> BeingAsked(s, k)
  }

  /** Exactly the dispatched clients that are still there have been asked; no request is asked twice in a job. */
  ghost predicate AskedOnce(s: State)
    requires Indexed(s)
  {
    && NoDup(s.asked)
    && (forall r :: r in s.asked ==> r < s.nextRequest)
    && (forall fd :: fd in s.request ==>
                       (s.request[fd] in s.asked <==> fd in s.waitingList[..s.mama.assignNextIndex]))
  }

  ghost predicate Inv(s: State, accepts: Filters) {
    && Conserved(s) && StatusAgrees(s) && Indexed(s) && Credited(s) && Accounted(s) && Rejections(s, accepts)
    && AskedOnce(s)
  }

  /** Once assignment has stopped without a solution, the whole waiting list has been dispatched. */
  ghost predicate Covered(s: State) {
    s.mama.hasJob && !s.mama.needToAssignJob && s.mama.workingOnFd != -1 && s.mama.solution == NO_SOLUTION ==>
      s.mama.assignNextIndex == |s.waitingList|
  }

  /** Nobody has been rejected yet with a client that still has to be worked on, and with the working client only those who
      have been asked. */
  ghost predicate OnlyAskedAreRejected(s: State) {
    && (forall p, fd :: p in s.rejected && fd in s.tryList ==> p.0 != RequestOf(s, fd))
    && (s.mama.workingOnFd != -1 ==>
          forall p :: p in s.rejected && p.0 == RequestOf(s, s.mama.workingOnFd) ==> p.1 in s.asked)
  }

  /** The verdict is about to append the working client although part of the list has not been dispatched. */
  ghost predicate Uncovered(s: State) {
    Concludes(s) && s.mama.workingOnFd != -1 && s.mama.solution == NO_SOLUTION && s.mama.assignNextIndex < |s.waitingList|
  }

  /** Of any two waiting clients the later one has been tested against the earlier one and rejected. */
  ghost predicate PairwiseRejected(s: State) {
    forall i, j :: 0 <= i < j < |s.waitingList| ==>
      (RequestOf(s, s.waitingList[j]), RequestOf(s, s.waitingList[i])) in s.rejected
  }

  // ----- runs -----

  /** What the environment and the main loop can do next.  The two events of leaving carry what out-of-range reads would
      yield. */
  datatype Event =
    | TryEvent(fd: Fd, compiles: bool)
    | QuitEvent(fd: Fd, junk: seq<Fd>)
    | CloseEvent(fd: Fd, junk: seq<Fd>)
    | AnswerEvent(worker: nat, result: bool)
    | JudgeEvent
    | LiftEvent
    | StartEvent
    | AssignEvent(worker: nat)

  predicate Leaves(e: Event) {
    e.QuitEvent? || e.CloseEvent?
  }

  /** Any client can try, quit and close at any time.  A valid answer is the verdict on the pair that was asked; an
      invalidated one can be anything, since the filters are found by descriptor and may have been replaced. */
  ghost predicate Enabled(s: State, e: Event, accepts: Filters) {
    match e
    case TryEvent(fd, _) => 0 <= fd < MAX_FD
    case QuitEvent(fd, junk) => 0 <= fd < MAX_FD && |junk| == |s.pool|
    case CloseEvent(fd, junk) => 0 <= fd < MAX_FD && |junk| == |s.pool|
    case AnswerEvent(i, result) =>
      i < |s.pool| && s.pool[i].working
      && (s.pool[i].validAns ==> result == Agree(accepts, s.pool[i].askedFirst, s.pool[i].askedSecond))
    case AssignEvent(i) => i < |s.pool|
    case _ => true
  }

  /** Every element the step erases or reads on purpose is there. */
  ghost predicate Defined(s: State, e: Event) {
    match e
    case QuitEvent(fd, junk) => |junk| == |s.pool| && (ClientOf(s, fd).status.Trying? ==> Placed(s, fd))
    case CloseEvent(fd, junk) => |junk| == |s.pool| && (ClientOf(s, fd).status.Trying? ==> Placed(s, fd))
    case AnswerEvent(i, _) => i < |s.pool|
    case JudgeEvent =>
      Concludes(s) && s.mama.workingOnFd != -1 && s.mama.solution < NO_SOLUTION ==>
        0 <= s.mama.solution < |s.waitingList|
    case AssignEvent(i) => i < |s.pool| && 0 <= s.mama.assignNextIndex
    case _ => true
  }

  ghost function Next(s: State, e: Event): State
    requires Defined(s, e)
  {
    match e
    case TryEvent(fd, compiles) => TryMatch(s, fd, compiles)
    case QuitEvent(fd, junk) => Leave(s, fd, junk, false)
    case CloseEvent(fd, junk) => Leave(s, fd, junk, true)
    case AnswerEvent(i, result) => Receive(s, i, result)
    case JudgeEvent => Judge(s)
    case LiftEvent => Lift(s)
    case StartEvent => StartJob(s)
    case AssignEvent(i) => Assign(s, i)
  }

  ghost predicate Step(s: State, e: Event, accepts: Filters, t: State) {
    Enabled(s, e, accepts) && Defined(s, e) && t == Next(s, e)
  }

  ghost predicate IsRun(states: seq<State>, events: seq<Event>, accepts: Filters) {
    && |states| == |events| + 1
    && states[0] == INIT_STATE
    && forall i {:trigger events[i]} :: 0 <= i < |events| ==> Step(states[i], events[i], accepts, states[i + 1])
  }

  // ----- the conditions under which the code works -----

  /** Nobody tries who is pending already, and nobody quits a match whose partner is pending again. */
  predicate Orderly(s: State, e: Event) {
    match e
    case TryEvent(fd, _) => fd !in s.request
    case QuitEvent(fd, _) => ClientOf(s, fd).status.Matched? ==> ClientOf(s, fd).friend !in s.request
    case _ => true
  }

  ghost predicate RunIsOrderly(states: seq<State>, events: seq<Event>)
    requires |states| == |events| + 1
  {
    forall i {:trigger events[i]} :: 0 <= i < |events| ==> Orderly(states[i], events[i])
  }

  predicate AtSolution(s: State, fd: Fd) {
    0 <= s.mama.solution < |s.waitingList| && s.waitingList[s.mama.solution] == fd
  }

  /** The client found so far stays, or nobody is being worked on, or the next one has been dispatched and agrees too. */
  predicate Harmless(s: State, accepts: Filters, fd: Fd) {
    !AtSolution(s, fd) || s.mama.workingOnFd == -1
    || (s.mama.solution + 1 < s.mama.assignNextIndex <= |s.waitingList| && MatchesAt(s, accepts, s.mama.solution + 1))
  }

  ghost predicate DeparturesAreHarmless(states: seq<State>, events: seq<Event>, accepts: Filters)
    requires |states| == |events| + 1
  {
    forall i {:trigger events[i]} :: 0 <= i < |events| && Leaves(events[i]) ==> Harmless(states[i], accepts, events[i].fd)
  }

  /** The lift cannot hide a client from the running search: there is none, or it is over, or it still assigns, or it has
      found a client. */
  predicate CleanLift(s: State) {
    Lift(s) == s || !s.mama.hasJob || s.mama.needToAssignJob || s.mama.workingOnFd == -1 || s.mama.solution != NO_SOLUTION
  }

  ghost predicate LiftsAreClean(states: seq<State>, events: seq<Event>)
    requires |states| == |events| + 1
  {
    forall i {:trigger events[i]} :: 0 <= i < |events| && events[i].LiftEvent? ==> CleanLift(states[i])
  }

  ghost predicate VerdictsAreCovered(states: seq<State>, events: seq<Event>)
    requires |states| == |events| + 1
  {
    forall i {:trigger events[i]} :: 0 <= i < |events| && events[i].JudgeEvent? ==> !Uncovered(states[i])
  }

  /** The sequential search the server replaces: scan from the front for the first request that agrees with `r`. */
  function FirstMatch(accepts: Filters, r: Request, list: seq<Request>, from: nat := 0): nat
    decreases |list| - from
  {
    if from >= |list| then NO_SOLUTION
    else if Agree(accepts, r, list[from]) then from
    else FirstMatch(accepts, r, list, from + 1)
  }

  /** The clients of the waiting list that were given to workers for the current job. */
  function Dispatched(s: State): seq<Fd> {
    if 0 <= s.mama.assignNextIndex <= |s.waitingList| then s.waitingList[..s.mama.assignNextIndex] else []
  }

  /** What a sequential server would do with the client being worked on: pair it with the first client of the waiting
      list that agrees with it, or else append it. */
  function Sequential(s: State, accepts: Filters): State {
    var k := FirstMatch(accepts, RequestOf(s, s.mama.workingOnFd), Requests(s, s.waitingList));
    var after := s.(mama := BOSS_INIT, asked := []);
    if k >= |s.waitingList| then after.(waitingList := s.waitingList + [s.mama.workingOnFd])
    else after.(waitingList := EraseAt(s.waitingList, k),
                clients := StartChats(s.clients, s.mama.workingOnFd, s.waitingList[k]),
                request := s.request - {s.mama.workingOnFd, s.waitingList[k]})
  }

  function Requests(s: State, fds: seq<Fd>): (rs: seq<Request>)
    ensures |rs| == |fds|
    ensures forall i :: 0 <= i < |fds| ==> rs[i] == RequestOf(s, fds[i])
  {
    seq(|fds|, i requires 0 <= i < |fds| => RequestOf(s, fds[i]))
  }
}
