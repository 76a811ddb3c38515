/** The matchmaking server as the source writes it: global lists and a process pool updated in place. */
module Matchmaker {
  import opened Sequences
  import opened Matchmaking
  import opened MatchmakingProofs
  import opened MatchmakingRuns

  datatype Process = Process(working: bool, waitingListIndex: int, validAns: bool, first: Fd, second: Fd)

  function WorkerOf(p: Process, asked: (Request, Request)): Worker {
    Worker(p.working, p.waitingListIndex, p.validAns, p.first, p.second, asked.0, asked.1)
  }

  function PoolOf(processes: seq<Process>, askedOf: seq<(Request, Request)>): (pool: seq<Worker>)
    requires |askedOf| == |processes|
    ensures |pool| == |processes| && forall i :: 0 <= i < |pool| ==> pool[i] == WorkerOf(processes[i], askedOf[i])
  {
    seq(|processes|, i requires 0 <= i < |processes| => WorkerOf(processes[i], askedOf[i]))
  }

  class Server {
    var tryList: seq<Fd>
    var waitingList: seq<Fd>
    var mama: Boss
    const processPool: array<Process>
    const clients: array<Client>

    /** History that the server keeps no record of: see `Matchmaking.State`. */
    ghost var request: map<Fd, Request>
    ghost var nextRequest: Request
    ghost var asked: seq<Request>
    ghost var rejected: set<(Request, Request)>
    /** The requests that each worker was given last. */
    ghost var askedOf: seq<(Request, Request)>
    ghost const accepts: Filters

    ghost function Pool(): seq<Worker>
      reads `askedOf, processPool
    {
      if |askedOf| == processPool.Length then PoolOf(processPool[..], askedOf) else []
    }

    ghost function Clients(): map<Fd, Client>
      reads clients
    {
      map fd: Fd | 0 <= fd < clients.Length :: clients[fd]
    }

    ghost function View(): State
      reads this, processPool, clients
    {
      State(tryList, waitingList, mama, Pool(), Clients(), request, nextRequest, asked, rejected)
    }

    ghost predicate Shape()
      reads this, processPool, clients
    {
      processPool.Length == |askedOf| == MAX_P && clients.Length == MAX_CLIENTS
    }

    ghost predicate Valid()
      reads this, processPool, clients
    {
      Shape() && Inv(View(), accepts)
    }

    constructor (ghost accepts: Filters)
      ensures Valid() && View() == INIT_STATE && this.accepts == accepts && fresh(processPool) && fresh(clients)
    {
      tryList, waitingList, mama := [], [], BOSS_INIT;
      processPool := new Process[MAX_P](_ => Process(false, -1, false, 0, 0));
      clients := new Client[MAX_CLIENTS](_ => CLIENT_INIT);
      this.accepts := accepts;
      request, nextRequest, asked, rejected, askedOf := map[], 0, [], {}, seq(MAX_P, _ => (0, 0));
      new;
      assert Pool() == INIT_STATE.pool;
      assert Clients() == INIT_CLIENTS;
      InitInv(accepts);
    }

    method SetStatus(fd: Fd, status: Status)
      requires Shape() && 0 <= fd < MAX_CLIENTS
      modifies clients
      ensures View() == WithStatus(old(View()), fd, status)
    {
      clients[fd] := clients[fd].(status := status);
      assert Clients() == WithStatus(old(View()), fd, status).clients;
    }

    /** A `try_match` message, whatever the client has sent before; one whose filter does not compile enters no list. */
    method TryMatch(fd: Fd, compiles: bool)
      requires Shape() && 0 <= fd < MAX_FD
      modifies this`tryList, this`request, this`nextRequest, clients
      ensures Shape() && View() == Matchmaking.TryMatch(old(View()), fd, compiles)
      ensures old(Valid()) && fd !in old(request) ==> Valid()
    {
      ghost var s := View();
      if Valid() && fd !in request {
        TryMatchKeepsInv(s, accepts, fd, compiles);
      }
      SetStatus(fd, Trying);
      if compiles {
        tryList := tryList + [fd];
      }
      if compiles || fd in request {
        request, nextRequest := request[fd := nextRequest], nextRequest + 1;
      }
    }

    /** A `quit` message. */
    method Quit(fd: Fd, junk: seq<Fd>)
      requires Valid() && 0 <= fd < MAX_FD && Defined(View(), QuitEvent(fd, junk))
      modifies this, processPool, clients
      ensures Shape() && View() == Leave(old(View()), fd, junk, false)
      ensures Orderly(old(View()), QuitEvent(fd, junk)) ==> Valid()
    {
      ghost var s := View();
      if Orderly(s, QuitEvent(fd, junk)) {
        LeaveKeepsInv(s, accepts, fd, junk, false);
      }
      assert clients[fd] == ClientOf(s, fd);
      if clients[fd].status.Matched? {
        var friend := clients[fd].friend;
        request := request - {fd};
        SetStatus(friend, Idle);
      } else if clients[fd].status.Trying? {
        RemoveTryMatch(fd, junk);
      } else {
        request := request - {fd};
      }
      SetStatus(fd, Idle);
    }

    /** The connection of a client is found closed. */
    method Close(fd: Fd, junk: seq<Fd>)
      requires Valid() && 0 <= fd < MAX_FD && Defined(View(), CloseEvent(fd, junk))
      modifies this, processPool, clients
      ensures Valid() && View() == Leave(old(View()), fd, junk, true)
    {
      ghost var s := View();
      LeaveKeepsInv(s, accepts, fd, junk, true);
      assert clients[fd] == ClientOf(s, fd);
      if clients[fd].status.Trying? {
        RemoveTryMatch(fd, junk);
      } else {
        request := request - {fd};
      }
      SetStatus(fd, Idle);
    }

    /** `junk` is what reading the waiting list out of range would yield for each worker. */
    method RemoveTryMatch(fd: Fd, junk: seq<Fd>)
      requires Shape() && |junk| == MAX_P && Placed(View(), fd)
      modifies this`tryList, this`waitingList, this`mama, this`request, processPool
      ensures Shape() && View() == Remove(old(View()), fd, junk)
      ensures old(Valid()) && fd in old(request) ==> Valid()
    {
      if Valid() && fd in request {
        RemoveKeepsInv(View(), accepts, fd, junk);
      }
      InvalidateWorkers(fd, junk);
      request := request - {fd};
      var erased := EraseFromTryList(fd);
      if erased {
        return;
      }
      if fd == mama.workingOnFd {
        mama := mama.(workingOnFd := -1);
        return;
      }
      var quitIdx := FindInWaitingList(fd);
      EraseFromWaitingList(quitIdx);
    }

    method EraseFromTryList(fd: Fd) returns (erased: bool)
      modifies this`tryList
      ensures erased == (fd in old(tryList))
      ensures tryList == if erased then EraseAt(old(tryList), FirstIndexOf(old(tryList), fd)) else old(tryList)
    {
      for i := 0 to |tryList|
        invariant forall j :: 0 <= j < i ==> tryList[j] != fd
      {
        if tryList[i] == fd {
          tryList := tryList[..i] + tryList[i + 1..];
          return true;
        }
      }
      return false;
    }

    /** The last match wins; a client that is not there gives 4096. */
    method FindInWaitingList(fd: Fd) returns (quitIdx: nat)
      ensures fd in waitingList ==> quitIdx == LastIndexOf(waitingList, fd)
      ensures fd !in waitingList ==> quitIdx == 4096
    {
      quitIdx := 4096;
      for i := 0 to |waitingList|
        invariant (quitIdx == 4096 && forall j :: 0 <= j < i ==> waitingList[j] != fd)
                  || (quitIdx < i && waitingList[quitIdx] == fd
                      && forall j :: quitIdx < j < i ==> waitingList[j] != fd)
      {
        if waitingList[i] == fd {
          quitIdx := i;
        }
      }
    }

    /** The rest of `remove_try_match`: erase, and move up the indices behind. */
    method EraseFromWaitingList(quitIdx: nat)
      requires Shape() && quitIdx < |waitingList|
      modifies this`waitingList, this`mama, processPool
      ensures Shape() && View() == RemoveWaiting(old(View()), quitIdx)
    {
      waitingList := waitingList[..quitIdx] + waitingList[quitIdx + 1..];
      MoveWorkersUp(quitIdx);
      if quitIdx < mama.assignNextIndex {
        mama := mama.(assignNextIndex := mama.assignNextIndex - 1);
      }
      if quitIdx < mama.solution && mama.solution != 4096 {
        mama := mama.(solution := mama.solution - 1);
      }
    }

    /** The first loop of `remove_try_match`. */
    method InvalidateWorkers(fd: Fd, junk: seq<Fd>)
      requires Shape() && |junk| == MAX_P
      modifies processPool
      ensures Pool() == InvalidatePool(old(View()), fd, junk)
    {
      ghost var before := View();
      for i := 0 to MAX_P
        invariant forall j :: 0 <= j < i ==> Pool()[j] == Invalidate(before, fd, before.pool[j], junk[j])
        invariant forall j :: i <= j < MAX_P ==> processPool[j] == old(processPool[j])
      {
        var waitIdx := processPool[i].waitingListIndex;
        var read := if 0 <= waitIdx < |waitingList| then waitingList[waitIdx] else junk[i];
        if mama.workingOnFd == fd || read == fd {
          processPool[i] := processPool[i].(validAns := false);
        }
      }
    }

    /** The loop of `remove_try_match` that moves the workers' indices. */
    method MoveWorkersUp(quitIdx: nat)
      requires Shape()
      modifies processPool
      ensures Pool() == ShiftPool(quitIdx, old(Pool()))
    {
      for i := 0 to MAX_P
        invariant forall j :: 0 <= j < i ==> Pool()[j] == ShiftIndex(quitIdx, old(Pool())[j])
        invariant forall j :: i <= j < MAX_P ==> processPool[j] == old(processPool[j])
      {
        if quitIdx < processPool[i].waitingListIndex {
          processPool[i] := processPool[i].(waitingListIndex := processPool[i].waitingListIndex - 1);
        }
      }
    }

    method ReceiveFromChild(i: nat, result: bool)
      requires Valid() && Enabled(View(), AnswerEvent(i, result), accepts)
      modifies this`mama, this`rejected, processPool
      ensures Valid() && View() == Receive(old(View()), i, result)
    {
      ghost var s := View();
      ReceiveKeepsInv(s, accepts, i, result);
      processPool[i] := processPool[i].(working := false);
      if processPool[i].validAns && !result {
        rejected := rejected + {askedOf[i]};
      }
      if processPool[i].validAns && result && processPool[i].waitingListIndex < mama.solution {
        mama := mama.(solution := processPool[i].waitingListIndex);
      }
      assert Pool() == s.pool[i := s.pool[i].(working := false)];
    }

    method StartChat(fd: Fd, friend: Fd)
      requires Shape() && 0 <= fd < MAX_CLIENTS
      modifies clients
      ensures Clients() == old(Clients())[fd := Client(Matched, friend)] && Pool() == old(Pool())
    {
      clients[fd] := Client(Matched, friend);
    }

    /** Is some worker still at work? */
    method SomeoneWorks() returns (works: bool)
      requires Shape()
      ensures works <==> !AllIdle(Pool())
    {
      for i := 0 to MAX_P
        invariant forall j :: 0 <= j < i ==> !Pool()[j].working
      {
        if processPool[i].working {
          assert Pool()[i].working;
          return true;
        }
      }
      return false;
    }

    /** `matched` is the pair that is told to chat, if there is one. */
    method JudgeAnswer() returns (matched: seq<Fd>)
      requires Valid() && Defined(View(), JudgeEvent)
      modifies this`waitingList, this`mama, this`request, this`asked, clients
      ensures Valid() && View() == Judge(old(View()))
      ensures matched == if old(Concludes(View()) && mama.workingOnFd != -1 && mama.solution < NO_SOLUTION)
                         then [old(mama.workingOnFd), old(waitingList)[old(mama.solution)]] else []
    {
      matched := [];
      ghost var s := View();
      JudgeKeepsInv(s, accepts);
      if !mama.hasJob || mama.needToAssignJob {
        return;
      }
      var works := SomeoneWorks();
      if works {
        return;
      }
      assert mama.workingOnFd != -1 ==> mama.workingOnFd in request;
      assert 0 <= mama.solution < |waitingList| ==> waitingList[mama.solution] in waitingList;
      matched := Conclude();
    }

    /** All workers have answered. */
    method Conclude() returns (matched: seq<Fd>)
      requires Shape() && Concludes(View()) && Defined(View(), JudgeEvent)
      requires mama.workingOnFd == -1 || 0 <= mama.workingOnFd < MAX_FD
      requires 0 <= mama.solution < |waitingList| ==> 0 <= waitingList[mama.solution] < MAX_FD
      modifies this`waitingList, this`mama, this`request, this`asked, clients
      ensures Shape() && View() == Judge(old(View()))
      ensures matched == if old(mama.workingOnFd != -1 && mama.solution < NO_SOLUTION)
                         then [old(mama.workingOnFd), old(waitingList)[old(mama.solution)]] else []
    {
      matched := [];
      if mama.workingOnFd != -1 {
        if mama.solution < 4096 {
          matched := Pair();
        } else {
          waitingList := waitingList + [mama.workingOnFd];
        }
      }
      asked := [];
      mama := BOSS_INIT;
    }

    /** The two clients of a successful search start to chat. */
    method Pair() returns (matched: seq<Fd>)
      requires Shape() && 0 <= mama.workingOnFd < MAX_FD && 0 <= mama.solution < |waitingList|
      requires 0 <= waitingList[mama.solution] < MAX_FD
      modifies this`waitingList, this`request, clients
      ensures matched == [mama.workingOnFd, old(waitingList)[mama.solution]]
      ensures waitingList == EraseAt(old(waitingList), mama.solution) && Pool() == old(Pool())
      ensures Clients() == StartChats(old(Clients()), matched[0], matched[1])
      ensures request == old(request) - {matched[0], matched[1]}
    {
      var client1 := mama.workingOnFd;
      var client2 := waitingList[mama.solution];
      StartChat(client1, client2);
      StartChat(client2, client1);
      matched := [client1, client2];
      request := request - {client1, client2};
      waitingList := waitingList[..mama.solution] + waitingList[mama.solution + 1..];
    }

    method Lift()
      requires Valid()
      modifies this`tryList, this`waitingList
      ensures Valid() && View() == Matchmaking.Lift(old(View()))
    {
      ghost var s := View();
      LiftKeepsInv(s, accepts);
      if |waitingList| == 0 && |tryList| > 0 {
        assert waitingList + [tryList[0]] == [tryList[0]];
        waitingList := waitingList + [tryList[0]];
        tryList := tryList[1..];
      }
    }

    method StartJob()
      requires Valid()
      modifies this`tryList, this`mama
      ensures Valid() && View() == Matchmaking.StartJob(old(View()))
    {
      ghost var s := View();
      StartJobKeepsInv(s, accepts);
      if |tryList| > 0 && !mama.hasJob {
        mama := mama.(needToAssignJob := true, hasJob := true, workingOnFd := tryList[0]);
        tryList := tryList[1..];
      }
    }

    method GoToWork(i: nat, waitIdx: nat)
      requires Shape() && i < MAX_P && waitIdx < |waitingList|
      modifies this`asked, this`askedOf, processPool
      ensures Shape() && asked == old(asked) + [RequestOf(old(View()), waitingList[waitIdx])]
      ensures Pool() == old(Pool())[i := Worker(true, waitIdx, true, mama.workingOnFd, waitingList[waitIdx],
                                                RequestOf(old(View()), mama.workingOnFd),
                                                RequestOf(old(View()), waitingList[waitIdx]))]
    {
      processPool[i] := Process(true, waitIdx, true, mama.workingOnFd, waitingList[waitIdx]);
      ghost var s := old(View());
      askedOf := askedOf[i := (RequestOf(s, mama.workingOnFd), RequestOf(s, waitingList[waitIdx]))];
      asked := asked + [RequestOf(s, waitingList[waitIdx])];
    }

    method AssignJobs(i: nat)
      requires Valid() && i < MAX_P && (mama.needToAssignJob ==> !NothingToAssign(View()))
      modifies this`mama, this`asked, this`askedOf, processPool
      ensures Valid() && View() == Assign(old(View()), i)
    {
      AssignKeepsInv(View(), accepts, i);
      if !mama.needToAssignJob || processPool[i].working {
        return;
      }
      DispatchNext(i);
    }

    method DispatchNext(i: nat)
      requires Shape() && i < MAX_P && 0 <= mama.assignNextIndex < |waitingList|
      modifies this`mama, this`asked, this`askedOf, processPool
      ensures Shape() && View() == Dispatch(old(View()), i)
    {
      GoToWork(i, mama.assignNextIndex);
      mama := mama.(assignNextIndex := mama.assignNextIndex + 1);
    }

    /** The assignment loop at the end of a round of the main loop. */
    method AssignAll()
      requires Valid()
      modifies this`mama, this`asked, this`askedOf, processPool
      ensures Valid() && View() == AssignFrom(old(View()), 0)
    {
      for i := 0 to MAX_P
        invariant Valid() && AssignFrom(View(), i) == AssignFrom(old(View()), 0)
      {
        AssignTurn(i);
      }
    }

    /** The body of that loop. */
    method AssignTurn(i: nat)
      requires Valid() && i < MAX_P
      modifies this`mama, this`asked, this`askedOf, processPool
      ensures Valid() && View() == Assign(old(View()), i)
    {
      ghost var s := View();
      AssignKeepsInv(s, accepts, i);
      if |waitingList| == 0 || mama.assignNextIndex >= |waitingList| || mama.workingOnFd == -1 || mama.solution < 4096 {
        StopAssigningKeepsInv(s, accepts);
        mama := mama.(needToAssignJob := false);
      }
      AssignJobs(i);
    }

    /** One round of the main loop after the events have been handled. */
    method Round() returns (matched: seq<Fd>)
      requires Valid() && Defined(View(), JudgeEvent)
      modifies this, processPool, clients
      ensures Valid()
      ensures View() == AssignFrom(Matchmaking.StartJob(Matchmaking.Lift(Judge(old(View())))), 0)
    {
      matched := JudgeAnswer();
      Lift();
      StartJob();
      AssignAll();
    }
  }

  /** What a worker does with a pair: it asks the first one's filter, and the second one's only if that accepts. */
  method TestPair(accepts: Filters, first: Request, second: Request) returns (result: bool)
    ensures result <==> accepts(first, second) && accepts(second, first)
    ensures result == Agree(accepts, first, second)
  {
    result := accepts(first, second);
    if result {
      result := accepts(second, first);
    }
  }

  ghost function AssignFrom(s: State, i: nat): State
    requires |s.pool| == MAX_P && 0 <= s.mama.assignNextIndex && i <= MAX_P
    decreases MAX_P - i
  {
    if i == MAX_P then s else AssignFrom(Assign(s, i), i + 1)
  }

  lemma StopAssigningKeepsInv(s: State, accepts: Filters)
    requires Inv(s, accepts)
    ensures Inv(s.(mama := s.mama.(needToAssignJob := false)), accepts)
  {
    var t := s.(mama := s.mama.(needToAssignJob := false));
    assert forall k :: BeingAsked(t, k) == BeingAsked(s, k);
    assert forall x :: ClientOf(t, x) == ClientOf(s, x);
  }
}
