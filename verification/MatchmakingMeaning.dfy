/** What the steps of the matchmaking server come to, said of the two filters, the lists and the statuses themselves. */
module MatchmakingMeaning {
  import opened Sequences
  import opened Matchmaking
  import opened MatchmakingProofs
  import opened MatchmakingRuns

  // ----- the verdict -----

  lemma WaitingClientsHaveRequests(s: State)
    requires Conserved(s)
    ensures forall i :: 0 <= i < |s.waitingList| ==> s.waitingList[i] in s.request
  {
    assert forall fd :: fd in s.waitingList ==> fd in s.request;
  }

  /** A step of the run that concludes a job.  The verdict asks both filters: it takes the first of the dispatched clients
      of which both sides accept each other (position `k`), or, if there is none (`k` is their number), it appends the
      working client, whom or by whom each of them is then refused. */
  lemma VerdictAsksBothFilters(states: seq<State>, events: seq<Event>, accepts: Filters, n: nat) returns (k: nat)
    requires IsRun(states, events, accepts) && RunIsOrderly(states, events) && n < |events| && events[n] == JudgeEvent
    requires DeparturesAreHarmless(states, events, accepts)
    requires var s := states[n];
      && s.mama.hasJob && !s.mama.needToAssignJob && s.mama.workingOnFd != -1
      && forall i :: 0 <= i < |s.pool| ==> !s.pool[i].working
    ensures k <= states[n].mama.assignNextIndex <= |states[n].waitingList|
    ensures states[n].mama.workingOnFd in states[n].request
    ensures forall i :: 0 <= i < |states[n].waitingList| ==> states[n].waitingList[i] in states[n].request
    ensures var s, w := states[n], states[n].mama.workingOnFd;
      && (forall i :: 0 <= i < k ==>
            !accepts(s.request[w], s.request[s.waitingList[i]]) || !accepts(s.request[s.waitingList[i]], s.request[w]))
      && (k < s.mama.assignNextIndex ==>
            accepts(s.request[w], s.request[s.waitingList[k]]) && accepts(s.request[s.waitingList[k]], s.request[w]))
    ensures var s, t, w := states[n], states[n + 1], states[n].mama.workingOnFd;
      if k < s.mama.assignNextIndex then
        && t.waitingList == s.waitingList[..k] + s.waitingList[k + 1..]
        && t.clients == s.clients[w := Client(Matched, s.waitingList[k])][s.waitingList[k] := Client(Matched, w)]
        && t.request == s.request - {w, s.waitingList[k]}
      else
        t.waitingList == s.waitingList + [w] && t.clients == s.clients && t.request == s.request
    ensures var s, t := states[n], states[n + 1];
      t.tryList == s.tryList && !t.mama.hasJob && t.mama.workingOnFd == -1 && t.mama.assignNextIndex == 0
    ensures VerdictsAreCovered(states, events) && k == states[n].mama.assignNextIndex ==> k == |states[n].waitingList|
  {
    var s, w := states[n], states[n].mama.workingOnFd;
    SoundOnEveryRun(states, events, accepts, n);
    ListsStayBelowTheSentinel(s);
    assert Step(s, events[n], accepts, states[n + 1]);
    k := if s.mama.solution == NO_SOLUTION then s.mama.assignNextIndex else s.mama.solution;
    WaitingClientsHaveRequests(s);
    forall i | 0 <= i < s.mama.assignNextIndex
      ensures !BeingAsked(s, i)
      ensures MatchesAt(s, accepts, i) <==>
              accepts(s.request[w], s.request[s.waitingList[i]]) && accepts(s.request[s.waitingList[i]], s.request[w])
      ensures s.mama.solution == NO_SOLUTION ==> !MatchesAt(s, accepts, i)
    {
      IdlePoolHasAnswered(s, accepts, i);
    }
    assert VerdictsAreCovered(states, events) && s.mama.solution == NO_SOLUTION ==> !Uncovered(s);
  }

  // ----- the order of arrival -----

  /** Requests are numbered as they come, and those who wait for their turn stand in this order. */
  ghost predicate InOrderOfArrival(s: State) {
    forall i, j :: 0 <= i < j < |s.tryList| ==> RequestOf(s, s.tryList[i]) < RequestOf(s, s.tryList[j])
  }

  /** Nobody jumps the queue: a list that drops some elements and gets a new last one stays in order. */
  lemma SublistIsInOrder(s: State, t: State, k: nat)
    requires InOrderOfArrival(s) && NoDup(s.tryList) && k < |s.tryList|
    requires t.tryList == s.tryList[..k] + s.tryList[k + 1..]
    requires forall fd :: fd in s.tryList && fd != s.tryList[k] ==> RequestOf(t, fd) == RequestOf(s, fd)
    ensures InOrderOfArrival(t)
  {
    forall i | 0 <= i < |t.tryList|
      ensures t.tryList[i] == s.tryList[if i < k then i else i + 1] && t.tryList[i] in s.tryList
    {
    }
  }

  lemma SameQueueIsInOrder(s: State, t: State)
    requires InOrderOfArrival(s) && t.tryList == s.tryList
    requires forall fd :: fd in s.tryList ==> RequestOf(t, fd) == RequestOf(s, fd)
    ensures InOrderOfArrival(t)
  {
    forall i | 0 <= i < |s.tryList|
      ensures s.tryList[i] in s.tryList
    {
    }
  }

  lemma ArrivalIsInOrder(s: State, fd: Fd, compiles: bool)
    requires Conserved(s) && InOrderOfArrival(s) && fd !in s.request
    ensures InOrderOfArrival(TryMatch(s, fd, compiles))
  {
    var t := TryMatch(s, fd, compiles);
    forall i | 0 <= i < |s.tryList|
      ensures RequestOf(t, s.tryList[i]) == RequestOf(s, s.tryList[i]) < s.nextRequest
    {
      assert s.tryList[i] in s.tryList;
    }
    assert compiles ==> RequestOf(t, fd) == s.nextRequest;
  }

  lemma LeaveKeepsOrder(s: State, fd: Fd, junk: seq<Fd>, closes: bool)
    requires Conserved(s) && InOrderOfArrival(s) && |junk| == |s.pool|
    requires ClientOf(s, fd).status.Trying? ==> Placed(s, fd)
    requires !ClientOf(s, fd).status.Trying? ==> fd !in s.request
    ensures InOrderOfArrival(Leave(s, fd, junk, closes))
  {
    var t := Leave(s, fd, junk, closes);
    assert forall x :: x != fd ==> RequestOf(t, x) == RequestOf(s, x);
    if ClientOf(s, fd).status.Trying? && fd in s.tryList {
      SublistIsInOrder(s, t, FirstIndexOf(s.tryList, fd));
    } else {
      SameQueueIsInOrder(s, t);
    }
  }

  lemma VerdictKeepsOrder(s: State)
    requires Conserved(s) && InOrderOfArrival(s) && Defined(s, JudgeEvent)
    ensures InOrderOfArrival(Judge(s))
  {
    forall fd | fd in s.tryList
      ensures RequestOf(Judge(s), fd) == RequestOf(s, fd)
    {
      assert fd != s.mama.workingOnFd && fd !in s.waitingList;
    }
    SameQueueIsInOrder(s, Judge(s));
  }

  lemma TakingFirstKeepsOrder(s: State, t: State)
    requires Conserved(s) && InOrderOfArrival(s) && t.request == s.request
    requires t.tryList == s.tryList || (s.tryList != [] && t.tryList == s.tryList[1..])
    ensures InOrderOfArrival(t)
  {
    if t.tryList == s.tryList {
      SameQueueIsInOrder(s, t);
    } else {
      SublistIsInOrder(s, t, 0);
    }
  }

  lemma StepKeepsOrder(s: State, e: Event, accepts: Filters, t: State)
    requires Inv(s, accepts) && InOrderOfArrival(s) && Step(s, e, accepts, t) && Orderly(s, e)
    ensures InOrderOfArrival(t)
  {
    match e
    case TryEvent(fd, compiles) => ArrivalIsInOrder(s, fd, compiles);
    case QuitEvent(fd, junk) => LeaveKeepsOrder(s, fd, junk, false);
    case CloseEvent(fd, junk) => LeaveKeepsOrder(s, fd, junk, true);
    case JudgeEvent => VerdictKeepsOrder(s);
    case LiftEvent => TakingFirstKeepsOrder(s, t);
    case StartEvent => TakingFirstKeepsOrder(s, t);
    case _ => SameQueueIsInOrder(s, t);
  }

  lemma {:induction false} OrderOnEveryRun(states: seq<State>, events: seq<Event>, accepts: Filters, n: nat)
    requires IsRun(states, events, accepts) && RunIsOrderly(states, events) && n <= |events|
    ensures Inv(states[n], accepts) && InOrderOfArrival(states[n])
  {
    InvOnEveryRun(states, events, accepts, n);
    if n > 0 {
      OrderOnEveryRun(states, events, accepts, n - 1);
      StepKeepsOrder(states[n - 1], events[n - 1], accepts, states[n]);
    }
  }

  /** Clients are served in the order of their arrival: whoever the main loop takes, to be worked on or to wait alone, came
      before everyone who is left; and it takes somebody whenever it can. */
  lemma ServedInOrderOfArrival(states: seq<State>, events: seq<Event>, accepts: Filters, n: nat)
    requires IsRun(states, events, accepts) && RunIsOrderly(states, events) && n < |events|
    requires events[n].StartEvent? || events[n].LiftEvent?
    ensures forall fd :: fd in states[n].tryList ==> fd in states[n].request
    ensures var s, t := states[n], states[n + 1];
      && t.request == s.request && t.clients == s.clients
      && (t.tryList == s.tryList <==>
            s.tryList == [] || (if events[n].StartEvent? then s.mama.hasJob else s.waitingList != []))
      && (t.tryList == s.tryList ==> t.mama == s.mama && t.waitingList == s.waitingList)
      && (t.tryList != s.tryList ==>
            exists fd :: fd in s.tryList && fd !in t.tryList && s.tryList == [fd] + t.tryList
              && (forall other :: other in t.tryList ==> s.request[fd] < s.request[other])
              && (if events[n].StartEvent? then t.mama.workingOnFd == fd && t.mama.hasJob && t.mama.needToAssignJob
                  else t.waitingList == [fd]))
  {
    OrderOnEveryRun(states, events, accepts, n);
    var s, t := states[n], states[n + 1];
    assert Step(s, events[n], accepts, t);
    if t.tryList != s.tryList {
      var fd := s.tryList[0];
      assert s.tryList == [fd] + t.tryList;
      forall other | other in t.tryList
        ensures s.request[fd] < s.request[other] && other != fd
      {
        var i :| 0 <= i < |t.tryList| && t.tryList[i] == other;
        assert s.tryList[i + 1] == other && other in s.tryList;
      }
      assert fd in s.tryList && fd !in t.tryList;
    }
  }

  // ----- statuses -----

  /** The server keeps a record for every descriptor. */
  lemma {:induction false} EveryClientHasRecord(states: seq<State>, events: seq<Event>, accepts: Filters, n: nat)
    requires IsRun(states, events, accepts) && n <= |events|
    ensures forall fd :: 0 <= fd < MAX_CLIENTS ==> fd in states[n].clients
  {
    if n > 0 {
      EveryClientHasRecord(states, events, accepts, n - 1);
      assert Step(states[n - 1], events[n - 1], accepts, states[n]);
      RecordsStay(states[n - 1], events[n - 1], accepts, states[n]);
    }
  }

  lemma RecordsStay(s: State, e: Event, accepts: Filters, t: State)
    requires Step(s, e, accepts, t)
    ensures forall fd :: fd in s.clients ==> fd in t.clients
  {
  }

  /** A client that leaves is idle afterwards and has no request.  If it was matched, nothing else changes, but that a
      `quit` makes the partner idle as well; if it wanted a match, nobody else's status changes. */
  lemma LeavingChangesStatuses(states: seq<State>, events: seq<Event>, accepts: Filters, n: nat)
    requires IsRun(states, events, accepts) && RunIsOrderly(states, events) && n < |events|
    requires events[n].QuitEvent? || events[n].CloseEvent?
    ensures forall fd :: 0 <= fd < MAX_CLIENTS ==> fd in states[n].clients && fd in states[n + 1].clients
    ensures 0 <= events[n].fd < MAX_CLIENTS
    ensures var s, t, c := states[n], states[n + 1], states[n].clients[events[n].fd];
      && t.request == s.request - {events[n].fd}
      && (forall x :: 0 <= x < MAX_CLIENTS ==>
            && t.clients[x].friend == s.clients[x].friend
            && t.clients[x].status ==
                 if x == events[n].fd || (events[n].QuitEvent? && c.status == Matched && x == c.friend) then Idle
                 else s.clients[x].status)
      && (c.status != Trying ==>
            t.tryList == s.tryList && t.waitingList == s.waitingList && t.mama == s.mama && t.pool == s.pool)
  {
    EveryClientHasRecord(states, events, accepts, n);
    EveryClientHasRecord(states, events, accepts, n + 1);
    InvOnEveryRun(states, events, accepts, n);
    assert Step(states[n], events[n], accepts, states[n + 1]);
  }

  // ----- what can happen -----

  /** Any client can send anything at any time, and the main loop can go on in any order.  Only an answer takes a worker that
      is busy; if it is valid, it is the verdict of both filters on the requests that the two clients have now. */
  lemma WhatCanHappenIff(states: seq<State>, events: seq<Event>, accepts: Filters, n: nat, e: Event)
    requires IsRun(states, events, accepts) && RunIsOrderly(states, events) && n <= |events|
    ensures |states[n].pool| == 4
    ensures forall i :: 0 <= i < 4 && states[n].pool[i].working && states[n].pool[i].validAns ==>
              states[n].pool[i].first in states[n].request && states[n].pool[i].second in states[n].request
    ensures Enabled(states[n], e, accepts) <==>
            match e
            case TryEvent(fd, _) => 0 <= fd < 1025
            case QuitEvent(fd, junk) => 0 <= fd < 1025 && |junk| == 4
            case CloseEvent(fd, junk) => 0 <= fd < 1025 && |junk| == 4
            case AnswerEvent(i, result) =>
              && i < 4 && states[n].pool[i].working
              && (states[n].pool[i].validAns ==>
                    var a, b := states[n].request[states[n].pool[i].first], states[n].request[states[n].pool[i].second];
                    result <==> accepts(a, b) && accepts(b, a))
            case AssignEvent(i) => i < 4
            case _ => true
  {
    InvOnEveryRun(states, events, accepts, n);
    var s := states[n];
    forall i | 0 <= i < MAX_P && InFlight(s.pool[i])
      ensures s.pool[i].first in s.request && s.pool[i].second in s.request
      ensures s.pool[i].askedFirst == s.request[s.pool[i].first] && s.pool[i].askedSecond == s.request[s.pool[i].second]
    {
      assert CreditedTo(s, s.pool[i]);
      assert s.pool[i].second in s.waitingList;
    }
  }

  // ----- arrivals, workers and indices -----

  /** A client whose filter compiles is the last to be served, under a number of its own; in any case it is seen as
      trying. */
  lemma ArrivalsQueueUp(states: seq<State>, events: seq<Event>, accepts: Filters, n: nat)
    requires IsRun(states, events, accepts) && RunIsOrderly(states, events) && n < |events| && events[n].TryEvent?
    ensures events[n].fd in states[n].clients && events[n].fd !in states[n].request
    ensures var s, t, fd := states[n], states[n + 1], events[n].fd;
      && t.clients == s.clients[fd := Client(Trying, s.clients[fd].friend)]
      && t.waitingList == s.waitingList && t.mama == s.mama && t.pool == s.pool
      && (if events[n].compiles then
            && t.tryList == s.tryList + [fd] && fd in t.request && t.request == s.request[fd := t.request[fd]]
            && forall other :: other in s.request ==> s.request[other] < t.request[fd]
          else t.tryList == s.tryList && t.request == s.request)
  {
    EveryClientHasRecord(states, events, accepts, n);
    InvOnEveryRun(states, events, accepts, n);
    assert Step(states[n], events[n], accepts, states[n + 1]);
  }

  /** An answer frees its worker and nobody else; it becomes the solution if it is valid, a yes, and about a client nearer to
      the front than the one found so far. */
  lemma AnswersAreTaken(states: seq<State>, events: seq<Event>, accepts: Filters, n: nat)
    requires IsRun(states, events, accepts) && n < |events| && events[n].AnswerEvent?
    ensures var s, t, i := states[n], states[n + 1], events[n].worker;
      && i < |s.pool| == |t.pool| && s.pool[i].working && t.pool[i] == s.pool[i].(working := false)
      && (forall j :: 0 <= j < |s.pool| && j != i ==> t.pool[j] == s.pool[j])
      && t.mama == s.mama.(solution := t.mama.solution)
      && (if s.pool[i].validAns && events[n].result then
            t.mama.solution <= s.mama.solution && t.mama.solution <= s.pool[i].waitingListIndex
            && (t.mama.solution == s.mama.solution || t.mama.solution == s.pool[i].waitingListIndex)
          else t.mama.solution == s.mama.solution)
      && t.tryList == s.tryList && t.waitingList == s.waitingList && t.clients == s.clients && t.request == s.request
  {
    assert Step(states[n], events[n], accepts, states[n + 1]);
  }

  /** An idle worker is given the working client and the next one of the waiting list; assignment stops for good once there
      is no next one, the working client is gone, or somebody has been found. */
  lemma WorkersGetTheNextClient(states: seq<State>, events: seq<Event>, accepts: Filters, n: nat)
    requires IsRun(states, events, accepts) && RunIsOrderly(states, events) && n < |events| && events[n].AssignEvent?
    ensures var s, t, i, k := states[n], states[n + 1], events[n].worker, states[n].mama.assignNextIndex;
      var goesOn := s.mama.needToAssignJob && k < |s.waitingList| && s.mama.workingOnFd != -1 && s.mama.solution == 4096;
      && i < |s.pool| == |t.pool| && 0 <= k
      && (forall j :: 0 <= j < |s.pool| && j != i ==> t.pool[j] == s.pool[j])
      && (if goesOn && !s.pool[i].working then
            && t.pool[i].working && t.pool[i].validAns && t.pool[i].waitingListIndex == k
            && t.pool[i].first == s.mama.workingOnFd && t.pool[i].second == s.waitingList[k]
            && t.mama == s.mama.(assignNextIndex := k + 1)
          else t.pool[i] == s.pool[i] && t.mama == s.mama.(needToAssignJob := goesOn))
      && t.tryList == s.tryList && t.waitingList == s.waitingList && t.clients == s.clients && t.request == s.request
  {
    InvOnEveryRun(states, events, accepts, n);
    assert Step(states[n], events[n], accepts, states[n + 1]);
  }

  /** Whoever leaves the waiting list, everything kept about the clients behind it moves up by one and the rest stays; an
      answer under way stays valid unless it is about the one who leaves. */
  lemma IndicesFollowTheList(states: seq<State>, events: seq<Event>, accepts: Filters, n: nat, q: nat)
    requires IsRun(states, events, accepts) && RunIsOrderly(states, events) && n < |events|
    requires events[n].QuitEvent? || events[n].CloseEvent?
    requires q < |states[n].waitingList| && states[n].waitingList[q] == events[n].fd
    ensures |states[n].pool| == |states[n + 1].pool| == MAX_P
    ensures var s, t := states[n], states[n + 1];
      && t.waitingList == s.waitingList[..q] + s.waitingList[q + 1..] && t.tryList == s.tryList
      && t.mama.assignNextIndex == s.mama.assignNextIndex - (if q < s.mama.assignNextIndex then 1 else 0)
      && t.mama.solution == s.mama.solution - (if q < s.mama.solution != 4096 then 1 else 0)
      && t.mama == s.mama.(assignNextIndex := t.mama.assignNextIndex, solution := t.mama.solution)
      && forall i :: 0 <= i < MAX_P ==>
           && t.pool[i].waitingListIndex == s.pool[i].waitingListIndex - (if q < s.pool[i].waitingListIndex then 1 else 0)
           && t.pool[i].working == s.pool[i].working
           && (s.pool[i].working && s.pool[i].validAns ==> (t.pool[i].validAns <==> s.pool[i].waitingListIndex != q))
  {
    InvOnEveryRun(states, events, accepts, n);
    var s, fd := states[n], events[n].fd;
    assert Step(s, events[n], accepts, states[n + 1]);
    assert fd in s.waitingList && fd in s.request && fd != s.mama.workingOnFd && fd !in s.tryList;
    assert LastIndexOf(s.waitingList, fd) == q;
    forall i | 0 <= i < MAX_P && InFlight(s.pool[i])
      ensures CreditedTo(s, s.pool[i])
    {
    }
  }

  /** If the working client leaves, no answer under way is valid any more and the lists stay; if one leaves that still waits
      for its turn, nothing of the search changes. */
  lemma OtherDeparturesLeaveTheList(states: seq<State>, events: seq<Event>, accepts: Filters, n: nat)
    requires IsRun(states, events, accepts) && RunIsOrderly(states, events) && n < |events|
    requires events[n].QuitEvent? || events[n].CloseEvent?
    requires events[n].fd in states[n].request && events[n].fd !in states[n].waitingList
    ensures |states[n].pool| == |states[n + 1].pool| == MAX_P && states[n + 1].waitingList == states[n].waitingList
    ensures var s, t, fd := states[n], states[n + 1], events[n].fd;
      if fd == s.mama.workingOnFd then
        && t.tryList == s.tryList && t.mama == s.mama.(workingOnFd := -1)
        && forall i :: 0 <= i < MAX_P ==> !t.pool[i].validAns && t.pool[i] == s.pool[i].(validAns := false)
      else
        && t.mama == s.mama && (exists k :: 0 <= k < |s.tryList| && s.tryList[k] == fd
                                  && t.tryList == s.tryList[..k] + s.tryList[k + 1..])
        && forall i :: 0 <= i < MAX_P && s.pool[i].working && s.pool[i].validAns ==> t.pool[i] == s.pool[i]
  {
    InvOnEveryRun(states, events, accepts, n);
    var s, fd := states[n], events[n].fd;
    assert Step(s, events[n], accepts, states[n + 1]);
    if fd != s.mama.workingOnFd {
      var k := FirstIndexOf(s.tryList, fd);
      assert s.tryList[k] == fd && states[n + 1].tryList == s.tryList[..k] + s.tryList[k + 1..];
      forall i | 0 <= i < MAX_P && InFlight(s.pool[i])
        ensures s.pool[i].second != fd && CreditedTo(s, s.pool[i])
      {
        assert CreditedTo(s, s.pool[i]);
        assert s.pool[i].second in s.waitingList;
      }
    }
  }
}
