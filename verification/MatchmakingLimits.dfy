/** Where the matchmaking server falls short: for each condition of the theorems a run that fails without it. */
module MatchmakingLimits {
  import opened Sequences
  import opened Matchmaking

  ghost predicate IsGoodRun(states: seq<State>, events: seq<Event>) {
    && IsRun(states, events, EVERYONE) && RunIsOrderly(states, events) && LiftsAreClean(states, events)
    && DeparturesAreHarmless(states, events, EVERYONE)
  }

  lemma ExtendKeepsConditions(states: seq<State>, events: seq<Event>, e: Event, t: State)
    requires |states| == |events| + 1
    ensures RunIsOrderly(states, events) && Orderly(states[|events|], e) ==> RunIsOrderly(states + [t], events + [e])
    ensures LiftsAreClean(states, events) && (e.LiftEvent? ==> CleanLift(states[|events|])) ==>
              LiftsAreClean(states + [t], events + [e])
  {
    assert forall i :: 0 <= i < |events| ==> (states + [t])[i] == states[i] && (events + [e])[i] == events[i];
  }

  lemma ExtendKeepsHarmless(states: seq<State>, events: seq<Event>, e: Event, t: State)
    requires |states| == |events| + 1 && DeparturesAreHarmless(states, events, EVERYONE)
    requires Leaves(e) ==> Harmless(states[|events|], EVERYONE, e.fd)
    ensures DeparturesAreHarmless(states + [t], events + [e], EVERYONE)
  {
    assert forall i :: 0 <= i < |events| ==> (states + [t])[i] == states[i] && (events + [e])[i] == events[i];
  }

  lemma ExtendKeepsRun(states: seq<State>, events: seq<Event>, e: Event, t: State)
    requires IsRun(states, events, EVERYONE) && Step(states[|events|], e, EVERYONE, t)
    ensures IsRun(states + [t], events + [e], EVERYONE)
  {
    assert forall i :: 0 <= i < |events| ==> Step(states[i], events[i], EVERYONE, states[i + 1]);
  }

  lemma Extend(states: seq<State>, events: seq<Event>, e: Event, t: State)
      returns (states': seq<State>, events': seq<Event>)
    requires IsRun(states, events, EVERYONE) && Step(states[|events|], e, EVERYONE, t)
    ensures IsRun(states', events', EVERYONE) && events' == events + [e] && states' == states + [t]
    ensures RunIsOrderly(states, events) && Orderly(states[|events|], e) ==> RunIsOrderly(states', events')
    ensures LiftsAreClean(states, events) && (e.LiftEvent? ==> CleanLift(states[|events|])) ==>
              LiftsAreClean(states', events')
    ensures DeparturesAreHarmless(states, events, EVERYONE)
            && (Leaves(e) ==> Harmless(states[|events|], EVERYONE, e.fd)) ==>
              DeparturesAreHarmless(states', events', EVERYONE)
  {
    states', events' := states + [t], events + [e];
    ExtendKeepsRun(states, events, e, t);
    ExtendKeepsConditions(states, events, e, t);
    if DeparturesAreHarmless(states, events, EVERYONE) && (Leaves(e) ==> Harmless(states[|events|], EVERYONE, e.fd)) {
      ExtendKeepsHarmless(states, events, e, t);
    }
  }

  const JUNK: seq<Fd> := [-7, -7, -7, -7]
  const EVERYONE: Filters := (a, b) => true
  const TRIES := Client(Trying, 0)
  const ASKING := Worker(true, 0, true, 6, 5, 1, 0)

  /** Client 6 is being tested against client 5, the only one waiting, and there is nothing left to assign. */
  const TESTING := State([], [5], Boss(true, 1, false, NO_SOLUTION, 6), [ASKING, WORKER_INIT, WORKER_INIT, WORKER_INIT],
                         INIT_CLIENTS[5 := TRIES][6 := TRIES], map[5 := 0, 6 := 1], 2, [0], {})

  lemma TestingIsReached() returns (states: seq<State>, events: seq<Event>)
    ensures IsGoodRun(states, events) && states[|events|] == TESTING
  {
    states, events := [INIT_STATE], [];
    var s := INIT_STATE.(tryList := [5], clients := INIT_CLIENTS[5 := TRIES], request := map[5 := 0], nextRequest := 1);
    states, events := Extend(states, events, TryEvent(5, true), s);
    s := s.(tryList := [], waitingList := [5]);
    states, events := Extend(states, events, LiftEvent, s);
    s := s.(tryList := [6], clients := s.clients[6 := TRIES], request := map[5 := 0, 6 := 1], nextRequest := 2);
    states, events := Extend(states, events, TryEvent(6, true), s);
    s := s.(tryList := [], mama := Boss(true, 0, true, NO_SOLUTION, 6));
    states, events := Extend(states, events, StartEvent, s);
    s := TESTING.(mama := Boss(true, 1, true, NO_SOLUTION, 6));
    assert s == Assign(states[|events|], 0);
    states, events := Extend(states, events, AssignEvent(0), s);
    states, events := Extend(states, events, AssignEvent(1), TESTING);
  }

  lemma TheOnlyOneWaitingLeaves(s: State, fd: Fd, w: Worker)
    requires s.tryList == [] && s.waitingList == [fd] && s.mama.workingOnFd != fd && s.mama.assignNextIndex == 1
    requires s.mama.solution == 0 || s.mama.solution == NO_SOLUTION
    requires s.pool == [w, WORKER_INIT, WORKER_INIT, WORKER_INIT] && w.waitingListIndex == 0 && fd != -7
    requires ClientOf(s, fd) == TRIES
    ensures Leave(s, fd, JUNK, false) == s.(waitingList := [], mama := s.mama.(assignNextIndex := 0),
      pool := [w.(validAns := false), WORKER_INIT, WORKER_INIT, WORKER_INIT], request := s.request - {fd},
      clients := s.clients[fd := CLIENT_INIT])
  {
    var pool := [w.(validAns := false), WORKER_INIT, WORKER_INIT, WORKER_INIT];
    assert InvalidatePool(s, fd, JUNK) == pool;
    assert ShiftPool(0, pool) == pool;
    assert LastIndexOf(s.waitingList, fd) == 0;
  }

  /** The accepted client leaves before the verdict, and the verdict then names an element beyond the end. */
  lemma DepartureAtSolutionRunsOffTheList() returns (states: seq<State>, events: seq<Event>)
    ensures IsRun(states, events, EVERYONE) && RunIsOrderly(states, events) && LiftsAreClean(states, events)
    ensures Enabled(states[|events|], JudgeEvent, EVERYONE) && !Defined(states[|events|], JudgeEvent)
  {
    states, events := TestingIsReached();
    var s := Receive(TESTING, 0, true);
    states, events := Extend(states, events, AnswerEvent(0, true), s);
    TheOnlyOneWaitingLeaves(s, 5, ASKING.(working := false));
    states, events := Extend(states, events, QuitEvent(5, JUNK), Leave(s, 5, JUNK, false));
  }

  /** A client that a running search no longer dispatches is appended next to without having been tested: the two
      clients of the final waiting list agree with each other. */
  lemma LiftDuringJobBreaksRejection() returns (states: seq<State>, events: seq<Event>)
    ensures IsRun(states, events, EVERYONE) && RunIsOrderly(states, events)
    ensures DeparturesAreHarmless(states, events, EVERYONE)
    ensures var s := states[|events|];
      && !PairwiseRejected(s) && |s.waitingList| == 2
      && Agree(EVERYONE, RequestOf(s, s.waitingList[1]), RequestOf(s, s.waitingList[0]))
  {
    states, events := TestingIsReached();
    TheOnlyOneWaitingLeaves(TESTING, 5, ASKING);
    var s := Leave(TESTING, 5, JUNK, false);
    states, events := Extend(states, events, QuitEvent(5, JUNK), s);
    s := s.(tryList := [7], clients := s.clients[7 := TRIES], request := s.request[7 := 2], nextRequest := 3);
    states, events := Extend(states, events, TryEvent(7, true), s);
    s := s.(tryList := [], waitingList := [7]);
    states, events := Extend(states, events, LiftEvent, s);
    s := Receive(s, 0, true);
    states, events := Extend(states, events, AnswerEvent(0, true), s);
    s := s.(waitingList := [7, 6], mama := BOSS_INIT, asked := []);
    states, events := Extend(states, events, JudgeEvent, s);
    assert (RequestOf(s, s.waitingList[1]), RequestOf(s, s.waitingList[0])) !in s.rejected;
  }

  /** A client whose filter does not compile is seen as trying but is in no list: when it leaves, the source erases the
      waiting list at 4096. */
  lemma UncompiledClientErasesBeyondTheEnd() returns (states: seq<State>, events: seq<Event>)
    ensures IsGoodRun(states, events)
    ensures var s := states[|events|];
      && s.waitingList == [] && !Placed(s, 7)
      && Enabled(s, QuitEvent(7, JUNK), EVERYONE) && !Defined(s, QuitEvent(7, JUNK))
  {
    states, events := [INIT_STATE], [];
    var s := INIT_STATE.(clients := INIT_CLIENTS[7 := TRIES]);
    states, events := Extend(states, events, TryEvent(7, false), s);
  }

  /** Clients 6 and 5 have just been matched. */
  const CHATTING := State([], [], BOSS_INIT, [ASKING.(working := false), WORKER_INIT, WORKER_INIT, WORKER_INIT],
                          INIT_CLIENTS[5 := Client(Matched, 6)][6 := Client(Matched, 5)], map[], 2, [], {})

  lemma ChattingIsReached() returns (states: seq<State>, events: seq<Event>)
    ensures IsGoodRun(states, events) && states[|events|] == CHATTING
  {
    states, events := TestingIsReached();
    var s := TESTING.(mama := Boss(true, 1, false, 0, 6), pool := CHATTING.pool);
    states, events := Extend(states, events, AnswerEvent(0, true), s);
    assert Judge(s).request == map[];
    states, events := Extend(states, events, JudgeEvent, CHATTING);
  }

  /** Client 5 has tried again while 6 was still matched to it, and 6 has quit: the server sees 5 as idle. */
  const FORGOTTEN := CHATTING.(tryList := [5], clients := INIT_CLIENTS[5 := Client(Idle, 6)][6 := Client(Idle, 5)],
                               request := map[5 := 2], nextRequest := 3)

  ghost predicate NobodyTriesTwice(states: seq<State>, events: seq<Event>)
    requires |states| == |events| + 1
  {
    forall i {:trigger events[i]} :: 0 <= i < |events| && events[i].TryEvent? ==> events[i].fd !in states[i].request
  }

  lemma ForgottenIsReached() returns (states: seq<State>, events: seq<Event>)
    ensures IsRun(states, events, EVERYONE) && LiftsAreClean(states, events)
    ensures DeparturesAreHarmless(states, events, EVERYONE) && NobodyTriesTwice(states, events)
    ensures states[|events|] == FORGOTTEN
  {
    states, events := ChattingIsReached();
    assert NobodyTriesTwice(states, events) by {
      assert forall i :: 0 <= i < |events| ==> Orderly(states[i], events[i]);
    }
    var s := FORGOTTEN.(clients := CHATTING.clients[5 := Client(Trying, 6)]);
    states, events := Extend(states, events, TryEvent(5, true), s);
    assert s.request - {6} == s.request;
    assert s.clients[5 := Client(Idle, 6)][6 := Client(Idle, 5)] == FORGOTTEN.clients;
    states, events := Extend(states, events, QuitEvent(6, JUNK), FORGOTTEN);
  }

  lemma ForgottenStays() returns (states: seq<State>, events: seq<Event>)
    ensures IsRun(states, events, EVERYONE) && LiftsAreClean(states, events)
    ensures DeparturesAreHarmless(states, events, EVERYONE) && NobodyTriesTwice(states, events)
    ensures events != [] && states[|events|] == FORGOTTEN.(request := map[])
  {
    states, events := ForgottenIsReached();
    assert FORGOTTEN.request - {5} == map[];
    assert FORGOTTEN.clients[5 := Client(Idle, 6)] == FORGOTTEN.clients;
    states, events := Extend(states, events, CloseEvent(5, JUNK), FORGOTTEN.(request := map[]));
  }

  /** When such a client leaves it stays in the list, and its descriptor can come to stand there twice, although nobody has
      tried who was pending. */
  lemma ForgottenPartnerStaysInTheList() returns (states: seq<State>, events: seq<Event>)
    ensures IsRun(states, events, EVERYONE) && LiftsAreClean(states, events)
    ensures DeparturesAreHarmless(states, events, EVERYONE) && NobodyTriesTwice(states, events)
    ensures |events| > 1 && states[|events| - 1].tryList == [5] && 5 !in states[|events| - 1].request
    ensures states[|events|].tryList == [5, 5]
  {
    states, events := ForgottenStays();
    var s := FORGOTTEN.(request := map[]);
    s := s.(tryList := [5, 5], clients := s.clients[5 := Client(Trying, 6)], request := map[5 := 3], nextRequest := 4);
    states, events := Extend(states, events, TryEvent(5, true), s);
  }

  /** Client 6 tries again while a worker is testing it, with a filter that does not compile: the answer under way is then
      about a request that 6 no longer has. */
  lemma SecondTryMiscreditsAnAnswer() returns (states: seq<State>, events: seq<Event>)
    ensures IsRun(states, events, EVERYONE) && LiftsAreClean(states, events)
    ensures DeparturesAreHarmless(states, events, EVERYONE)
    ensures var s := states[|events|];
      |s.pool| == MAX_P && InFlight(s.pool[0]) && s.pool[0].first == s.mama.workingOnFd
      && RequestOf(s, s.mama.workingOnFd) != s.pool[0].askedFirst
  {
    states, events := TestingIsReached();
    var s := TESTING.(request := TESTING.request[6 := 2], nextRequest := 3);
    assert TESTING.clients[6 := TRIES] == TESTING.clients;
    states, events := Extend(states, events, TryEvent(6, false), s);
  }
}
