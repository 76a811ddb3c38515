/** Every job of the matchmaking server reaches a verdict when no client acts and the workers answer. */
module MatchmakingProgress {
  import opened Sequences
  import opened Matchmaking
  import opened MatchmakingProofs
  import opened MatchmakingRuns

  function Busy(pool: seq<Worker>): nat {
    if pool == [] then 0 else (if pool[|pool| - 1].working then 1 else 0) + Busy(pool[..|pool| - 1])
  }

  lemma {:induction false} BusyAfter(pool: seq<Worker>, i: nat, w: Worker)
    requires i < |pool|
    ensures Busy(pool[i := w]) == Busy(pool) - (if pool[i].working then 1 else 0) + (if w.working then 1 else 0)
  {
    var last := |pool| - 1;
    if i == last {
      assert pool[i := w][..last] == pool[..last];
    } else {
      BusyAfter(pool[..last], i, w);
      assert pool[i := w][..last] == pool[..last][i := w];
    }
  }

  /** What is left to do in a job: clients to lift, clients to dispatch, answers to come, assignment to stop. */
  function Work(s: State): int {
    3 * |s.tryList| + 2 * (|s.waitingList| - s.mama.assignNextIndex) + Busy(s.pool)
    + (if s.mama.needToAssignJob then 1 else 0)
  }

  /** The steps of the server and its workers; the clients are silent. */
  predicate Internal(e: Event) {
    !e.TryEvent? && !Leaves(e)
  }

  /** During a job a step changes nothing, or gives the verdict, or leaves less to do. */
  lemma StepMakesProgress(s: State, e: Event, accepts: Filters, t: State)
    requires Inv(s, accepts) && s.mama.hasJob && Internal(e) && Step(s, e, accepts, t)
    ensures t == s || (e == JudgeEvent && !t.mama.hasJob) || (t.mama.hasJob && 0 <= Work(t) < Work(s))
  {
    StepKeepsInv(s, e, accepts, t);
    match e
    case AnswerEvent(i, result) => BusyAfter(s.pool, i, t.pool[i]);
    case AssignEvent(i) =>
      if t.pool[i] != s.pool[i] {
        BusyAfter(s.pool, i, t.pool[i]);
      } else {
        assert t.pool == s.pool;
      }
    case _ =>
  }

  /** A job is never stuck: some internal step changes the state. */
  lemma JobIsNotStuck(s: State, accepts: Filters) returns (e: Event)
    requires Inv(s, accepts) && Sound(s, accepts) && s.mama.hasJob
    ensures Internal(e) && Enabled(s, e, accepts) && Defined(s, e) && Next(s, e) != s
  {
    if i :| 0 <= i < |s.pool| && s.pool[i].working {
      e := AnswerEvent(i, Agree(accepts, s.pool[i].askedFirst, s.pool[i].askedSecond));
      assert !Next(s, e).pool[i].working;
    } else if s.mama.needToAssignJob {
      e := AssignEvent(0);
    } else {
      e := JudgeEvent;
    }
  }

  /** `states` is a run of internal steps that each change the state, starting during a job. */
  ghost predicate IsBusyRun(states: seq<State>, events: seq<Event>, accepts: Filters) {
    && |states| == |events| + 1
    && states[0].mama.hasJob
    && forall i :: 0 <= i < |events| ==>
         Internal(events[i]) && Step(states[i], events[i], accepts, states[i + 1]) && states[i + 1] != states[i]
  }

  /** However the steps are ordered, a verdict comes within `Work` steps that change anything, plus one. */
  lemma {:induction false} VerdictComesWithinWork(states: seq<State>, events: seq<Event>, accepts: Filters)
    requires IsBusyRun(states, events, accepts) && Inv(states[0], accepts)
    requires |events| > Work(states[0])
    ensures exists n :: 0 <= n <= Work(states[0]) && events[n] == JudgeEvent && !states[n + 1].mama.hasJob
    decreases |events|
  {
    var s, t := states[0], states[1];
    StepMakesProgress(s, events[0], accepts, t);
    if t.mama.hasJob {
      StepKeepsInv(s, events[0], accepts, t);
      assert Work(t) < Work(s);
      VerdictComesWithinWork(states[1..], events[1..], accepts);
      var n :| 0 <= n <= Work(t) && events[1..][n] == JudgeEvent && !states[1..][n + 1].mama.hasJob;
      assert events[n + 1] == JudgeEvent && !states[n + 2].mama.hasJob;
    } else {
      assert events[0] == JudgeEvent;
    }
  }

  /** And the verdict can always be reached. */
  lemma {:induction false} VerdictIsReachable(s: State, accepts: Filters) returns (states: seq<State>, events: seq<Event>)
    requires Inv(s, accepts) && Sound(s, accepts) && s.mama.hasJob
    ensures IsBusyRun(states, events, accepts) && states[0] == s && |events| > 0
    ensures events[|events| - 1] == JudgeEvent && !states[|events|].mama.hasJob
    decreases Work(s)
  {
    var e := JobIsNotStuck(s, accepts);
    var t := Next(s, e);
    StepMakesProgress(s, e, accepts, t);
    if t.mama.hasJob {
      StepKeepsInv(s, e, accepts, t);
      states, events := VerdictIsReachable(t, accepts);
      states, events := [s] + states, [e] + events;
    } else {
      states, events := [s, t], [e];
    }
  }

  /** Within one job no request is handed to a worker twice: `asked` lists those handed out and never repeats. */
  lemma NobodyIsAskedTwice(states: seq<State>, events: seq<Event>, accepts: Filters, n: nat, i: nat)
    requires IsRun(states, events, accepts) && RunIsOrderly(states, events) && n < |events|
    requires events[n] == AssignEvent(i) && states[n + 1].pool[i] != states[n].pool[i]
    ensures i < MAX_P && states[n + 1].pool[i].askedSecond !in states[n].asked
    ensures states[n + 1].asked == states[n].asked + [states[n + 1].pool[i].askedSecond]
  {
    InvOnEveryRun(states, events, accepts, n);
    var s := states[n];
    var k := s.mama.assignNextIndex;
    assert s.waitingList[k] in s.request && s.waitingList[k] !in s.waitingList[..k];
  }

  // ----- consequences that hold in every state of every run -----

  /** No answer is credited to the wrong client. */
  lemma NoAnswerIsMiscredited(states: seq<State>, events: seq<Event>, accepts: Filters, n: nat, i: nat)
    requires IsRun(states, events, accepts) && RunIsOrderly(states, events) && n <= |events| && i < MAX_P
    ensures |states[n].pool| == MAX_P
    ensures InFlight(states[n].pool[i]) ==>
      var s, w := states[n], states[n].pool[i];
      && w.first == s.mama.workingOnFd && 0 <= w.waitingListIndex < |s.waitingList|
      && s.waitingList[w.waitingListIndex] == w.second
      && w.first in s.request && s.request[w.first] == w.askedFirst
      && w.second in s.request && s.request[w.second] == w.askedSecond
  {
    InvOnEveryRun(states, events, accepts, n);
    var s := states[n];
    if InFlight(s.pool[i]) {
      assert CreditedTo(s, s.pool[i]);
      assert s.pool[i].second in s.waitingList;
    }
  }

  /** Each pending client is in exactly one place and once, and the server sees it as trying; nobody else is anywhere;
      indices stay below the sentinel. */
  lemma ClientsAreConserved(states: seq<State>, events: seq<Event>, accepts: Filters, n: nat, fd: Fd)
    requires IsRun(states, events, accepts) && RunIsOrderly(states, events) && n <= |events| && fd != -1
    ensures var s := states[n];
      var places := multiset(s.tryList) + multiset(s.waitingList) + multiset{s.mama.workingOnFd};
      places[fd] == if fd in s.request then 1 else 0
    ensures fd in states[n].request ==> ClientOf(states[n], fd).status.Trying?
    ensures |states[n].waitingList| < NO_SOLUTION && |states[n].tryList| < NO_SOLUTION
  {
    InvOnEveryRun(states, events, accepts, n);
    var s := states[n];
    ListsStayBelowTheSentinel(s);
    NoDupCountsOnce(s.tryList, fd);
    NoDupCountsOnce(s.waitingList, fd);
  }
}
