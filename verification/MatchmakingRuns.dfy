/** The main results about the matchmaking server: statements about every run, however answers, arrivals and departures
    interleave with the main loop. */
module MatchmakingRuns {
  import opened Sequences
  import opened Matchmaking
  import opened MatchmakingProofs

  // ----- safety of every run -----

  lemma InitInv(accepts: Filters)
    ensures Inv(INIT_STATE, accepts) && Sound(INIT_STATE, accepts)
  {
  }

  /** Exactly when the next step finds all it erases or reads: a client that the server sees as trying must be pending. */
  lemma EnabledIsDefinedIff(s: State, e: Event, accepts: Filters)
    requires Inv(s, accepts) && Enabled(s, e, accepts) && (e.JudgeEvent? ==> Sound(s, accepts))
    ensures Defined(s, e) <==> !(Leaves(e) && ClientOf(s, e.fd).status.Trying? && e.fd !in s.request)
  {
    if Leaves(e) {
      assert Placed(s, e.fd) <==> e.fd in s.request;
    }
  }

  lemma StepKeepsInv(s: State, e: Event, accepts: Filters, t: State)
    requires Inv(s, accepts) && Step(s, e, accepts, t) && Orderly(s, e)
    ensures Inv(t, accepts)
    ensures Sound(s, accepts) ==> (Sound(t, accepts) <==> !Leaves(e) || Harmless(s, accepts, e.fd))
  {
    match e
    case TryEvent(fd, compiles) => TryMatchKeepsInv(s, accepts, fd, compiles);
    case QuitEvent(fd, junk) => LeaveKeepsInv(s, accepts, fd, junk, false);
    case CloseEvent(fd, junk) => LeaveKeepsInv(s, accepts, fd, junk, true);
    case AnswerEvent(i, result) => ReceiveKeepsInv(s, accepts, i, result);
    case JudgeEvent => JudgeKeepsInv(s, accepts);
    case LiftEvent => LiftKeepsInv(s, accepts);
    case StartEvent => StartJobKeepsInv(s, accepts);
    case AssignEvent(i) => AssignKeepsInv(s, accepts, i);
  }

  /** The exact condition: a step keeps the invariant if and only if it is orderly.  Trying again with a filter that does
      not compile is the one step for which `FailedTryKeepsInvIff` says more. */
  lemma StepKeepsInvIff(s: State, e: Event, accepts: Filters, t: State)
    requires Inv(s, accepts) && Step(s, e, accepts, t) && !(e.TryEvent? && !e.compiles)
    ensures Inv(t, accepts) <==> Orderly(s, e)
  {
    if Orderly(s, e) {
      StepKeepsInv(s, e, accepts, t);
    } else if e.TryEvent? {
      TryingTwiceIsInTwoPlaces(s, e.fd);
    } else {
      var friend := ClientOf(s, e.fd).friend;
      assert ClientOf(s, friend).status.Trying? && friend in t.request;
      assert !ClientOf(t, friend).status.Trying?;
    }
  }

  /** A pending client that tries again is in two places, or twice in one. */
  lemma TryingTwiceIsInTwoPlaces(s: State, fd: Fd)
    requires Conserved(s) && fd in s.request
    ensures !Conserved(TryMatch(s, fd, true))
  {
    var t := TryMatch(s, fd, true);
    assert t.tryList[|s.tryList|] == fd;
    if fd in s.tryList {
      var i :| 0 <= i < |s.tryList| && s.tryList[i] == fd;
      assert t.tryList[i] == t.tryList[|s.tryList|];
    } else {
      assert fd in t.tryList;
    }
  }

  /** A second try that does not compile leaves the client in its place with a new request.  That is kept apart from the
      old one if and only if the client has not been dispatched, and has nothing under way if it is the working one. */
  lemma FailedTryKeepsInvIff(s: State, fd: Fd, accepts: Filters)
    requires Inv(s, accepts) && 0 <= fd < MAX_FD && fd in s.request
    ensures Inv(TryMatch(s, fd, false), accepts) <==>
            fd !in s.waitingList[..s.mama.assignNextIndex]
            && (fd == s.mama.workingOnFd && s.mama.assignNextIndex > 0 ==>
                  s.mama.solution != NO_SOLUTION && !exists i :: 0 <= i < |s.pool| && InFlight(s.pool[i]))
  {
    var t := TryMatch(s, fd, false);
    var n := s.mama.assignNextIndex;
    assert t.request[fd] == s.nextRequest && s.nextRequest !in s.asked;
    assert forall x :: x != fd ==> RequestOf(t, x) == RequestOf(s, x);
    assert forall x :: ClientOf(t, x) == ClientOf(s, x);
    assert forall k :: BeingAsked(t, k) == BeingAsked(s, k);
    if fd in s.waitingList[..n] {
      assert !AskedOnce(t);
    } else if fd == s.mama.workingOnFd && n > 0 {
      if i :| 0 <= i < |s.pool| && InFlight(s.pool[i]) {
        assert CreditedTo(s, s.pool[i]) && !CreditedTo(t, t.pool[i]);
      } else if s.mama.solution == NO_SOLUTION {
        assert !BeingAsked(t, 0);
        assert (RequestOf(t, fd), RequestOf(t, t.waitingList[0])) !in t.rejected;
      } else {
        assert forall i :: 0 <= i < MAX_P ==> !InFlight(t.pool[i]);
      }
    } else {
      UntouchedRequestMayChange(s, fd, accepts);
    }
  }

  lemma UntouchedRequestMayChange(s: State, fd: Fd, accepts: Filters)
    requires Inv(s, accepts) && 0 <= fd < MAX_FD && fd in s.request
    requires fd !in s.waitingList[..s.mama.assignNextIndex]
    requires fd == s.mama.workingOnFd ==> s.mama.assignNextIndex == 0
    ensures Inv(TryMatch(s, fd, false), accepts)
  {
    var t := TryMatch(s, fd, false);
    assert forall x :: x != fd ==> RequestOf(t, x) == RequestOf(s, x);
    assert forall x :: ClientOf(t, x) == ClientOf(s, x);
    assert forall k :: BeingAsked(t, k) == BeingAsked(s, k);
    forall i | 0 <= i < MAX_P && InFlight(s.pool[i])
      ensures CreditedTo(t, t.pool[i])
    {
      assert CreditedTo(s, s.pool[i]);
      assert s.waitingList[..s.mama.assignNextIndex][s.pool[i].waitingListIndex] == s.pool[i].second;
    }
    forall k | 0 <= k < s.mama.assignNextIndex
      ensures s.waitingList[k] != fd
    {
      assert s.waitingList[..s.mama.assignNextIndex][k] == s.waitingList[k];
    }
  }

  /** What every orderly run keeps, whoever leaves. */
  lemma {:induction false} InvOnEveryRun(states: seq<State>, events: seq<Event>, accepts: Filters, n: nat)
    requires IsRun(states, events, accepts) && RunIsOrderly(states, events) && n <= |events|
    ensures Inv(states[n], accepts)
  {
    if n == 0 {
      InitInv(accepts);
    } else {
      InvOnEveryRun(states, events, accepts, n - 1);
      StepKeepsInv(states[n - 1], events[n - 1], accepts, states[n]);
    }
  }

  /** What it keeps besides, if each departure is harmless for the search that is going on. */
  lemma {:induction false} SoundOnEveryRun(states: seq<State>, events: seq<Event>, accepts: Filters, n: nat)
    requires IsRun(states, events, accepts) && RunIsOrderly(states, events) && n <= |events|
    requires DeparturesAreHarmless(states, events, accepts)
    ensures Inv(states[n], accepts) && Sound(states[n], accepts)
  {
    if n == 0 {
      InitInv(accepts);
    } else {
      SoundOnEveryRun(states, events, accepts, n - 1);
      StepKeepsInv(states[n - 1], events[n - 1], accepts, states[n]);
    }
  }

  // ----- the parallel search is the sequential scan -----

  lemma {:induction false} FirstMatchFinds(accepts: Filters, r: Request, list: seq<Request>, from: nat)
    ensures var k := FirstMatch(accepts, r, list, from);
      k == NO_SOLUTION || (from <= k < |list| && Agree(accepts, r, list[k])
                           && forall i :: from <= i < k ==> !Agree(accepts, r, list[i]))
    decreases |list| - from
  {
    if from < |list| && !Agree(accepts, r, list[from]) {
      FirstMatchFinds(accepts, r, list, from + 1);
    }
  }

  /** A number is the first match of a list exactly if it is 4096 and nothing matches, or it is the least that does. */
  lemma FirstMatchIff(accepts: Filters, r: Request, list: seq<Request>, k: nat)
    requires |list| < NO_SOLUTION
    ensures k == FirstMatch(accepts, r, list) <==>
              if k < |list| then Agree(accepts, r, list[k]) && forall i :: 0 <= i < k ==> !Agree(accepts, r, list[i])
              else k == NO_SOLUTION && forall i :: 0 <= i < |list| ==> !Agree(accepts, r, list[i])
  {
    FirstMatchFinds(accepts, r, list, 0);
    forall i | 0 <= i < |list| && Agree(accepts, r, list[i])
      ensures FirstMatch(accepts, r, list) <= i
    {
      SomeMatchIsFound(accepts, r, list, 0, i);
    }
  }

  lemma {:induction false} SomeMatchIsFound(accepts: Filters, r: Request, list: seq<Request>, from: nat, i: nat)
    requires from <= i < |list| && Agree(accepts, r, list[i])
    ensures FirstMatch(accepts, r, list, from) <= i
    decreases i - from
  {
    if from < i {
      SomeMatchIsFound(accepts, r, list, from + 1, i);
    }
  }

  /** When no worker is busy, nobody is being asked, and only rejected clients have been dispatched without a solution. */
  lemma IdlePoolHasAnswered(s: State, accepts: Filters, k: nat)
    requires Indexed(s) && Accounted(s) && Rejections(s, accepts) && AllIdle(s.pool) && s.mama.workingOnFd != -1
    requires k < s.mama.assignNextIndex
    ensures !BeingAsked(s, k) && (s.mama.solution == NO_SOLUTION ==> !MatchesAt(s, accepts, k))
  {
  }

  /** When no worker is busy, `solution` is what a sequential scan of the dispatched prefix finds if and only if the search
      is sound. */
  lemma SolutionIsFirstMatchIff(s: State, accepts: Filters)
    requires Inv(s, accepts) && AllIdle(s.pool) && s.mama.workingOnFd != -1
    ensures s.mama.solution == FirstMatch(accepts, RequestOf(s, s.mama.workingOnFd), Requests(s, Dispatched(s)))
            <==> Sound(s, accepts)
  {
    var r, prefix := RequestOf(s, s.mama.workingOnFd), Requests(s, Dispatched(s));
    ListsStayBelowTheSentinel(s);
    forall k | 0 <= k < s.mama.assignNextIndex
      ensures !BeingAsked(s, k) && (s.mama.solution == NO_SOLUTION ==> !MatchesAt(s, accepts, k))
      ensures MatchesAt(s, accepts, k) <==> Agree(accepts, r, prefix[k])
    {
      IdlePoolHasAnswered(s, accepts, k);
    }
    FirstMatchIff(accepts, r, prefix, s.mama.solution);
  }

  /** A client found in the dispatched prefix is the first match of the whole list. */
  lemma {:induction false} FirstMatchOfPrefix(accepts: Filters, r: Request, list: seq<Request>, n: nat, from: nat)
    requires n <= |list| && FirstMatch(accepts, r, list[..n], from) != NO_SOLUTION
    ensures FirstMatch(accepts, r, list, from) == FirstMatch(accepts, r, list[..n], from)
    decreases |list| - from
  {
    if from < n && !Agree(accepts, r, list[from]) {
      FirstMatchOfPrefix(accepts, r, list, n, from + 1);
    }
  }

  /** Parallel first match refines the sequential scan, on every run with harmless departures and whatever the lifts do:
      the verdict names the least dispatched client that agrees with the working one, and 4096 exactly when there is none. */
  lemma VerdictIsSequentialOnDispatched(states: seq<State>, events: seq<Event>, accepts: Filters, n: nat)
    requires IsRun(states, events, accepts) && RunIsOrderly(states, events) && n <= |events|
    requires DeparturesAreHarmless(states, events, accepts)
    requires Concludes(states[n]) && states[n].mama.workingOnFd != -1
    ensures var s := states[n]; var dispatched := Requests(s, Dispatched(s));
      && s.mama.solution == FirstMatch(accepts, RequestOf(s, s.mama.workingOnFd), dispatched)
      && (s.mama.solution == NO_SOLUTION <==>
            forall k :: 0 <= k < |dispatched| ==> !Agree(accepts, RequestOf(s, s.mama.workingOnFd), dispatched[k]))
  {
    SoundOnEveryRun(states, events, accepts, n);
    var s := states[n];
    SolutionIsFirstMatchIff(s, accepts);
    ListsStayBelowTheSentinel(s);
    FirstMatchIff(accepts, RequestOf(s, s.mama.workingOnFd), Requests(s, Dispatched(s)), s.mama.solution);
  }

  // ----- when the lift is clean, the whole waiting list is searched -----

  /** The exact condition: a lift preserves coverage if and only if it is clean. */
  lemma LiftKeepsCoveredIff(s: State, accepts: Filters)
    requires Inv(s, accepts) && Covered(s)
    ensures Covered(Lift(s)) <==> CleanLift(s)
  {
  }

  lemma LeaveKeepsCovered(s: State, fd: Fd, junk: seq<Fd>, closes: bool)
    requires Indexed(s) && Covered(s) && |junk| == |s.pool| && |s.waitingList| <= MAX_FD
    requires ClientOf(s, fd).status.Trying? ==> Placed(s, fd)
    ensures Covered(Leave(s, fd, junk, closes))
  {
    assert ClientOf(s, fd).status.Trying? ==> Covered(Remove(s, fd, junk));
  }

  lemma StepKeepsCovered(s: State, e: Event, accepts: Filters, t: State)
    requires Conserved(s) && Indexed(s) && Covered(s) && Step(s, e, accepts, t)
    requires e.LiftEvent? ==> CleanLift(s)
    ensures Covered(t)
  {
    ListsStayBelowTheSentinel(s);
    match e
    case QuitEvent(fd, junk) => LeaveKeepsCovered(s, fd, junk, false);
    case CloseEvent(fd, junk) => LeaveKeepsCovered(s, fd, junk, true);
    case _ =>
  }

  lemma ErasedIsPairwiseRejected(s: State, q: nat, t: State)
    requires PairwiseRejected(s) && NoDup(s.waitingList) && q < |s.waitingList|
    requires t.waitingList == EraseAt(s.waitingList, q) && s.rejected <= t.rejected
    requires forall fd :: fd in s.waitingList && fd != s.waitingList[q] ==> RequestOf(t, fd) == RequestOf(s, fd)
    ensures PairwiseRejected(t)
  {
    forall k | 0 <= k < |t.waitingList|
      ensures t.waitingList[k] == s.waitingList[Before(k, q)]
      ensures RequestOf(t, t.waitingList[k]) == RequestOf(s, t.waitingList[k])
    {
      assert s.waitingList[Before(k, q)] in s.waitingList;
    }
  }

  /** A verdict that appends a client without having had it tested against all that wait breaks the rejection. */
  lemma UncoveredVerdictBreaksRejection(s: State, accepts: Filters)
    requires Inv(s, accepts) && OnlyAskedAreRejected(s) && Uncovered(s)
    ensures !PairwiseRejected(Judge(s))
  {
    var t, n, k := Judge(s), |s.waitingList|, s.mama.assignNextIndex;
    assert s.waitingList[k] in s.waitingList && s.waitingList[k] !in s.waitingList[..k];
    assert t.waitingList[n] == s.mama.workingOnFd && t.waitingList[k] == s.waitingList[k];
    assert (RequestOf(t, t.waitingList[n]), RequestOf(t, t.waitingList[k])) !in t.rejected;
  }

  lemma CoveredVerdictKeepsRejection(s: State, accepts: Filters)
    requires Inv(s, accepts) && PairwiseRejected(s) && Defined(s, JudgeEvent) && !Uncovered(s)
    ensures PairwiseRejected(Judge(s))
  {
    var t := Judge(s);
    ListsStayBelowTheSentinel(s);
    if t != s && s.mama.workingOnFd != -1 {
      if s.mama.solution < NO_SOLUTION {
        EraseAtKeepsTheRest(s.waitingList, s.mama.solution);
        ErasedIsPairwiseRejected(s, s.mama.solution, t);
      } else {
        forall i, j | 0 <= i < j < |t.waitingList|
          ensures (RequestOf(t, t.waitingList[j]), RequestOf(t, t.waitingList[i])) in t.rejected
        {
          assert !BeingAsked(s, i);
        }
      }
    }
  }

  /** The exact condition: a verdict leaves the waiting list pairwise rejected if and only if it does not append a client
      while part of the list has not been dispatched. */
  lemma VerdictKeepsRejectionIff(s: State, accepts: Filters)
    requires Inv(s, accepts) && OnlyAskedAreRejected(s) && PairwiseRejected(s) && Defined(s, JudgeEvent)
    ensures PairwiseRejected(Judge(s)) <==>
            !(Concludes(s) && s.mama.workingOnFd != -1 && s.mama.solution == NO_SOLUTION
              && s.mama.assignNextIndex < |s.waitingList|)
  {
    if Uncovered(s) {
      UncoveredVerdictBreaksRejection(s, accepts);
    } else {
      CoveredVerdictKeepsRejection(s, accepts);
    }
  }

  lemma RemoveKeepsPairwiseRejected(s: State, fd: Fd, junk: seq<Fd>)
    requires NoDup(s.waitingList) && PairwiseRejected(s) && Placed(s, fd) && |junk| == |s.pool|
    requires fd in s.waitingList ==> fd !in s.tryList && fd != s.mama.workingOnFd
    ensures PairwiseRejected(Remove(s, fd, junk))
  {
    var t := Remove(s, fd, junk);
    if fd in s.waitingList {
      ErasedIsPairwiseRejected(s, LastIndexOf(s.waitingList, fd), t);
    } else {
      SameListIsPairwiseRejected(s, t);
    }
  }

  lemma SameListIsPairwiseRejected(s: State, t: State)
    requires PairwiseRejected(s) && t.waitingList == s.waitingList && s.rejected <= t.rejected
    requires forall fd :: fd in s.waitingList ==> RequestOf(t, fd) == RequestOf(s, fd)
    ensures PairwiseRejected(t)
  {
  }

  lemma LeaveKeepsPairwiseRejected(s: State, fd: Fd, junk: seq<Fd>, closes: bool)
    requires Conserved(s) && PairwiseRejected(s) && |junk| == |s.pool|
    requires ClientOf(s, fd).status.Trying? ==> Placed(s, fd)
    requires !ClientOf(s, fd).status.Trying? ==> fd !in s.waitingList
    ensures PairwiseRejected(Leave(s, fd, junk, closes))
  {
    var t := Leave(s, fd, junk, closes);
    if ClientOf(s, fd).status.Trying? {
      RemoveKeepsPairwiseRejected(s, fd, junk);
      SameListIsPairwiseRejected(Remove(s, fd, junk), t);
    } else {
      SameListIsPairwiseRejected(s, t);
    }
  }

  /** No other step breaks it. */
  lemma StepKeepsRejectionIff(s: State, e: Event, accepts: Filters, t: State)
    requires Inv(s, accepts) && OnlyAskedAreRejected(s) && PairwiseRejected(s)
    requires Step(s, e, accepts, t) && Orderly(s, e)
    ensures PairwiseRejected(t) <==> !(e.JudgeEvent? && Uncovered(s))
  {
    assert forall fd :: fd in s.waitingList ==> fd in s.request;
    match e
    case QuitEvent(fd, junk) => LeaveKeepsPairwiseRejected(s, fd, junk, false);
    case CloseEvent(fd, junk) => LeaveKeepsPairwiseRejected(s, fd, junk, true);
    case JudgeEvent => VerdictKeepsRejectionIff(s, accepts);
    case LiftEvent =>
    case _ => SameListIsPairwiseRejected(s, t);
  }

  // ----- only those who have been asked have been rejected -----

  /** A step that leaves the rejections alone, and the requests of those who still wait for their turn. */
  lemma SameRejections(s: State, t: State)
    requires OnlyAskedAreRejected(s) && t.rejected == s.rejected
    requires forall fd :: fd in t.tryList ==> fd in s.tryList && RequestOf(t, fd) == RequestOf(s, fd)
    requires t.mama.workingOnFd != -1 ==>
               && t.mama.workingOnFd == s.mama.workingOnFd
               && RequestOf(t, t.mama.workingOnFd) == RequestOf(s, s.mama.workingOnFd)
               && forall r :: r in s.asked ==> r in t.asked
    ensures OnlyAskedAreRejected(t)
  {
  }

  lemma TryMatchKeepsOnlyAsked(s: State, accepts: Filters, fd: Fd, compiles: bool)
    requires Conserved(s) && Rejections(s, accepts) && OnlyAskedAreRejected(s) && fd !in s.request
    ensures OnlyAskedAreRejected(TryMatch(s, fd, compiles))
  {
    var t := TryMatch(s, fd, compiles);
    assert forall x :: x in t.tryList ==> x in s.tryList || x == fd;
    assert forall x :: x in s.request ==> RequestOf(t, x) == RequestOf(s, x);
    assert compiles ==> RequestOf(t, fd) == s.nextRequest;
  }

  lemma LeaveKeepsOnlyAsked(s: State, fd: Fd, junk: seq<Fd>, closes: bool)
    requires Conserved(s) && OnlyAskedAreRejected(s) && |junk| == |s.pool|
    requires ClientOf(s, fd).status.Trying? ==> Placed(s, fd)
    requires !ClientOf(s, fd).status.Trying? ==> fd !in s.request
    ensures OnlyAskedAreRejected(Leave(s, fd, junk, closes))
  {
    var t := Leave(s, fd, junk, closes);
    assert forall x :: x != fd ==> RequestOf(t, x) == RequestOf(s, x);
    if ClientOf(s, fd).status.Trying? && fd in s.tryList {
      EraseAtKeepsTheRest(s.tryList, FirstIndexOf(s.tryList, fd));
    }
    SameRejections(s, t);
  }

  /** A valid rejection is of the working client with one who has been asked. */
  lemma ReceiveKeepsOnlyAsked(s: State, accepts: Filters, i: nat, result: bool)
    requires Inv(s, accepts) && OnlyAskedAreRejected(s) && i < |s.pool| && s.pool[i].working
    ensures OnlyAskedAreRejected(Receive(s, i, result))
  {
    var w, n := s.pool[i], s.mama.assignNextIndex;
    if InFlight(w) {
      assert CreditedTo(s, w);
      assert s.waitingList[..n][w.waitingListIndex] == w.second && w.second in s.waitingList;
      assert forall fd :: fd in s.tryList ==> fd != w.first && fd in s.request && w.first in s.request;
      assert w.askedSecond in s.asked;
    }
  }

  lemma JobKeepsOnlyAsked(s: State, accepts: Filters)
    requires Inv(s, accepts) && OnlyAskedAreRejected(s)
    ensures OnlyAskedAreRejected(StartJob(s)) && OnlyAskedAreRejected(Lift(s))
    ensures Defined(s, JudgeEvent) ==> OnlyAskedAreRejected(Judge(s))
  {
    if Defined(s, JudgeEvent) {
      var t := Judge(s);
      forall fd | fd in s.tryList
        ensures RequestOf(t, fd) == RequestOf(s, fd)
      {
        assert fd != s.mama.workingOnFd && fd !in s.waitingList;
      }
    }
  }

  lemma StepKeepsOnlyAsked(s: State, e: Event, accepts: Filters, t: State)
    requires Inv(s, accepts) && OnlyAskedAreRejected(s) && Step(s, e, accepts, t) && Orderly(s, e)
    ensures OnlyAskedAreRejected(t)
  {
    match e
    case TryEvent(fd, compiles) => TryMatchKeepsOnlyAsked(s, accepts, fd, compiles);
    case QuitEvent(fd, junk) => LeaveKeepsOnlyAsked(s, fd, junk, false);
    case CloseEvent(fd, junk) => LeaveKeepsOnlyAsked(s, fd, junk, true);
    case AnswerEvent(i, result) => ReceiveKeepsOnlyAsked(s, accepts, i, result);
    case AssignEvent(i) => SameRejections(s, t);
    case _ => JobKeepsOnlyAsked(s, accepts);
  }

  lemma {:induction false} OnlyAskedOnEveryRun(states: seq<State>, events: seq<Event>, accepts: Filters, n: nat)
    requires IsRun(states, events, accepts) && RunIsOrderly(states, events) && n <= |events|
    ensures Inv(states[n], accepts) && OnlyAskedAreRejected(states[n])
  {
    InvOnEveryRun(states, events, accepts, n);
    if n > 0 {
      OnlyAskedOnEveryRun(states, events, accepts, n - 1);
      StepKeepsOnlyAsked(states[n - 1], events[n - 1], accepts, states[n]);
    }
  }

  // ----- pairwise rejection on runs -----

  /** On any orderly run, whoever leaves and whatever the lifts do, the waiting list stays pairwise rejected as long as no
      verdict appends a client with part of the list not dispatched. */
  lemma {:induction false} PairwiseRejectedOnRuns(states: seq<State>, events: seq<Event>, accepts: Filters, n: nat)
    requires IsRun(states, events, accepts) && RunIsOrderly(states, events) && n <= |events|
    requires forall i {:trigger events[i]} :: 0 <= i < n && events[i].JudgeEvent? ==> !Uncovered(states[i])
    ensures PairwiseRejected(states[n])
  {
    if n > 0 {
      PairwiseRejectedOnRuns(states, events, accepts, n - 1);
      OnlyAskedOnEveryRun(states, events, accepts, n - 1);
      StepKeepsRejectionIff(states[n - 1], events[n - 1], accepts, states[n]);
    }
  }

  /** The first verdict that does so breaks it. */
  lemma PairwiseRejectionEndsIff(states: seq<State>, events: seq<Event>, accepts: Filters, n: nat)
    requires IsRun(states, events, accepts) && RunIsOrderly(states, events) && n < |events|
    requires forall i {:trigger events[i]} :: 0 <= i < n && events[i].JudgeEvent? ==> !Uncovered(states[i])
    ensures PairwiseRejected(states[n + 1]) <==> !(events[n].JudgeEvent? && Uncovered(states[n]))
  {
    PairwiseRejectedOnRuns(states, events, accepts, n);
    OnlyAskedOnEveryRun(states, events, accepts, n);
    StepKeepsRejectionIff(states[n], events[n], accepts, states[n + 1]);
  }

  /** With clean lifts no verdict does. */
  lemma {:induction false} CoveredOnCleanRuns(states: seq<State>, events: seq<Event>, accepts: Filters, n: nat)
    requires IsRun(states, events, accepts) && RunIsOrderly(states, events) && LiftsAreClean(states, events)
    requires n <= |events|
    ensures Covered(states[n])
  {
    if n > 0 {
      CoveredOnCleanRuns(states, events, accepts, n - 1);
      InvOnEveryRun(states, events, accepts, n - 1);
      StepKeepsCovered(states[n - 1], events[n - 1], accepts, states[n]);
    }
  }

  lemma CleanLiftsCoverVerdicts(states: seq<State>, events: seq<Event>, accepts: Filters)
    requires IsRun(states, events, accepts) && RunIsOrderly(states, events) && LiftsAreClean(states, events)
    ensures VerdictsAreCovered(states, events)
  {
    forall i | 0 <= i < |events| && events[i].JudgeEvent?
      ensures !Uncovered(states[i])
    {
      CoveredOnCleanRuns(states, events, accepts, i);
    }
  }

  /** On such a run, whoever leaves, any two waiting clients have been tested against each other, and they disagree. */
  lemma WaitingClientsHaveBeenTested(states: seq<State>, events: seq<Event>, accepts: Filters, n: nat, i: nat, j: nat)
    requires IsRun(states, events, accepts) && RunIsOrderly(states, events) && VerdictsAreCovered(states, events)
    requires n <= |events| && i < j < |states[n].waitingList|
    ensures var s := states[n]; var first, second := RequestOf(s, s.waitingList[j]), RequestOf(s, s.waitingList[i]);
      !Agree(accepts, first, second) && exists m :: 0 <= m < n && Rejects(states[m], events[m], first, second)
  {
    InvOnEveryRun(states, events, accepts, n);
    PairwiseRejectedOnRuns(states, events, accepts, n);
    var s := states[n];
    RejectedByAnAnswer(states, events, accepts, n, RequestOf(s, s.waitingList[j]), RequestOf(s, s.waitingList[i]));
  }

  /** A worker that was asked about the pair answers no, and its answer is valid. */
  predicate Rejects(s: State, e: Event, first: Request, second: Request) {
    e.AnswerEvent? && !e.result && e.worker < |s.pool| && InFlight(s.pool[e.worker])
    && s.pool[e.worker].askedFirst == first && s.pool[e.worker].askedSecond == second
  }

  /** The history of rejections holds nothing but the answers of the run. */
  lemma {:induction false} RejectedByAnAnswer(states: seq<State>, events: seq<Event>, accepts: Filters, n: nat,
                                              first: Request, second: Request)
    requires IsRun(states, events, accepts) && n <= |events| && (first, second) in states[n].rejected
    ensures exists m :: 0 <= m < n && Rejects(states[m], events[m], first, second)
  {
    if n > 0 {
      assert Step(states[n - 1], events[n - 1], accepts, states[n]);
      if (first, second) in states[n - 1].rejected {
        RejectedByAnAnswer(states, events, accepts, n - 1, first, second);
      } else {
        assert Rejects(states[n - 1], events[n - 1], first, second);
      }
    }
  }

  /** A sound verdict leaves the state that a sequential scan of the whole waiting list would leave, if and only if no
      client that has not been dispatched would have been the first to agree. */
  lemma VerdictIsSequentialIff(s: State, accepts: Filters)
    requires Inv(s, accepts) && Sound(s, accepts) && Concludes(s) && s.mama.workingOnFd != -1
    ensures Judge(s) == Sequential(s, accepts) <==>
            !(s.mama.solution == NO_SOLUTION
              && exists k :: s.mama.assignNextIndex <= k < |s.waitingList| && MatchesAt(s, accepts, k))
  {
    ListsStayBelowTheSentinel(s);
    SolutionIsFirstMatchIff(s, accepts);
    var r, all := RequestOf(s, s.mama.workingOnFd), Requests(s, s.waitingList);
    assert all[..s.mama.assignNextIndex] == Requests(s, Dispatched(s));
    if s.mama.solution == NO_SOLUTION {
      assert forall k :: 0 <= k < |all| ==> MatchesAt(s, accepts, k) == Agree(accepts, r, all[k]);
      FirstMatchBehind(accepts, r, all, s.mama.assignNextIndex);
      AppendIsSequentialIff(s, accepts);
    } else {
      FirstMatchOfPrefix(accepts, r, all, s.mama.assignNextIndex, 0);
    }
  }

  lemma AppendIsSequentialIff(s: State, accepts: Filters)
    requires Concludes(s) && s.mama.workingOnFd != -1 && s.mama.solution == NO_SOLUTION && |s.waitingList| < NO_SOLUTION
    ensures Judge(s) == Sequential(s, accepts) <==>
            FirstMatch(accepts, RequestOf(s, s.mama.workingOnFd), Requests(s, s.waitingList)) == NO_SOLUTION
  {
    FirstMatchFinds(accepts, RequestOf(s, s.mama.workingOnFd), Requests(s, s.waitingList), 0);
    assert |Judge(s).waitingList| == |s.waitingList| + 1;
  }

  /** If nothing in a prefix matches, something in the list does if and only if it is behind it. */
  lemma FirstMatchBehind(accepts: Filters, r: Request, list: seq<Request>, n: nat)
    requires n <= |list| < NO_SOLUTION && FirstMatch(accepts, r, list[..n]) == NO_SOLUTION
    ensures FirstMatch(accepts, r, list) == NO_SOLUTION <==> !exists k :: n <= k < |list| && Agree(accepts, r, list[k])
  {
    FirstMatchIff(accepts, r, list[..n], NO_SOLUTION);
    FirstMatchIff(accepts, r, list, NO_SOLUTION);
  }

  /** On a run with clean lifts and harmless departures each verdict leaves exactly that state. */
  lemma VerdictIsSequential(states: seq<State>, events: seq<Event>, accepts: Filters, n: nat)
    requires IsRun(states, events, accepts) && RunIsOrderly(states, events) && LiftsAreClean(states, events)
    requires DeparturesAreHarmless(states, events, accepts)
    requires n < |events| && events[n] == JudgeEvent
    requires Concludes(states[n]) && states[n].mama.workingOnFd != -1
    ensures states[n + 1] == Sequential(states[n], accepts)
  {
    CoveredOnCleanRuns(states, events, accepts, n);
    SoundOnEveryRun(states, events, accepts, n);
    VerdictIsSequentialIff(states[n], accepts);
  }
}
