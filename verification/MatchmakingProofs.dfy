/** What the matchmaking steps keep. */
module MatchmakingProofs {
  import opened Sequences
  import opened Matchmaking

  // ----- arrivals -----

  /** The statuses matter to one part of the invariant only. */
  lemma OnlyClientsDiffer(s: State, t: State, accepts: Filters)
    requires Inv(s, accepts) && t == s.(clients := t.clients) && StatusAgrees(t)
    ensures Inv(t, accepts) && (Sound(t, accepts) <==> Sound(s, accepts))
  {
    assert forall k :: BeingAsked(t, k) == BeingAsked(s, k);
    assert forall k :: 0 <= k < |s.waitingList| ==> MatchesAt(t, accepts, k) == MatchesAt(s, accepts, k);
  }

  lemma TryMatchKeepsInv(s: State, accepts: Filters, fd: Fd, compiles: bool)
    requires Inv(s, accepts) && 0 <= fd < MAX_FD && fd !in s.request
    ensures Inv(TryMatch(s, fd, compiles), accepts)
    ensures Sound(s, accepts) ==> Sound(TryMatch(s, fd, compiles), accepts)
  {
    var s1 := WithStatus(s, fd, Trying);
    assert forall x :: ClientOf(s1, x).status == if x == fd then Trying else ClientOf(s, x).status;
    OnlyClientsDiffer(s, s1, accepts);
    if compiles {
      AdmissionKeepsInv(s1, accepts, fd);
    }
  }

  function Admit(s: State, fd: Fd): State {
    s.(tryList := s.tryList + [fd], request := s.request[fd := s.nextRequest], nextRequest := s.nextRequest + 1)
  }

  lemma AdmissionKeepsConserved(s: State, fd: Fd)
    requires Conserved(s) && 0 <= fd < MAX_FD && fd !in s.request
    ensures Conserved(Admit(s, fd))
  {
    var t := Admit(s, fd);
    assert forall x :: x in t.tryList <==> x in s.tryList || x == fd;
  }

  /** A newcomer is none of those that the search is about. */
  lemma AdmissionKeepsSearch(s: State, accepts: Filters, fd: Fd)
    requires Indexed(s) && Credited(s) && Accounted(s) && AskedOnce(s)
    requires fd !in s.request && fd !in s.waitingList && fd != s.mama.workingOnFd
    ensures var t := Admit(s, fd);
      Indexed(t) && Credited(t) && Accounted(t) && AskedOnce(t) && (Sound(s, accepts) ==> Sound(t, accepts))
  {
    var t := Admit(s, fd);
    assert forall x :: x != fd ==> RequestOf(t, x) == RequestOf(s, x);
    forall k | 0 <= k < |s.waitingList|
      ensures RequestOf(t, s.waitingList[k]) == RequestOf(s, s.waitingList[k])
      ensures MatchesAt(t, accepts, k) == MatchesAt(s, accepts, k)
    {
      assert s.waitingList[k] in s.waitingList;
    }
    assert forall k :: BeingAsked(t, k) == BeingAsked(s, k);
  }

  lemma AdmissionKeepsInv(s: State, accepts: Filters, fd: Fd)
    requires Inv(s, accepts) && 0 <= fd < MAX_FD && fd !in s.request && ClientOf(s, fd).status.Trying?
    ensures Inv(Admit(s, fd), accepts) && (Sound(s, accepts) ==> Sound(Admit(s, fd), accepts))
  {
    AdmissionKeepsConserved(s, fd);
    AdmissionKeepsSearch(s, accepts, fd);
    assert forall x :: ClientOf(Admit(s, fd), x) == ClientOf(s, x);
  }

  // ----- the steps of the main loop -----

  lemma LiftKeepsInv(s: State, accepts: Filters)
    requires Inv(s, accepts)
    ensures Inv(Lift(s), accepts) && (Sound(s, accepts) ==> Sound(Lift(s), accepts))
  {
    var t := Lift(s);
    if t != s {
      assert s.tryList == [s.tryList[0]] + t.tryList;
      assert forall x :: x in s.tryList <==> x in t.tryList || x in t.waitingList;
      assert s.waitingList[..s.mama.assignNextIndex] == t.waitingList[..t.mama.assignNextIndex];
      assert forall x :: ClientOf(t, x) == ClientOf(s, x);
    }
  }

  lemma StartJobKeepsInv(s: State, accepts: Filters)
    requires Inv(s, accepts)
    ensures Inv(StartJob(s), accepts) && (Sound(s, accepts) ==> Sound(StartJob(s), accepts))
  {
    var t := StartJob(s);
    if t != s {
      assert s.tryList == [s.tryList[0]] + t.tryList;
      assert forall x :: x in s.tryList <==> x in t.tryList || x == t.mama.workingOnFd;
      assert t.mama.workingOnFd in s.tryList;
      assert forall x :: ClientOf(t, x) == ClientOf(s, x);
    }
  }

  /** An answer concerns the one position at which its worker stands. */
  lemma ReceiveKeepsBeingAsked(s: State, i: nat, result: bool, k: int)
    requires Indexed(s) && i < MAX_P && BeingAsked(s, k)
    ensures BeingAsked(Receive(s, i, result), k) || (InFlight(s.pool[i]) && k == s.pool[i].waitingListIndex)
  {
    var j :| 0 <= j < |s.pool| && InFlight(s.pool[j]) && s.pool[j].waitingListIndex == k;
    assert j != i ==> InFlight(Receive(s, i, result).pool[j]);
  }

  lemma ReceiveKeepsSearch(s: State, accepts: Filters, i: nat, result: bool)
    requires Indexed(s) && Credited(s) && Accounted(s) && Enabled(s, AnswerEvent(i, result), accepts)
    requires |s.waitingList| <= MAX_FD
    ensures var t := Receive(s, i, result); Indexed(t) && Credited(t) && Accounted(t)
  {
    var t := Receive(s, i, result);
    assert InFlight(s.pool[i]) ==> CreditedTo(s, s.pool[i]);
    forall k | BeingAsked(s, k)
      ensures BeingAsked(t, k) || (InFlight(s.pool[i]) && k == s.pool[i].waitingListIndex)
    {
      ReceiveKeepsBeingAsked(s, i, result, k);
    }
  }

  lemma ReceiveKeepsInv(s: State, accepts: Filters, i: nat, result: bool)
    requires Inv(s, accepts) && Enabled(s, AnswerEvent(i, result), accepts)
    ensures Inv(Receive(s, i, result), accepts)
    ensures Sound(s, accepts) ==> Sound(Receive(s, i, result), accepts)
  {
    ListsStayBelowTheSentinel(s);
    assert InFlight(s.pool[i]) ==> CreditedTo(s, s.pool[i]);
    assert forall x :: ClientOf(Receive(s, i, result), x) == ClientOf(s, x);
    ReceiveKeepsSearch(s, accepts, i, result);
    if Sound(s, accepts) {
      AnswerKeepsSound(s, accepts, i, result);
    }
  }

  /** The minimum over the answers so far is right whatever their order. */
  lemma AnswerKeepsSound(s: State, accepts: Filters, i: nat, result: bool)
    requires Indexed(s) && Credited(s) && Accounted(s) && Rejections(s, accepts) && Sound(s, accepts)
    requires Enabled(s, AnswerEvent(i, result), accepts) && |s.waitingList| <= MAX_FD
    ensures Sound(Receive(s, i, result), accepts)
  {
    var t := Receive(s, i, result);
    if t.mama.workingOnFd != -1 && t.mama.solution != NO_SOLUTION {
      assert InFlight(s.pool[i]) ==> CreditedTo(s, s.pool[i]);
      assert forall k :: 0 <= k < |s.waitingList| ==> MatchesAt(t, accepts, k) == MatchesAt(s, accepts, k);
      assert InFlight(s.pool[i]) ==> (MatchesAt(s, accepts, s.pool[i].waitingListIndex) <==> result);
      forall k | 0 <= k < t.mama.solution && MatchesAt(t, accepts, k)
        ensures BeingAsked(t, k)
      {
        assert MatchesAt(s, accepts, k);
        assert BeingAsked(s, k);
        ReceiveKeepsBeingAsked(s, i, result, k);
      }
    }
  }

  lemma AssignKeepsInv(s: State, accepts: Filters, i: nat)
    requires Inv(s, accepts) && i < |s.pool|
    ensures Inv(Assign(s, i), accepts) && (Sound(s, accepts) ==> Sound(Assign(s, i), accepts))
  {
    var s1 := if NothingToAssign(s) then s.(mama := s.mama.(needToAssignJob := false)) else s;
    assert forall k :: BeingAsked(s1, k) == BeingAsked(s, k);
    assert forall x :: ClientOf(s1, x) == ClientOf(s, x);
    assert forall k :: 0 <= k < |s.waitingList| ==> MatchesAt(s1, accepts, k) == MatchesAt(s, accepts, k);
    if s1.mama.needToAssignJob && !s1.pool[i].working {
      DispatchKeepsInv(s1, accepts, i);
    }
  }

  lemma DispatchKeepsInv(s: State, accepts: Filters, i: nat)
    requires Inv(s, accepts) && i < |s.pool| && !s.pool[i].working
    requires s.mama.needToAssignJob && !NothingToAssign(s)
    ensures Inv(Dispatch(s, i), accepts) && Sound(Dispatch(s, i), accepts)
  {
    var t := Dispatch(s, i);
    var n := s.mama.assignNextIndex;
    assert forall fd :: fd in t.waitingList[..n + 1] <==> fd in s.waitingList[..n] || fd == s.waitingList[n];
    assert s.waitingList[n] in s.request && s.waitingList[n] !in s.waitingList[..n];
    assert forall x :: ClientOf(t, x) == ClientOf(s, x);
    forall k | BeingAsked(s, k)
      ensures BeingAsked(t, k)
    {
      var j :| 0 <= j < |s.pool| && InFlight(s.pool[j]) && s.pool[j].waitingListIndex == k;
      assert InFlight(t.pool[j]);
    }
    assert BeingAsked(t, n) by {
      assert InFlight(t.pool[i]);
    }
  }

  lemma JudgeKeepsInv(s: State, accepts: Filters)
    requires Inv(s, accepts) && Defined(s, JudgeEvent)
    ensures Inv(Judge(s), accepts) && (Sound(s, accepts) ==> Sound(Judge(s), accepts))
  {
    var t := Judge(s);
    if t == s || s.mama.workingOnFd == -1 {
      assert forall x :: ClientOf(t, x) == ClientOf(s, x);
    } else {
      if s.mama.solution < NO_SOLUTION {
        EraseAtKeepsTheRest(s.waitingList, s.mama.solution);
        var other := s.waitingList[s.mama.solution];
        assert other in s.waitingList && other in s.request && s.mama.workingOnFd in s.request;
        forall x
          ensures x != other && x != s.mama.workingOnFd ==> ClientOf(t, x) == ClientOf(s, x)
          ensures x == other ==> ClientOf(t, x) == Client(Matched, s.mama.workingOnFd)
          ensures x == s.mama.workingOnFd ==> ClientOf(t, x) == Client(Matched, other)
        {
        }
      } else {
        assert forall x :: x in t.waitingList <==> x in s.waitingList || x == s.mama.workingOnFd;
        assert forall x :: ClientOf(t, x) == ClientOf(s, x);
      }
    }
  }

  /** Descriptors are distinct and below 1025, so no index can be mistaken for the sentinel 4096. */
  lemma ListsStayBelowTheSentinel(s: State)
    requires Conserved(s)
    ensures |s.tryList| <= MAX_FD < NO_SOLUTION && |s.waitingList| <= MAX_FD < NO_SOLUTION
  {
    assert forall fd :: fd in s.tryList || fd in s.waitingList ==> 0 <= fd < MAX_FD;
    DistinctBelow(s.tryList, MAX_FD);
    DistinctBelow(s.waitingList, MAX_FD);
  }

  // ----- departures -----

  lemma RemoveKeepsInv(s: State, accepts: Filters, fd: Fd, junk: seq<Fd>)
    requires Inv(s, accepts) && fd in s.request && |junk| == |s.pool|
    ensures Inv(Remove(s, fd, junk), accepts)
  {
    if fd in s.tryList {
      RemoveFromTryListKeepsInv(s, accepts, fd, junk);
    } else if fd == s.mama.workingOnFd {
      RemoveWorkingKeepsInv(s, accepts, fd, junk);
    } else {
      RemoveFromWaitingListKeepsInv(s, accepts, fd, junk);
    }
  }

  lemma InvalidateSparesOthers(s: State, fd: Fd, junk: seq<Fd>, i: nat)
    requires Indexed(s) && Credited(s) && |junk| == |s.pool| && fd != s.mama.workingOnFd && i < MAX_P
    ensures InFlight(InvalidatePool(s, fd, junk)[i]) <==> InFlight(s.pool[i]) && s.pool[i].second != fd
  {
  }

  lemma RemoveFromTryListKeepsInv(s: State, accepts: Filters, fd: Fd, junk: seq<Fd>)
    requires Inv(s, accepts) && fd in s.tryList && |junk| == |s.pool|
    ensures Inv(Remove(s, fd, junk), accepts) && (Sound(s, accepts) ==> Sound(Remove(s, fd, junk), accepts))
  {
    var t := Remove(s, fd, junk);
    EraseAtKeepsTheRest(s.tryList, FirstIndexOf(s.tryList, fd));
    assert forall x :: ClientOf(t, x) == ClientOf(s, x);
    forall i | 0 <= i < MAX_P
      ensures t.pool[i] == s.pool[i] || (!InFlight(t.pool[i]) && !InFlight(s.pool[i]))
      ensures t.pool[i].working == s.pool[i].working
      ensures t.pool[i].waitingListIndex == s.pool[i].waitingListIndex
    {
      InvalidateSparesOthers(s, fd, junk, i);
      assert InFlight(s.pool[i]) ==> s.pool[i].second in s.waitingList;
    }
    assert Conserved(t);
    SamePoolKeepsTheSearch(s, t, accepts, fd);
  }

  lemma SamePoolKeepsTheSearch(s: State, t: State, accepts: Filters, fd: Fd)
    requires Indexed(s) && Credited(s) && Accounted(s) && AskedOnce(s)
    requires fd !in s.waitingList && fd != s.mama.workingOnFd
    requires t == s.(tryList := t.tryList, pool := t.pool, request := s.request - {fd}) && |t.pool| == MAX_P
    requires forall i :: 0 <= i < MAX_P ==>
               && (t.pool[i] == s.pool[i] || (!InFlight(t.pool[i]) && !InFlight(s.pool[i])))
               && t.pool[i].working == s.pool[i].working
    ensures Indexed(t) && Credited(t) && Accounted(t) && AskedOnce(t) && (Sound(s, accepts) ==> Sound(t, accepts))
  {
    forall k | 0 <= k < |s.waitingList|
      ensures RequestOf(t, s.waitingList[k]) == RequestOf(s, s.waitingList[k])
      ensures MatchesAt(t, accepts, k) == MatchesAt(s, accepts, k)
    {
      assert s.waitingList[k] != fd;
    }
    forall k | BeingAsked(s, k)
      ensures BeingAsked(t, k)
    {
      var j :| 0 <= j < |s.pool| && InFlight(s.pool[j]) && s.pool[j].waitingListIndex == k;
      assert InFlight(t.pool[j]);
    }
    forall i | 0 <= i < MAX_P && InFlight(t.pool[i])
      ensures CreditedTo(t, t.pool[i])
    {
      assert CreditedTo(s, s.pool[i]);
      assert s.pool[i].second in s.waitingList;
    }
  }

  lemma RemoveWorkingKeepsInv(s: State, accepts: Filters, fd: Fd, junk: seq<Fd>)
    requires Inv(s, accepts) && fd == s.mama.workingOnFd && fd in s.request && |junk| == |s.pool|
    ensures Inv(Remove(s, fd, junk), accepts) && Sound(Remove(s, fd, junk), accepts)
  {
    var t := Remove(s, fd, junk);
    assert forall x :: ClientOf(t, x) == ClientOf(s, x);
    assert forall i :: 0 <= i < MAX_P ==> !InFlight(t.pool[i]);
  }

  lemma RemoveFromWaitingListKeepsInv(s: State, accepts: Filters, fd: Fd, junk: seq<Fd>)
    requires Inv(s, accepts) && fd in s.waitingList && |junk| == |s.pool|
    ensures Inv(Remove(s, fd, junk), accepts)
  {
    var t := Remove(s, fd, junk);
    EraseAtKeepsTheRest(s.waitingList, LastIndexOf(s.waitingList, fd));
    assert fd in s.request && fd != s.mama.workingOnFd;
    assert forall x :: ClientOf(t, x) == ClientOf(s, x);
    RemoveKeepsCredit(s, fd, junk);
    ListsStayBelowTheSentinel(s);
    RemoveKeepsAccount(s, fd, junk);
    RemoveKeepsAsked(s, fd, junk);
    assert Conserved(t);
  }

  /** Where the client at position `k` of the shorter list was before the one at `q` left. */
  function Before(k: int, q: int): int {
    if k < q then k else k + 1
  }

  lemma RemoveKeepsWorker(s: State, fd: Fd, junk: seq<Fd>, i: nat)
    requires Indexed(s) && Credited(s) && NoDup(s.waitingList) && fd != s.mama.workingOnFd
    requires fd !in s.tryList && fd in s.waitingList && |junk| == |s.pool| && i < MAX_P
    ensures var t, q := Remove(s, fd, junk), LastIndexOf(s.waitingList, fd);
      && (InFlight(t.pool[i]) <==> InFlight(s.pool[i]) && s.pool[i].waitingListIndex != q)
      && (InFlight(t.pool[i]) ==> s.pool[i].waitingListIndex == Before(t.pool[i].waitingListIndex, q))
      && t.pool[i].working == s.pool[i].working
      && t.pool[i] == s.pool[i].(waitingListIndex := t.pool[i].waitingListIndex, validAns := t.pool[i].validAns)
  {
    InvalidateSparesOthers(s, fd, junk, i);
  }

  lemma RemoveKeepsCredit(s: State, fd: Fd, junk: seq<Fd>)
    requires Indexed(s) && Credited(s) && NoDup(s.waitingList) && fd != s.mama.workingOnFd
    requires fd !in s.tryList && fd in s.waitingList && |junk| == |s.pool|
    ensures Indexed(Remove(s, fd, junk)) && Credited(Remove(s, fd, junk))
  {
    var t := Remove(s, fd, junk);
    forall i | 0 <= i < MAX_P
      ensures t.pool[i].working == s.pool[i].working
      ensures InFlight(t.pool[i]) ==> CreditedTo(t, t.pool[i])
    {
      RemoveKeepsWorker(s, fd, junk, i);
      if InFlight(t.pool[i]) {
        assert CreditedTo(s, s.pool[i]);
      }
    }
    forall i, j | 0 <= i < j < MAX_P && InFlight(t.pool[i]) && InFlight(t.pool[j])
      ensures t.pool[i].waitingListIndex != t.pool[j].waitingListIndex
    {
      RemoveKeepsWorker(s, fd, junk, i);
      RemoveKeepsWorker(s, fd, junk, j);
    }
  }

  lemma RemoveKeepsBeingAsked(s: State, fd: Fd, junk: seq<Fd>, k: int)
    requires Indexed(s) && Credited(s) && NoDup(s.waitingList) && fd != s.mama.workingOnFd
    requires fd !in s.tryList && fd in s.waitingList && |junk| == |s.pool|
    requires BeingAsked(s, Before(k, LastIndexOf(s.waitingList, fd)))
    ensures BeingAsked(Remove(s, fd, junk), k)
  {
    var q := LastIndexOf(s.waitingList, fd);
    var j :| 0 <= j < |s.pool| && InFlight(s.pool[j]) && s.pool[j].waitingListIndex == Before(k, q);
    RemoveKeepsWorker(s, fd, junk, j);
    assert InFlight(Remove(s, fd, junk).pool[j]);
  }

  lemma RemoveKeepsAccount(s: State, fd: Fd, junk: seq<Fd>)
    requires Indexed(s) && Credited(s) && Accounted(s) && NoDup(s.waitingList) && fd != s.mama.workingOnFd
    requires fd !in s.tryList && fd in s.waitingList && |junk| == |s.pool|
    requires Indexed(Remove(s, fd, junk)) && |s.waitingList| <= MAX_FD
    ensures Accounted(Remove(s, fd, junk))
  {
    var t := Remove(s, fd, junk);
    var q := LastIndexOf(s.waitingList, fd);
    if t.mama.workingOnFd != -1 && t.mama.solution == NO_SOLUTION {
      forall k | 0 <= k < t.mama.assignNextIndex
        ensures BeingAsked(t, k) || (RequestOf(t, t.mama.workingOnFd), RequestOf(t, t.waitingList[k])) in t.rejected
      {
        assert t.waitingList[k] == s.waitingList[Before(k, q)] != fd;
        if BeingAsked(s, Before(k, q)) {
          RemoveKeepsBeingAsked(s, fd, junk, k);
        }
      }
    }
  }

  lemma RemoveKeepsAsked(s: State, fd: Fd, junk: seq<Fd>)
    requires Indexed(s) && AskedOnce(s) && NoDup(s.waitingList) && fd != s.mama.workingOnFd
    requires fd !in s.tryList && fd in s.waitingList && |junk| == |s.pool|
    requires Indexed(Remove(s, fd, junk))
    ensures AskedOnce(Remove(s, fd, junk))
  {
    var t := Remove(s, fd, junk);
    var q := LastIndexOf(s.waitingList, fd);
    var before, after := s.waitingList[..s.mama.assignNextIndex], t.waitingList[..t.mama.assignNextIndex];
    if q < s.mama.assignNextIndex {
      assert after == EraseAt(before, q);
      EraseAtKeepsTheRest(before, q);
    } else {
      assert after == before;
    }
  }

  // ----- when a departure leaves the search right -----

  /** The exact condition: the departure of a pending client keeps `solution` right if and only if it is harmless. */
  lemma RemoveKeepsSoundIff(s: State, accepts: Filters, fd: Fd, junk: seq<Fd>)
    requires Inv(s, accepts) && Sound(s, accepts) && fd in s.request && |junk| == |s.pool|
    ensures Sound(Remove(s, fd, junk), accepts) <==> Harmless(s, accepts, fd)
  {
    if fd in s.tryList {
      RemoveFromTryListKeepsInv(s, accepts, fd, junk);
    } else if fd == s.mama.workingOnFd {
      RemoveWorkingKeepsInv(s, accepts, fd, junk);
    } else if s.mama.workingOnFd != -1 {
      RemoveWaitingKeepsSoundIff(s, accepts, fd, junk);
    }
  }

  lemma RemoveKeepsMatches(s: State, accepts: Filters, fd: Fd, junk: seq<Fd>, k: nat)
    requires NoDup(s.waitingList) && fd !in s.tryList && fd in s.waitingList && fd != s.mama.workingOnFd
    requires |junk| == |s.pool| && k < |s.waitingList| - 1
    ensures k < |Remove(s, fd, junk).waitingList|
    ensures MatchesAt(Remove(s, fd, junk), accepts, k) ==
            MatchesAt(s, accepts, Before(k, LastIndexOf(s.waitingList, fd)))
  {
  }

  lemma RemoveWaitingKeepsSoundIff(s: State, accepts: Filters, fd: Fd, junk: seq<Fd>)
    requires Conserved(s) && Indexed(s) && Credited(s) && Sound(s, accepts) && s.mama.workingOnFd != -1
    requires fd !in s.tryList && fd in s.waitingList && fd != s.mama.workingOnFd && |junk| == |s.pool|
    ensures Sound(Remove(s, fd, junk), accepts) <==> Harmless(s, accepts, fd)
  {
    var t := Remove(s, fd, junk);
    var q := LastIndexOf(s.waitingList, fd);
    ListsStayBelowTheSentinel(s);
    if s.mama.solution != NO_SOLUTION {
      forall k | 0 <= k < |t.waitingList|
        ensures MatchesAt(t, accepts, k) == MatchesAt(s, accepts, Before(k, q))
      {
        RemoveKeepsMatches(s, accepts, fd, junk, k);
      }
      forall k | 0 <= k < t.mama.solution && k < |t.waitingList| && MatchesAt(t, accepts, k)
        ensures BeingAsked(t, k)
      {
        assert MatchesAt(s, accepts, Before(k, q));
        RemoveKeepsBeingAsked(s, fd, junk, k);
      }
    }
  }

  // ----- leaving, with its effect on the statuses -----

  /** A pending client, which the server sees as trying, is taken out of the list it is in. */
  lemma PendingLeaves(s: State, accepts: Filters, fd: Fd, junk: seq<Fd>, closes: bool)
    requires Inv(s, accepts) && fd in s.request && |junk| == |s.pool|
    ensures Inv(Leave(s, fd, junk, closes), accepts)
    ensures Sound(s, accepts) ==> (Sound(Leave(s, fd, junk, closes), accepts) <==> Harmless(s, accepts, fd))
  {
    var s1, t := Remove(s, fd, junk), Leave(s, fd, junk, closes);
    RemoveKeepsInv(s, accepts, fd, junk);
    assert t == WithStatus(s1, fd, Idle);
    assert forall x :: ClientOf(t, x) == if x == fd then ClientOf(s1, fd).(status := Idle) else ClientOf(s1, x);
    OnlyClientsDiffer(s1, t, accepts);
    if Sound(s, accepts) {
      RemoveKeepsSoundIff(s, accepts, fd, junk);
    }
  }

  /** Any other client changes statuses only. */
  lemma OtherLeaves(s: State, accepts: Filters, fd: Fd, junk: seq<Fd>, closes: bool)
    requires Inv(s, accepts) && fd !in s.request && |junk| == |s.pool| && !ClientOf(s, fd).status.Trying?
    requires ClientOf(s, fd).status.Matched? && !closes ==> ClientOf(s, fd).friend !in s.request
    ensures Inv(Leave(s, fd, junk, closes), accepts)
    ensures Sound(Leave(s, fd, junk, closes), accepts) <==> Sound(s, accepts)
  {
    var c, t := ClientOf(s, fd), Leave(s, fd, junk, closes);
    assert s.request - {fd} == s.request;
    var other := if c.status.Matched? && !closes then c.friend else fd;
    assert t.clients == s.clients[other := ClientOf(s, other).(status := Idle)][fd := c.(status := Idle)];
    forall x
      ensures ClientOf(t, x) == if x == fd || x == other then ClientOf(s, x).(status := Idle) else ClientOf(s, x)
    {
    }
    OnlyClientsDiffer(s, t, accepts);
  }

  lemma LeaveKeepsInv(s: State, accepts: Filters, fd: Fd, junk: seq<Fd>, closes: bool)
    requires Inv(s, accepts) && 0 <= fd < MAX_FD && |junk| == |s.pool|
    requires ClientOf(s, fd).status.Trying? ==> Placed(s, fd)
    requires ClientOf(s, fd).status.Matched? && !closes ==> ClientOf(s, fd).friend !in s.request
    ensures Inv(Leave(s, fd, junk, closes), accepts)
    ensures Sound(s, accepts) ==> (Sound(Leave(s, fd, junk, closes), accepts) <==> Harmless(s, accepts, fd))
  {
    if ClientOf(s, fd).status.Trying? {
      PendingLeaves(s, accepts, fd, junk, closes);
    } else {
      assert fd !in s.waitingList && fd !in s.request;
      OtherLeaves(s, accepts, fd, junk, closes);
    }
  }
}
