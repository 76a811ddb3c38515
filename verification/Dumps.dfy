/** Incremental dumps: the boss's string is written to files in pieces while it grows, with writes that may be short or
    fail and requests that may repeat. */
module Dumps {
  import opened ShortlexSearch

  const CHUNK := 1024

  /** `written` is what has reached the file; it is history and the boss never reads it. */
  datatype Dump = Dump(location: string, isOpen: bool, start: int, end: int, success: bool, written: Bytes)

  datatype State = State(str: Bytes, readFile: bool, dumps: seq<Dump>)

  function Limit(s: State): nat {
    if s.readFile then |s.str| else 0
  }

  /** An unfinished dump whose location is a prefix of the requested one takes over the request. */
  predicate TakesOver(d: Dump, location: string) {
    d.location <= location && !d.success
  }

  function FirstTaker(dumps: seq<Dump>, location: string): (i: nat)
    ensures i <= |dumps|
    ensures i < |dumps| ==> TakesOver(dumps[i], location)
    ensures forall j :: 0 <= j < i ==> !TakesOver(dumps[j], location)
  {
    if dumps == [] || TakesOver(dumps[0], location) then 0 else 1 + FirstTaker(dumps[1..], location)
  }

  function Request(s: State, location: string): State {
    var i := FirstTaker(s.dumps, location);
    if i < |s.dumps| then s.(dumps := s.dumps[i := s.dumps[i].(end := Limit(s))])
    else s.(dumps := s.dumps + [Dump(location, false, 0, Limit(s), false, [])])
  }

  function Need(d: Dump): int {
    if d.end - d.start < CHUNK then d.end - d.start else CHUNK
  }

  /** What the system answers to the `open` and the `write` of one dump: `ret` is `-1` or the number of bytes taken. */
  datatype Answer = Answer(opens: bool, ret: int)

  predicate Possible(d: Dump, a: Answer) {
    -1 <= a.ret <= (if Need(d) < 0 then -1 else Need(d))
  }

  /** The part of the string that is still to be written is there. */
  predicate InRange(str: Bytes, d: Dump) {
    !d.success ==> 0 <= d.start <= d.end <= |str|
  }

  function Written(str: Bytes, d: Dump, ret: int): Dump
    requires 0 <= d.start && d.start + ret <= d.end <= |str|
  {
    if ret < 0 then d
    else d.(start := d.start + ret, written := d.written + str[d.start..d.start + ret])
  }

  /** The boss's attempt, once a round, to push one dump further. */
  function Push(str: Bytes, d: Dump, a: Answer): Dump
    requires Possible(d, a) && InRange(str, d)
  {
    if d.success then d
    else if !d.isOpen && !a.opens then d
    else
      var d1 := Written(str, d.(isOpen := true), a.ret);
      d1.(success := d1.start == d1.end)
  }

  function PushAll(s: State, answers: seq<Answer>): State
    requires |answers| == |s.dumps|
    requires forall i :: 0 <= i < |answers| ==> Possible(s.dumps[i], answers[i]) && InRange(s.str, s.dumps[i])
  {
    s.(dumps := seq(|s.dumps|, i requires 0 <= i < |s.dumps| => Push(s.str, s.dumps[i], answers[i])))
  }

  datatype Event = Grow(data: Bytes) | FinishReading | RequestDump(location: string) | Round(answers: seq<Answer>)

  predicate Enabled(s: State, e: Event) {
    e.Round? ==> |e.answers| == |s.dumps| && forall i :: 0 <= i < |e.answers| ==> Possible(s.dumps[i], e.answers[i])
  }

  /** The boss reads only bytes that it holds. */
  predicate Defined(s: State, e: Event) {
    e.Round? ==> forall i :: 0 <= i < |s.dumps| ==> InRange(s.str, s.dumps[i])
  }

  function Next(s: State, e: Event): State
    requires Enabled(s, e) && Defined(s, e)
  {
    match e
    case Grow(data) => s.(str := s.str + data)
    case FinishReading => s.(readFile := true)
    case RequestDump(location) => Request(s, location)
    case Round(answers) => PushAll(s, answers)
  }

  ghost predicate IsRun(states: seq<State>, events: seq<Event>) {
    && |states| == |events| + 1
    && states[0] == State([], false, [])
    && forall i {:trigger events[i]} :: 0 <= i < |events| ==> Step(states[i], events[i], states[i + 1])
  }

  predicate Step(s: State, e: Event, t: State) {
    Enabled(s, e) && Defined(s, e) && t == Next(s, e)
  }

  ghost predicate DumpInv(s: State, d: Dump) {
    && 0 <= d.start <= d.end <= |s.str|
    && d.written == s.str[..d.start]
    && (d.success ==> d.start == d.end)
    && (!s.readFile ==> d.end == 0)
  }

  ghost predicate Inv(s: State) {
    forall i :: 0 <= i < |s.dumps| ==> DumpInv(s, s.dumps[i])
  }

  lemma WrittenKeepsInv(s: State, d: Dump, ret: int)
    requires DumpInv(s, d) && !d.success && ret <= Need(d)
    ensures DumpInv(s, Written(s.str, d, ret))
  {
    if ret >= 0 {
      assert s.str[..d.start] + s.str[d.start..d.start + ret] == s.str[..d.start + ret];
    }
  }

  /** Whatever the system answers, the next step reads only bytes that are there, and every dump stays consistent. */
  lemma StepKeepsInv(s: State, e: Event)
    requires Inv(s) && Enabled(s, e)
    ensures Defined(s, e) && Inv(Next(s, e))
  {
    assert forall i :: 0 <= i < |s.dumps| ==> DumpInv(s, s.dumps[i]);
    var t := Next(s, e);
    forall i | 0 <= i < |t.dumps|
      ensures DumpInv(t, t.dumps[i])
    {
      if i < |s.dumps| {
        var d := s.dumps[i];
        assert DumpInv(s, d);
        if e.Grow? {
          assert t.str[..d.start] == s.str[..d.start];
        } else if e.Round? && !d.success {
          WrittenKeepsInv(s, d.(isOpen := true), e.answers[i].ret);
        }
      }
    }
  }

  lemma {:induction false} InvOnEveryRun(states: seq<State>, events: seq<Event>, n: nat)
    requires IsRun(states, events) && n <= |events|
    ensures Inv(states[n])
  {
    if n > 0 {
      InvOnEveryRun(states, events, n - 1);
      StepKeepsInv(states[n - 1], events[n - 1]);
    }
  }

  /** Whatever the writes return and however requests and growth interleave, each file holds exactly a prefix of the
      string, and a finished one exactly the part that was asked for. */
  lemma FilesHoldPrefixes(states: seq<State>, events: seq<Event>, n: nat, i: nat)
    requires IsRun(states, events) && n <= |events| && i < |states[n].dumps|
    ensures var s, d := states[n], states[n].dumps[i];
      && 0 <= d.start <= d.end <= |s.str| && d.written == s.str[..d.start]
      && (d.success ==> d.written == s.str[..d.end])
  {
    InvOnEveryRun(states, events, n);
    assert DumpInv(states[n], states[n].dumps[i]);
  }

  /** A finished dump is never touched again, though the string grows and the same location may be asked for anew. */
  lemma {:induction false} FinishedDumpsStay(states: seq<State>, events: seq<Event>, m: nat, n: nat, i: nat)
    requires IsRun(states, events) && m <= n <= |events| && i < |states[m].dumps| && states[m].dumps[i].success
    ensures i < |states[n].dumps| && states[n].dumps[i] == states[m].dumps[i]
    decreases n
  {
    if m < n {
      FinishedDumpsStay(states, events, m, n - 1, i);
      var s, e := states[n - 1], events[n - 1];
      if e.RequestDump? {
        assert FirstTaker(s.dumps, e.location) != i;
      }
    }
  }

  /** The string grows by exactly what is added to it, and the end of the mine is noted; the dumps stay as they are. */
  lemma StringGrows(states: seq<State>, events: seq<Event>, n: nat)
    requires IsRun(states, events) && n < |events| && (events[n].Grow? || events[n].FinishReading?)
    ensures states[n + 1].dumps == states[n].dumps
    ensures events[n].Grow? ==>
              states[n + 1].str == states[n].str + events[n].data && states[n + 1].readFile == states[n].readFile
    ensures events[n].FinishReading? ==> states[n + 1].str == states[n].str && states[n + 1].readFile
  {
    assert Step(states[n], events[n], states[n + 1]);
  }

  // ----- what a round does -----

  /** What the system may answer: an open that succeeds or fails, and a write that fails or takes any part of what it is
      offered, which is the rest of the dump, but no more than 1024 bytes. */
  lemma RoundIsEnabledIff(s: State, answers: seq<Answer>)
    requires Inv(s)
    ensures Enabled(s, Round(answers)) <==>
            && |answers| == |s.dumps|
            && forall i :: 0 <= i < |answers| ==>
                 -1 <= answers[i].ret && answers[i].ret <= 1024 && answers[i].ret <= s.dumps[i].end - s.dumps[i].start
  {
    assert forall i :: 0 <= i < |s.dumps| ==> DumpInv(s, s.dumps[i]);
  }

  /** In a round, a finished dump and one whose file cannot be opened stay as they are; any other is open afterwards and its
      file has grown by exactly the next `ret` bytes of the string.  It is finished if and only if its file then has as many
      bytes as were asked for. */
  lemma RoundWritesTheNextBytes(states: seq<State>, events: seq<Event>, n: nat, i: nat)
    requires IsRun(states, events) && n < |events| && events[n].Round? && i < |states[n].dumps|
    ensures i < |events[n].answers| && |states[n + 1].dumps| == |states[n].dumps|
    ensures states[n + 1].str == states[n].str && states[n + 1].readFile == states[n].readFile
    ensures var str, d, u, a := states[n].str, states[n].dumps[i], states[n + 1].dumps[i], events[n].answers[i];
      if d.success || (!d.isOpen && !a.opens) then u == d
      else
        && u.isOpen && u.location == d.location && u.end == d.end && u.start == |u.written|
        && (a.ret <= 0 ==> u.written == d.written)
        && (a.ret > 0 ==> |d.written| + a.ret <= |str| && u.written == d.written + str[|d.written|..|d.written| + a.ret])
        && (u.success <==> |u.written| == u.end)
  {
    InvOnEveryRun(states, events, n);
    assert Step(states[n], events[n], states[n + 1]);
    assert DumpInv(states[n], states[n].dumps[i]);
  }

  /** No byte reaches a file that has not been opened. */
  lemma {:induction false} OnlyOpenFilesAreWritten(states: seq<State>, events: seq<Event>, n: nat, i: nat)
    requires IsRun(states, events) && n <= |events| && i < |states[n].dumps| && !states[n].dumps[i].isOpen
    ensures states[n].dumps[i].written == [] && states[n].dumps[i].start == 0 && !states[n].dumps[i].success
  {
    if n > 0 {
      var s, e := states[n - 1], events[n - 1];
      assert Step(s, e, states[n]);
      InvOnEveryRun(states, events, n - 1);
      if i < |s.dumps| {
        assert DumpInv(s, s.dumps[i]);
        OnlyOpenFilesAreWritten(states, events, n - 1, i);
      }
    }
  }

  // ----- what a request asks for -----

  /** The dump is not finished, and its location is what the requested one begins with. */
  predicate Answers(d: Dump, location: string) {
    !d.success && |d.location| <= |location| && location[..|d.location|] == d.location
  }

  /** A request is for all the bytes that are there, or for none if the mine has not been read to its end.  It goes to the
      first unfinished dump that answers it, which keeps what it has written; only if there is none it adds a dump, of this
      very location and with nothing written.  All other dumps stay. */
  lemma RequestIsForAllThereIs(states: seq<State>, events: seq<Event>, m: nat, location: string) returns (i: nat)
    requires IsRun(states, events) && m < |events| && events[m] == RequestDump(location)
    ensures states[m + 1].str == states[m].str && states[m + 1].readFile == states[m].readFile
    ensures i < |states[m + 1].dumps| && Answers(states[m + 1].dumps[i], location)
    ensures states[m + 1].dumps[i].end == if states[m].readFile then |states[m].str| else 0
    ensures var before, after := states[m].dumps, states[m + 1].dumps;
      && (forall j :: 0 <= j < |before| && j != i ==> after[j] == before[j])
      && (forall j :: 0 <= j < |before| && j < i ==> !Answers(before[j], location))
      && (if i < |before| then
            && |after| == |before|
            && after[i] == Dump(before[i].location, before[i].isOpen, before[i].start, after[i].end, false, before[i].written)
          else
            && |after| == |before| + 1
            && after[i] == Dump(location, false, 0, after[i].end, false, []))
  {
    var s := states[m];
    assert Step(s, events[m], states[m + 1]);
    InvOnEveryRun(states, events, m);
    i := FirstTaker(s.dumps, location);
    if i < |s.dumps| {
      assert DumpInv(s, s.dumps[i]);
    }
  }

  /** Nobody asks between the two states for what dump `i` would answer. */
  ghost predicate NotAskedAgain(states: seq<State>, events: seq<Event>, m: nat, n: nat, i: nat)
    requires |states| == |events| + 1 && m <= n <= |events|
  {
    forall k {:trigger events[k]} :: m <= k < n && events[k].RequestDump? && i < |states[k].dumps| ==>
      !Answers(states[k].dumps[i], events[k].location)
  }

  lemma StepKeepsEnd(s: State, e: Event, t: State, i: nat)
    requires Inv(s) && Step(s, e, t) && i < |s.dumps|
    requires e.RequestDump? ==> !Answers(s.dumps[i], e.location)
    ensures i < |t.dumps| && t.dumps[i].end == s.dumps[i].end && t.dumps[i].location == s.dumps[i].location
    ensures s.str <= t.str
  {
    assert DumpInv(s, s.dumps[i]);
  }

  /** Dump `i` of the later state is still for the same part of a string that has only grown. */
  ghost predicate SameEnd(s: State, t: State, i: nat) {
    && i < |s.dumps| && i < |t.dumps| && s.str <= t.str
    && t.dumps[i].end == s.dumps[i].end && t.dumps[i].location == s.dumps[i].location
  }

  lemma {:induction false} EndStays(states: seq<State>, events: seq<Event>, m: nat, n: nat, i: nat)
    requires IsRun(states, events) && m <= n <= |events| && i < |states[m].dumps|
    requires NotAskedAgain(states, events, m, n, i)
    ensures SameEnd(states[m], states[n], i)
    decreases n
  {
    if m < n {
      var p := n - 1;
      EndStays(states, events, m, p, i);
      InvOnEveryRun(states, events, p);
      var e := events[p];
      assert Step(states[p], e, states[n]);
      StepKeepsEnd(states[p], e, states[n], i);
    }
  }

  /** If the mine has been read when a dump is asked for, some unfinished dump is from then on to reach as far as the string
      does at that moment; and when it finishes before it is asked for again, its file holds exactly the string as it was at
      the request, however much it has grown since. */
  lemma FileHoldsTheStringAsRequested(states: seq<State>, events: seq<Event>, m: nat, location: string) returns (i: nat)
    requires IsRun(states, events) && m < |events| && events[m] == RequestDump(location) && states[m].readFile
    ensures i < |states[m + 1].dumps| && Answers(states[m + 1].dumps[i], location)
    ensures states[m + 1].dumps[i].end == |states[m].str|
    ensures forall n :: m < n <= |events| && NotAskedAgain(states, events, m + 1, n, i) ==>
              && i < |states[n].dumps| && states[n].dumps[i].location == states[m + 1].dumps[i].location
              && (states[n].dumps[i].success ==> states[n].dumps[i].written == states[m].str)
  {
    i := RequestIsForAllThereIs(states, events, m, location);
    forall n | m < n <= |events| && NotAskedAgain(states, events, m + 1, n, i)
      ensures i < |states[n].dumps| && states[n].dumps[i].location == states[m + 1].dumps[i].location
      ensures states[n].dumps[i].success ==> states[n].dumps[i].written == states[m].str
    {
      EndStays(states, events, m + 1, n, i);
      FilesHoldPrefixes(states, events, n, i);
    }
  }

  /** `n` rounds in which the file opens and every write takes all it is given. */
  function PushFully(str: Bytes, d: Dump, n: nat): Dump
    requires 0 <= d.start <= d.end <= |str|
    decreases n
  {
    if n == 0 then d else PushFully(str, Push(str, d, Answer(true, Need(d))), n - 1)
  }

  lemma FinishedIsNotPushed(str: Bytes, d: Dump, n: nat)
    requires 0 <= d.start <= d.end <= |str| && d.success
    ensures PushFully(str, d, n) == d
    decreases n
  {
  }

  /** A request is served by full answers: `n` of them finish the dump if and only if, at 1024 bytes each, they cover what
      is left of it, and at least one is needed even if nothing is left. The file then holds exactly what was asked for. */
  lemma {:induction false} FullAnswersFinishIff(s: State, d: Dump, n: nat)
    requires DumpInv(s, d) && !d.success
    ensures var pushed := PushFully(s.str, d, n);
      && (pushed.success <==> n > 0 && n * CHUNK >= d.end - d.start)
      && pushed.start == (if n * CHUNK < d.end - d.start then d.start + n * CHUNK else d.end)
      && pushed.written == s.str[..pushed.start] && pushed.end == d.end && pushed.location == d.location
    decreases n
  {
    if n > 0 {
      var next := Push(s.str, d, Answer(true, Need(d)));
      WrittenKeepsInv(s, d.(isOpen := true), Need(d));
      if next.success {
        FinishedIsNotPushed(s.str, next, n - 1);
      } else {
        FullAnswersFinishIff(s, next, n - 1);
      }
    }
  }
}
