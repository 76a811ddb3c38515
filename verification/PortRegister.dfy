/** The port register: a port for each name (by its hash code), handed out from a fixed range, kept in the chained hash. */
module PortRegister {
  import opened HashTable

  const REGISTER_PORT := 2500
  const RESERVE_SIZE := 512

  /** `reserve[i]` speaks about port `REGISTER_PORT + 1 + i`; the table holds the port of each hash code. */
  datatype Register = Register(records: Table<int>, reserve: seq<bool>)

  predicate IsPort(port: int) {
    REGISTER_PORT < port <= REGISTER_PORT + RESERVE_SIZE
  }

  function PortAt(i: nat): int {
    i + REGISTER_PORT + 1
  }

  function Slot(port: int): (i: nat)
    requires IsPort(port)
    ensures i < RESERVE_SIZE && PortAt(i) == port
  {
    port - 1 - REGISTER_PORT
  }

  // ----- the operations -----

  /** The first free slot, or the length. */
  function LowestFree(reserve: seq<bool>): (i: nat)
    ensures i <= |reserve|
    ensures i < |reserve| ==> !reserve[i]
    ensures forall j :: 0 <= j < i ==> reserve[j]
  {
    if reserve == [] || !reserve[0] then 0 else 1 + LowestFree(reserve[1..])
  }

  /** The record of a hash code gets another port, in its place. */
  function SetPort(t: Table<int>, code: int, port: int): Table<int>
    requires |t| > 0
  {
    var p := Bucket(t, code);
    var i := Find(t[p], code);
    if i == |t[p]| then t else t[p := t[p][i := (code, port)]]
  }

  predicate Shaped(r: Register) {
    |r.records| > 0 && |r.reserve| == RESERVE_SIZE
  }

  /** `book_port` with what it answers: a name that has a record gets a new port all the same. */
  function Book(r: Register, code: int): (Register, int)
    requires Shaped(r)
  {
    var k := LowestFree(r.reserve);
    if k == |r.reserve| then (r, -1)
    else
      var records := if Get(r.records, code).Some? then SetPort(r.records, code, PortAt(k))
                     else Put(r.records, code, PortAt(k));
      (Register(records, r.reserve[k := true]), PortAt(k))
  }

  /** `get_port`. */
  function Lookup(r: Register, code: int): int
    requires Shaped(r)
  {
    match Get(r.records, code)
    case Some(port) => port
    case None => -1
  }

  /** `web_port`, before its answer is put into network order. */
  function Web(r: Register, code: int): (Register, int)
    requires Shaped(r)
  {
    var port := Lookup(r, code);
    if port == -1 then Book(r, code) else (r, port)
  }

  /** What `clean_port_reserve` does for one node; `bindable` are the ports that can be bound during the pass. */
  function CleanEntry(r: Register, e: Entry<int>, bindable: set<int>): Register
    requires Shaped(r) && IsPort(e.1)
  {
    if e.1 in bindable then Register(Del(r.records, e.0), r.reserve[Slot(e.1) := false]) else r
  }

  ghost predicate InRange(chain: seq<Entry<int>>) {
    forall i :: 0 <= i < |chain| ==> IsPort(chain[i].1)
  }

  /** The walk along a chain; it follows the pointers as they were, whatever has been deleted before. */
  function CleanChain(r: Register, chain: seq<Entry<int>>, bindable: set<int>): (s: Register)
    requires Shaped(r) && InRange(chain)
    ensures Shaped(s) && |s.records| == |r.records|
  {
    if chain == [] then r else CleanEntry(CleanChain(r, chain[..|chain| - 1], bindable), chain[|chain| - 1], bindable)
  }

  /** `check_port_reserve`: a port is reserved exactly if it cannot be bound. */
  function Check(r: Register, bindable: set<int>): Register {
    r.(reserve := seq(RESERVE_SIZE, i requires 0 <= i < RESERVE_SIZE => PortAt(i) !in bindable))
  }

  // ----- safety -----

  /** Live records hold ports of the range, each reserved, no two the same. */
  ghost predicate Safe(r: Register) {
    && Shaped(r) && GoodTable(r.records)
    && (forall c :: Get(r.records, c).Some? ==> IsPort(Get(r.records, c).value) && r.reserve[Slot(Get(r.records, c).value)])
    && forall c, d :: c != d && Get(r.records, c).Some? && Get(r.records, d).Some? ==>
        Get(r.records, c) != Get(r.records, d)
  }

  lemma SetPortKeepsGood(t: Table<int>, code: int, port: int)
    requires GoodTable(t)
    ensures GoodTable(SetPort(t, code, port))
  {
    var u := SetPort(t, code, port);
    forall q | 0 <= q < |u|
      ensures GoodChain(u[q], q, |u|)
    {
      assert GoodChain(t[q], q, |t|);
    }
  }

  lemma SetPortIsUpdate(t: Table<int>, code: int, port: int, c: int)
    requires GoodTable(t) && Get(t, code).Some?
    ensures Get(SetPort(t, code, port), c) == if c == code then Some(port) else Get(t, c)
  {
    var u := SetPort(t, code, port);
    var p, q := Bucket(t, code), Bucket(t, c);
    FindIgnoresContents(t[q], u[q], c);
  }

  /** Booking answers the lowest free port, fails exactly if all 512 are reserved, and changes no other record. */
  lemma BookTakesTheLowestFree(r: Register, code: int, c: int)
    requires Safe(r)
    ensures var (s, port) := Book(r, code);
      && (port == -1 <==> forall i :: 0 <= i < RESERVE_SIZE ==> r.reserve[i])
      && (port == -1 ==> s == r)
      && (port != -1 ==> IsPort(port) && !r.reserve[Slot(port)] && s.reserve == r.reserve[Slot(port) := true])
      && (port != -1 ==> forall i :: 0 <= i < Slot(port) ==> r.reserve[i])
      && (port != -1 ==> Get(s.records, c) == if c == code then Some(port) else Get(r.records, c))
  {
    var k := LowestFree(r.reserve);
    if k < |r.reserve| {
      if Get(r.records, code).Some? {
        SetPortIsUpdate(r.records, code, PortAt(k), c);
      } else {
        GetAfterPut(r.records, code, PortAt(k), c);
      }
    }
  }

  /** Register `r` before and `s` after a web request.  A name that has a record gets its port and changes nothing; any
      other is given the lowest port whose bit is clear, which is found from then on; and if all bits are set the answer is
      -1. */
  ghost predicate WebAnswered(r: Register, s: Register, code: int, port: int)
    requires Shaped(r) && Shaped(s)
  {
    if code in Contents(r.records) then s == r && port == Contents(r.records)[code]
    else if forall i :: 0 <= i < 512 ==> r.reserve[i] then s == r && port == -1
    else
      && 2501 <= port <= 3012
      && !r.reserve[port - 2501] && (forall i :: 0 <= i < port - 2501 ==> r.reserve[i])
      && s.reserve == r.reserve[port - 2501 := true]
      && Lookup(s, code) == port
      && forall c :: c != code ==> Lookup(s, c) == Lookup(r, c)
  }

  /** What a web request is answered, and what it leaves; in particular, the answer is -1 if and only if the name has no
      record and all 512 bits are set. */
  lemma WebAnswers(r: Register, code: int)
    requires Safe(r)
    ensures Shaped(Web(r, code).0) && WebAnswered(r, Web(r, code).0, code, Web(r, code).1)
    ensures Web(r, code).1 == -1 <==> code !in Contents(r.records) && forall i :: 0 <= i < 512 ==> r.reserve[i]
  {
    GetIsLookup(r.records, code);
    BookTakesTheLowestFree(r, code, code);
    forall c | c != code
      ensures Book(r, code).1 != -1 ==> Lookup(Book(r, code).0, c) == Lookup(r, c)
    {
      BookTakesTheLowestFree(r, code, c);
    }
  }

  lemma BookKeepsSafe(r: Register, code: int)
    requires Safe(r)
    ensures Safe(Book(r, code).0)
  {
    var (s, port) := Book(r, code);
    SetPortKeepsGood(r.records, code, port);
    PutKeepsGood(r.records, code, port);
    forall c
      ensures port != -1 ==> Get(s.records, c) == if c == code then Some(port) else Get(r.records, c)
    {
      BookTakesTheLowestFree(r, code, c);
    }
    BookTakesTheLowestFree(r, code, code);
  }

  // ----- a clean pass -----

  /** `s` holds some of the records of `r`, with their ports. */
  ghost predicate Below(s: Register, r: Register) {
    0 < |s.records| == |r.records| && forall c :: Get(s.records, c).Some? ==> Get(s.records, c) == Get(r.records, c)
  }

  /** Freeing a slot is safe, for the only record that may hold it goes at the same time. */
  lemma CleanEntryKeepsSafe(r: Register, s: Register, e: Entry<int>, bindable: set<int>)
    requires Safe(r) && Safe(s) && Below(s, r) && Get(r.records, e.0) == Some(e.1)
    ensures Safe(CleanEntry(s, e, bindable)) && Below(CleanEntry(s, e, bindable), r)
  {
    if e.1 in bindable {
      var u := CleanEntry(s, e, bindable);
      DelKeepsGood(s.records, e.0);
      forall c
        ensures Get(u.records, c) == if Taken(s.records, e.0, c) then None else Get(s.records, c)
      {
        GetAfterDel(s.records, e.0, c);
      }
      forall c | Get(u.records, c).Some?
        ensures u.reserve[Slot(Get(u.records, c).value)]
      {
        assert c != e.0;
        assert Get(s.records, c) == Get(r.records, c);
      }
    }
  }

  /** The entries of the chains are the records, so their ports are in the range. */
  lemma ChainsAreInRange(r: Register, p: nat)
    requires Safe(r) && p < |r.records|
    ensures InRange(r.records[p])
    ensures forall i :: 0 <= i < |r.records[p]| ==> Get(r.records, r.records[p][i].0) == Some(r.records[p][i].1)
  {
    var chain := r.records[p];
    forall i | 0 <= i < |chain|
      ensures Get(r.records, chain[i].0) == Some(chain[i].1) && IsPort(chain[i].1)
    {
      assert chain[i] in chain;
      InChainIff(r.records, p, chain[i]);
    }
  }

  /** Whether record `c` of bucket `p` is still there when the walk has passed `j` nodes: a head that goes takes all with
      it. */
  predicate Survives(r: Register, p: nat, j: nat, bindable: set<int>, c: int)
    requires p < |r.records| && j <= |r.records[p]|
  {
    var chain := r.records[p];
    var k := Find(chain, c);
    !(j > 0 && chain[0].1 in bindable) && !(k < j && chain[k].1 in bindable)
  }

  ghost predicate Walked(r: Register, s: Register, p: nat, j: nat, bindable: set<int>)
    requires Shaped(r) && Shaped(s) && p < |r.records| && j <= |r.records[p]|
  {
    && Safe(s) && Below(s, r)
    && (forall q :: 0 <= q < |r.records| && q != p ==> s.records[q] == r.records[q])
    && (forall c :: Bucket(r.records, c) == p && Get(r.records, c).Some? ==>
        (Get(s.records, c).Some? <==> Survives(r, p, j, bindable, c)))
    && var chain := r.records[p];
      if j > 0 && chain[0].1 in bindable then s.records[p] == []
      else chain != [] ==> s.records[p] != [] && s.records[p][0] == chain[0]
  }

  lemma WalkStep(r: Register, s: Register, p: nat, j: nat, n: nat, bindable: set<int>)
    requires Safe(r) && Shaped(s) && p < |r.records| && j < |r.records[p]| && Walked(r, s, p, j, bindable) && n == j + 1
    ensures IsPort(r.records[p][j].1) && Walked(r, CleanEntry(s, r.records[p][j], bindable), p, n, bindable)
  {
    var chain := r.records[p];
    var e := chain[j];
    ChainsAreInRange(r, p);
    CleanEntryKeepsSafe(r, s, e, bindable);
    var u := CleanEntry(s, e, bindable);
    assert GoodChain(chain, p, |r.records|);
    assert Bucket(s.records, e.0) == p;
    forall c | Bucket(r.records, c) == p && Get(r.records, c).Some?
      ensures Get(u.records, c).Some? <==> Survives(r, p, n, bindable, c)
    {
      GetAfterDel(s.records, e.0, c);
      assert Find(chain, c) == j <==> c == e.0;
    }
  }

  lemma {:induction false} ChainIsWalked(r: Register, p: nat, j: nat, bindable: set<int>)
    requires Safe(r) && p < |r.records| && j <= |r.records[p]|
    ensures InRange(r.records[p][..j]) && Walked(r, CleanChain(r, r.records[p][..j], bindable), p, j, bindable)
  {
    var chain := r.records[p];
    ChainsAreInRange(r, p);
    if j > 0 {
      var i := j - 1;
      ChainIsWalked(r, p, i, bindable);
      assert chain[..j][..i] == chain[..i];
      WalkStep(r, CleanChain(r, chain[..i], bindable), p, i, j, bindable);
    }
  }

  /** On the way a bit is cleared exactly if a node that has been passed has its port, and this can be bound; also a node
      whose record has gone with the head. */
  lemma {:induction false} WalkClearsBits(r: Register, p: nat, j: nat, bindable: set<int>, i: nat)
    requires Safe(r) && p < |r.records| && j <= |r.records[p]| && i < 512
    ensures InRange(r.records[p][..j])
    ensures CleanChain(r, r.records[p][..j], bindable).reserve[i] <==>
            r.reserve[i] && forall k :: 0 <= k < j && r.records[p][k].1 in bindable ==> r.records[p][k].1 != 2501 + i
  {
    ChainsAreInRange(r, p);
    if j > 0 {
      var chain, h := r.records[p], j - 1;
      WalkClearsBits(r, p, h, bindable, i);
      assert chain[..j][..h] == chain[..h] && chain[..j][h] == chain[h];
      assert IsPort(chain[h].1) && (Slot(chain[h].1) == i <==> chain[h].1 == 2501 + i);
    }
  }

  /** The register when the walk of bucket `p` has passed `k` nodes. */
  function CleanPrefix(r: Register, p: nat, k: nat, bindable: set<int>): (s: Register)
    requires Safe(r) && p < |r.records| && k <= |r.records[p]|
    ensures Safe(s) && |s.records| == |r.records|
  {
    ChainIsWalked(r, p, k, bindable);
    CleanChain(r, r.records[p][..k], bindable)
  }

  lemma CleanPrefixStep(r: Register, p: nat, k: nat, bindable: set<int>)
    requires Safe(r) && p < |r.records| && k < |r.records[p]|
    ensures IsPort(r.records[p][k].1)
    ensures CleanPrefix(r, p, k + 1, bindable) == CleanEntry(CleanPrefix(r, p, k, bindable), r.records[p][k], bindable)
  {
    ChainsAreInRange(r, p);
    ChainIsWalked(r, p, k, bindable);
    assert r.records[p][..k + 1][..k] == r.records[p][..k];
  }

  /** The head of bucket `p` is deleted in a pass. */
  predicate HeadGoes(t: Table<int>, p: nat, bindable: set<int>)
    requires p < |t|
  {
    t[p] != [] && t[p][0].1 in bindable
  }

  /** Record `c` outlives a pass: its port cannot be bound, nor can the port at the head of its bucket. */
  predicate Stays(t: Table<int>, c: int, bindable: set<int>)
    requires |t| > 0
  {
    Get(t, c).Some? && Get(t, c).value !in bindable && !HeadGoes(t, Bucket(t, c), bindable)
  }

  /** `s` is `r` with the first `n` buckets cleaned. */
  ghost predicate Cleaned(r: Register, s: Register, n: nat, bindable: set<int>)
    requires Shaped(r)
  {
    && Safe(s) && Below(s, r)
    && (forall q :: n <= q < |r.records| ==> s.records[q] == r.records[q])
    && forall c :: Get(r.records, c).Some? ==>
        (Get(s.records, c).Some? <==> n <= Bucket(r.records, c) || Stays(r.records, c, bindable))
  }

  lemma CleanStep(r: Register, s: Register, u: Register, p: nat, n: nat, bindable: set<int>)
    requires Safe(r) && p < |r.records| && Cleaned(r, s, p, bindable) && n == p + 1
    requires u == CleanPrefix(s, p, |s.records[p]|, bindable)
    ensures Cleaned(r, u, n, bindable)
  {
    ChainIsWalked(s, p, |s.records[p]|, bindable);
    forall c | Get(r.records, c).Some?
      ensures Get(u.records, c).Some? <==> n <= Bucket(r.records, c) || Stays(r.records, c, bindable)
    {
      var q := Bucket(r.records, c);
      assert q != p ==> u.records[q] == s.records[q];
    }
  }

  /** The loop of `clean_port_reserve` over the first `n` buckets. */
  function CleanBuckets(r: Register, n: nat, bindable: set<int>): (s: Register)
    requires Safe(r) && n <= |r.records|
    ensures Safe(s) && |s.records| == |r.records|
  {
    if n == 0 then r else
      var s := CleanBuckets(r, n - 1, bindable);
      CleanPrefix(s, n - 1, |s.records[n - 1]|, bindable)
  }

  lemma NothingCleaned(r: Register, bindable: set<int>)
    requires Safe(r)
    ensures Cleaned(r, r, 0, bindable)
  {
  }

  lemma {:induction false} BucketsAreCleaned(r: Register, n: nat, bindable: set<int>)
    requires Safe(r) && n <= |r.records|
    ensures Cleaned(r, CleanBuckets(r, n, bindable), n, bindable)
  {
    if n == 0 {
      NothingCleaned(r, bindable);
    } else {
      var p := n - 1;
      BucketsAreCleaned(r, p, bindable);
      CleanStep(r, CleanBuckets(r, p, bindable), CleanBuckets(r, n, bindable), p, n, bindable);
    }
  }

  /** `clean_port_reserve`: a pass keeps exactly the records whose port and whose bucket's first port are in use, and then
      reserves exactly the ports in use; that is safe although the deletion of a head takes its whole bucket. */
  function Clean(r: Register, bindable: set<int>): (s: Register)
    requires Safe(r)
    ensures Safe(s) && |s.records| == |r.records|
    ensures forall c :: Get(s.records, c) == if Stays(r.records, c, bindable) then Get(r.records, c) else None
    ensures forall i :: 0 <= i < RESERVE_SIZE ==> (s.reserve[i] <==> PortAt(i) !in bindable)
  {
    BucketsAreCleaned(r, |r.records|, bindable);
    Check(CleanBuckets(r, |r.records|, bindable), bindable)
  }

  /** No bucket starts with a port that can be bound before one that cannot. */
  ghost predicate NothingIsDragged(t: Table<int>, bindable: set<int>) {
    forall p, k :: 0 <= p < |t| && 0 < k < |t[p]| && t[p][0].1 in bindable ==> t[p][k].1 in bindable
  }

  /** So a pass drops only records whose port can be bound exactly if no such bucket is there. */
  lemma CleanDropsOnlyFreePortsIff(r: Register, bindable: set<int>)
    requires Safe(r)
    ensures NothingIsDragged(r.records, bindable) <==>
            forall c :: Get(r.records, c).Some? && Get(r.records, c).value !in bindable ==>
              Get(Clean(r, bindable).records, c) == Get(r.records, c)
  {
    var t: Table<int> := r.records;
    forall p | 0 <= p < |t|
      ensures forall i :: 0 <= i < |t[p]| ==> Get(t, t[p][i].0) == Some(t[p][i].1) && Bucket(t, t[p][i].0) == p
    {
      ChainsAreInRange(r, p);
      assert GoodChain(t[p], p, |t|);
    }
    forall c | Get(t, c).Some?
      ensures var p := Bucket(t, c); var k := Find(t[p], c); k < |t[p]| && t[p][k] == (c, Get(t, c).value)
    {
    }
    if !NothingIsDragged(t, bindable) {
      var p, k :| 0 <= p < |t| && 0 < k < |t[p]| && t[p][0].1 in bindable && t[p][k].1 !in bindable;
      assert !Stays(t, t[p][k].0, bindable);
    }
  }

  // ----- runs -----

  datatype Event =
    | BookName(code: int)
    | AskPort(code: int)
    | AskWeb(code: int)
    | CleanPass(bindable: set<int>)

  function Start(buckets: nat, bindable: set<int>): Register
    requires buckets > 0
  {
    Check(Register(seq(buckets, _ => []), seq(RESERVE_SIZE, _ => false)), bindable)
  }

  function Next(r: Register, e: Event): Register
    requires Safe(r)
  {
    match e
    case BookName(code) => Book(r, code).0
    case AskPort(_) => r
    case AskWeb(code) => Web(r, code).0
    case CleanPass(bindable) => Clean(r, bindable)
  }

  lemma StepKeepsSafe(r: Register, e: Event)
    requires Safe(r)
    ensures Safe(Next(r, e))
  {
    match e
    case BookName(code) => BookKeepsSafe(r, code);
    case AskPort(_) =>
    case AskWeb(code) => BookKeepsSafe(r, code);
    case CleanPass(_) =>
  }

  /** The register after some requests and passes. */
  function After(r: Register, events: seq<Event>): (s: Register)
    requires Safe(r)
    ensures Safe(s)
    decreases events
  {
    if events == [] then r else
      StepKeepsSafe(r, events[0]);
      After(Next(r, events[0]), events[1..])
  }

  /** Each request acts on the register that the requests before it have left. */
  lemma {:induction false} RequestsFollowEachOther(r: Register, events: seq<Event>, n: nat)
    requires Safe(r) && n < |events|
    ensures After(r, events[..0]) == r
    ensures var before, after := After(r, events[..n]), After(r, events[..n + 1]);
      match events[n]
      case BookName(code) => after == Book(before, code).0
      case AskPort(_) => after == before
      case AskWeb(code) => after == Web(before, code).0
      case CleanPass(bindable) => after == Clean(before, bindable)
    decreases events
  {
    StepKeepsSafe(r, events[0]);
    assert events[..n + 1][1..] == events[1..][..n] && events[..n + 1][0] == events[0];
    if n == 0 {
      assert events[..0] == [] && events[1..][..0] == [];
    } else {
      assert events[..n][1..] == events[1..][..n - 1] && events[..n][0] == events[0];
      RequestsFollowEachOther(Next(r, events[0]), events[1..], n - 1);
    }
  }

  lemma StartIsSafe(buckets: nat, bindable: set<int>)
    requires buckets > 0
    ensures Safe(Start(buckets, bindable))
  {
    var t := Start(buckets, bindable).records;
    forall p | 0 <= p < |t|
      ensures GoodChain(t[p], p, |t|)
    {
      assert t[p] == [];
    }
  }

  /** Whatever is booked, asked and cleaned, the live records hold distinct ports of the range, each with its bit set. */
  lemma PortsAreDistinctOnEveryRun(buckets: nat, bindable: set<int>, events: seq<Event>, c: int, d: int)
    requires buckets > 0
    ensures Safe(Start(buckets, bindable))
    ensures var r := After(Start(buckets, bindable), events); var m := Contents(r.records);
      && (c in m ==> REGISTER_PORT < m[c] <= REGISTER_PORT + RESERVE_SIZE && r.reserve[m[c] - 1 - REGISTER_PORT])
      && (c in m && d in m && c != d ==> m[c] != m[d])
  {
    StartIsSafe(buckets, bindable);
    var r := After(Start(buckets, bindable), events);
    GetIsLookup(r.records, c);
    GetIsLookup(r.records, d);
  }

  /** A port that no pass finds bindable stays reserved, and so is booked for nobody, even if its record has been dragged
      along by the deletion of a head. */
  lemma {:induction false} PortInUseIsNotHandedOut(r: Register, events: seq<Event>, port: int, code: int)
    requires Safe(r) && IsPort(port) && r.reserve[Slot(port)]
    requires forall e :: e in events && e.CleanPass? ==> port !in e.bindable
    ensures After(r, events).reserve[Slot(port)] && Book(After(r, events), code).1 != port
    decreases events
  {
    if events == [] {
      BookTakesTheLowestFree(r, code, code);
    } else {
      var e := events[0];
      StepKeepsSafe(r, e);
      if e.BookName? || e.AskWeb? {
        BookTakesTheLowestFree(r, e.code, e.code);
      }
      PortInUseIsNotHandedOut(Next(r, e), events[1..], port, code);
    }
  }

  lemma StepKeepsOthers(r: Register, e: Event, code: int)
    requires Safe(r) && Get(r.records, code).Some? && e != BookName(code) && !e.CleanPass?
    ensures Get(Next(r, e).records, code) == Get(r.records, code)
  {
    if !e.AskPort? {
      BookTakesTheLowestFree(r, e.code, code);
    }
  }

  lemma {:induction false} RecordStays(r: Register, events: seq<Event>, code: int)
    requires Safe(r) && Get(r.records, code).Some?
    requires forall i :: 0 <= i < |events| ==> events[i] != BookName(code) && !events[i].CleanPass?
    ensures Get(After(r, events).records, code) == Get(r.records, code)
    decreases events
  {
    if events != [] {
      StepKeepsSafe(r, events[0]);
      StepKeepsOthers(r, events[0], code);
      RecordStays(Next(r, events[0]), events[1..], code);
    }
  }

  /** What has been booked is found until the name is booked again or a pass comes. */
  lemma {:induction false} BookedIsFound(r: Register, events: seq<Event>, code: int)
    requires Safe(r) && Get(r.records, code).Some?
    requires forall i :: 0 <= i < |events| ==> events[i] != BookName(code) && !events[i].CleanPass?
    ensures Lookup(After(r, events), code) == Lookup(r, code) == Web(After(r, events), code).1
  {
    RecordStays(r, events, code);
  }

  /** A name that books again leaves its old port reserved with no record, until a pass finds it bindable. */
  lemma RebookingLeavesThePortReserved(r: Register, code: int, c: int)
    requires Safe(r) && Get(r.records, code).Some? && Book(r, code).1 != -1
    ensures var s := Book(r, code).0; var port := Get(r.records, code).value;
      s.reserve[Slot(port)] && Get(s.records, c) != Some(port)
  {
    BookTakesTheLowestFree(r, code, c);
    BookTakesTheLowestFree(r, code, code);
  }
}
