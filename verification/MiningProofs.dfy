/** What holds in every reachable state of the boss, the miners and the pipes between them. */
module MiningProofs {
  import opened ShortlexSearch
  import opened Mining

  // ----- every step keeps the invariant -----

  lemma InitInv(h: Hash, names: seq<Name>)
    ensures Inv(h, InitSystem(names))
  {
    var n := |names|;
    forall i | 0 <= i < n
      ensures IntervalOf(n, i).start <= IntervalOf(n, i).end <= 256
    {
      WidthTimesCount(n);
      Monotone(i + 1, n, 256 / n);
      Monotone(i, n, 256 / n);
    }
  }

  lemma WorksAppend(pipe: seq<Order>, o: Order)
    ensures Works(pipe + [o]) == Works(pipe) + (if o.Work? then [o] else [])
  {
    assert (pipe + [o])[..|pipe|] == pipe;
  }

  lemma {:induction false} WorksFront(pipe: seq<Order>)
    requires pipe != []
    ensures Works(pipe) == (if pipe[0].Work? then [pipe[0]] else []) + Works(pipe[1..])
  {
    var n := |pipe| - 1;
    if n == 0 {
      assert pipe[..n] == [] && pipe[1..] == [];
    } else {
      WorksFront(pipe[..n]);
      assert pipe[..n][1..] == pipe[1..][..n - 1] && pipe[1..][n - 1] == pipe[n];
      assert Works(pipe[1..]) == Works(pipe[1..][..n - 1]) + (if pipe[n].Work? then [pipe[n]] else []);
    }
  }

  /** A new epoch, announced at the end of the pipe, leaves a miner as well informed as it was. */
  lemma AnnouncementKeepsMiner(epochs: seq<Bytes>, treasure: nat, m: Miner, ws: seq<Order>, finds: seq<Find>,
                               str: Bytes, name: Name)
    requires MinerInv(epochs, treasure, m, ws, finds) && treasure <= |epochs|
    ensures MinerInv(epochs + [str], |epochs|, m, ws + [Work(|epochs|, str, name)], finds)
  {
  }

  lemma TakingWorkKeepsMiner(epochs: seq<Bytes>, treasure: nat, m: Miner, ws: seq<Order>, finds: seq<Find>)
    requires MinerInv(epochs, treasure, m, ws, finds) && ws != [] && ws[0].Work?
    ensures MinerInv(epochs, treasure, TakeOrder(m, ws[0]), ws[1..], finds)
  {
  }

  lemma TryingKeepsMiner(h: Hash, epochs: seq<Bytes>, treasure: nat, m: Miner, ws: seq<Order>, finds: seq<Find>)
    requires MinerInv(epochs, treasure, m, ws, finds) && m.needToWork && m.trial != []
    ensures MinerInv(epochs, treasure, TryCandidate(h, m), ws, if Found(h, m) then finds + [FindOf(m)] else finds)
    ensures Found(h, m) ==> FindInv(h, epochs, FindOf(m))
  {
    if Found(h, m) {
      assert (finds + [FindOf(m)])[|finds|].treasure == m.treasure + 1;
    }
  }

  /** A find that the boss takes out of the pipe is no longer ahead of the boss's treasure. */
  lemma TakingFindKeepsMiner(epochs: seq<Bytes>, treasure: nat, m: Miner, ws: seq<Order>, finds: seq<Find>)
    requires MinerInv(epochs, treasure, m, ws, finds) && finds != [] && finds[0].treasure <= treasure
    ensures MinerInv(epochs, treasure, m, ws, finds[1..])
  {
    if InFlight(finds, m.treasure + 1) && treasure <= m.treasure {
      var k :| 0 <= k < |finds| && finds[k].treasure == m.treasure + 1;
      assert finds[1..][k - 1].treasure == m.treasure + 1;
    }
  }

  lemma FindsStayGood(h: Hash, epochs: seq<Bytes>, str: Bytes, finds: seq<Find>)
    requires FindsInv(h, epochs, finds)
    ensures FindsInv(h, epochs + [str], finds) && (finds != [] ==> FindsInv(h, epochs, finds[1..]))
  {
  }

  lemma ChainGrows(h: Hash, epochs: seq<Bytes>, str: Bytes)
    requires Chain(h, epochs)
    requires epochs != [] ==> epochs[|epochs| - 1] < str && Worth(h, str) == |epochs|
    ensures Chain(h, epochs + [str])
  {
  }

  lemma NewEpochKeepsInv(h: Hash, s: System, boss: Boss, name: Name)
    requires Inv(h, s) && boss.readFile && boss.ctx == boss.str && boss.treasure == |s.epochs|
    requires s.epochs != [] ==> s.epochs[|s.epochs| - 1] < boss.str && Worth(h, boss.str) == |s.epochs|
    ensures Inv(h, s.(boss := boss, orders := Send(s.orders, Work(boss.treasure, boss.str, name)),
                      epochs := s.epochs + [boss.str]))
  {
    var t := s.(boss := boss, orders := Send(s.orders, Work(boss.treasure, boss.str, name)),
                epochs := s.epochs + [boss.str]);
    ChainGrows(h, s.epochs, boss.str);
    forall j | 0 <= j < |s.miners|
      ensures MinerOk(t, j) && FindsInv(h, t.epochs, t.finds[j])
    {
      assert MinerOk(s, j);
      WorksAppend(s.orders[j], Work(boss.treasure, boss.str, name));
      AnnouncementKeepsMiner(s.epochs, s.boss.treasure, s.miners[j], Works(s.orders[j]), s.finds[j], boss.str, name);
      FindsStayGood(h, s.epochs, boss.str, s.finds[j]);
    }
  }

  /** A find from the current epoch first raises the boss's treasure and then leaves the pipe. */
  lemma DropFindKeepsInv(h: Hash, s: System, i: nat)
    requires Inv(h, s) && i < |s.finds| && s.finds[i] != [] && s.finds[i][0].treasure <= s.boss.treasure
    ensures Inv(h, s.(finds := s.finds[i := s.finds[i][1..]]))
  {
    var t := s.(finds := s.finds[i := s.finds[i][1..]]);
    FindsStayGood(h, s.epochs, [], s.finds[i]);
    forall j | 0 <= j < |s.miners|
      ensures MinerOk(t, j)
    {
      assert MinerOk(s, j);
      if j == i {
        TakingFindKeepsMiner(s.epochs, s.boss.treasure, s.miners[i], Works(s.orders[i]), s.finds[i]);
      }
    }
  }

  lemma BossReceiveKeepsInv(h: Hash, s: System, i: nat)
    requires Inv(h, s) && Enabled(s, BossReceive(i))
    ensures Inv(h, Next(h, s, BossReceive(i)))
  {
    var get := s.finds[i][0];
    assert FindInv(h, s.epochs, get);
    if Accepts(s.boss, get) {
      var boss := AcceptFind(s.boss, get);
      NewEpochKeepsInv(h, s, boss, get.finder);
      var s1 := s.(boss := boss, orders := Send(s.orders, Work(boss.treasure, boss.str, get.finder)),
                   epochs := s.epochs + [boss.str]);
      DropFindKeepsInv(h, s1, i);
    } else {
      DropFindKeepsInv(h, s, i);
    }
  }

  lemma TakingOrderKeepsMiner(epochs: seq<Bytes>, treasure: nat, m: Miner, pipe: seq<Order>, finds: seq<Find>)
    requires MinerInv(epochs, treasure, m, Works(pipe), finds) && pipe != []
    ensures MinerInv(epochs, treasure, TakeOrder(m, pipe[0]), Works(pipe[1..]), finds)
  {
    WorksFront(pipe);
    var ws, rest := Works(pipe), Works(pipe[1..]);
    if pipe[0].Work? {
      assert ws == [pipe[0]] + rest;
      assert ws[0] == pipe[0] && ws[1..] == rest;
      TakingWorkKeepsMiner(epochs, treasure, m, ws, finds);
    } else {
      assert ws == rest;
    }
  }

  lemma MinerReceiveKeepsInv(h: Hash, s: System, i: nat)
    requires Inv(h, s) && Enabled(s, MinerReceive(i))
    ensures Inv(h, Next(h, s, MinerReceive(i)))
  {
    var t := Next(h, s, MinerReceive(i));
    assert MinerOk(s, i);
    TakingOrderKeepsMiner(s.epochs, s.boss.treasure, s.miners[i], s.orders[i], s.finds[i]);
    forall j | 0 <= j < |s.miners|
      ensures MinerOk(t, j)
    {
      assert MinerOk(s, j);
    }
  }

  lemma MinerTryKeepsInv(h: Hash, s: System, i: nat)
    requires Inv(h, s) && Enabled(s, MinerTry(i))
    ensures Inv(h, Next(h, s, MinerTry(i)))
  {
    var t := Next(h, s, MinerTry(i));
    assert MinerOk(s, i) && FindsInv(h, s.epochs, s.finds[i]);
    TryingKeepsMiner(h, s.epochs, s.boss.treasure, s.miners[i], Works(s.orders[i]), s.finds[i]);
    forall j | 0 <= j < |s.miners|
      ensures MinerOk(t, j)
    {
      assert MinerOk(s, j);
    }
  }

  lemma BroadcastKeepsInv(h: Hash, s: System, e: Event)
    requires Inv(h, s) && Enabled(s, e) && (e.ReadDone? || e.AskStatus? || e.ReadChunk?)
    ensures Inv(h, Next(h, s, e))
  {
    var t := Next(h, s, e);
    if e.ReadDone? {
      NewEpochKeepsInv(h, s, t.boss, e.name);
    } else {
      forall j | 0 <= j < |s.miners|
        ensures MinerOk(t, j)
      {
        assert MinerOk(s, j);
        if e.AskStatus? {
          WorksAppend(s.orders[j], Status(s.boss.treasure, s.boss.ctx));
        }
      }
    }
  }

  lemma {:induction false} InvOnEveryRun(h: Hash, names: seq<Name>, states: seq<System>, events: seq<Event>, n: nat)
    requires IsRun(h, names, states, events) && n <= |events|
    ensures Inv(h, states[n])
  {
    if n == 0 {
      InitInv(h, names);
    } else {
      InvOnEveryRun(h, names, states, events, n - 1);
      var s, e := states[n - 1], events[n - 1];
      match e
      case BossReceive(i) => BossReceiveKeepsInv(h, s, i);
      case MinerReceive(i) => MinerReceiveKeepsInv(h, s, i);
      case MinerTry(i) => MinerTryKeepsInv(h, s, i);
      case _ => BroadcastKeepsInv(h, s, e);
    }
  }

  // ----- the main results -----

  /** In every reachable state the boss's context is that of exactly the bytes it holds. */
  lemma ContextAgreesWithString(h: Hash, names: seq<Name>, states: seq<System>, events: seq<Event>, n: nat)
    requires IsRun(h, names, states, events) && n <= |events|
    ensures states[n].boss.ctx == states[n].boss.str
  {
    InvOnEveryRun(h, names, states, events, n);
  }

  lemma {:induction false} EarlierEpochsAreShorter(h: Hash, epochs: seq<Bytes>, i: nat, j: nat)
    requires Chain(h, epochs) && i < j < |epochs|
    ensures epochs[i] < epochs[j]
    decreases j
  {
    assert epochs[j - 1] < epochs[j];
    if i < j - 1 {
      EarlierEpochsAreShorter(h, epochs, i, j - 1);
    }
  }

  /** The comparison of treasure numbers accepts a find exactly when the miner built it on the boss's current context,
      and then the treasure grows by one. */
  lemma AcceptedIffBuiltOnCurrentContext(h: Hash, names: seq<Name>, states: seq<System>, events: seq<Event>, n: nat, i: nat)
    requires IsRun(h, names, states, events) && n <= |events| && Enabled(states[n], BossReceive(i))
    ensures var b, get := states[n].boss, states[n].finds[i][0];
      && (Accepts(b, get) <==> get.ctx == b.ctx + get.data)
      && (Accepts(b, get) ==> get.treasure == b.treasure + 1)
  {
    InvOnEveryRun(h, names, states, events, n);
    var s := states[n];
    var get := s.finds[i][0];
    assert FindInv(h, s.epochs, get);
    if get.treasure <= s.boss.treasure {
      EarlierEpochsAreShorter(h, s.epochs, get.treasure - 1, s.boss.treasure);
      assert |get.ctx| < |s.boss.ctx + get.data|;
    }
  }

  /** Each treasure number up to the boss's is witnessed by a prefix of its string, nested in the next, whose digest begins
      with exactly that many half-bytes that are zero; so there are at most sixteen. */
  lemma TreasuresAreWitnessed(h: Hash, names: seq<Name>, states: seq<System>, events: seq<Event>, n: nat)
    requires IsRun(h, names, states, events) && n <= |events| && states[n].boss.readFile
    ensures var s := states[n];
      && |s.epochs| == s.boss.treasure + 1 && s.epochs[s.boss.treasure] == s.boss.str && s.boss.treasure <= 16
      && forall k :: 0 < k <= s.boss.treasure ==>
           s.epochs[k - 1] < s.epochs[k] <= s.boss.str && BeginsWithZeros(h(s.epochs[k]), k)
  {
    InvOnEveryRun(h, names, states, events, n);
    var s := states[n];
    forall k | 0 < k <= s.boss.treasure
      ensures s.epochs[k - 1] < s.epochs[k] <= s.boss.str && BeginsWithZeros(h(s.epochs[k]), k)
    {
      WorthIff(h, s.epochs[k], k);
      if k < s.boss.treasure {
        EarlierEpochsAreShorter(h, s.epochs, k, s.boss.treasure);
      }
    }
    if s.boss.treasure > 0 {
      assert Worth(h, s.epochs[s.boss.treasure]) == s.boss.treasure;
    }
  }

  /** A step never takes back a treasure or a byte: the string grows, and the treasure by at most one. */
  lemma TreasureGrowsByOne(h: Hash, names: seq<Name>, states: seq<System>, events: seq<Event>, n: nat)
    requires IsRun(h, names, states, events) && n < |events|
    ensures states[n].boss.str <= states[n + 1].boss.str
    ensures states[n].boss.treasure <= states[n + 1].boss.treasure <= states[n].boss.treasure + 1
    ensures states[n].boss.treasure < states[n + 1].boss.treasure ==>
      events[n].BossReceive? && BeginsWithZeros(h(states[n + 1].boss.str), states[n + 1].boss.treasure)
  {
    InvOnEveryRun(h, names, states, events, n);
    WorthIff(h, states[n + 1].boss.str, states[n + 1].boss.treasure);
    match events[n]
    case BossReceive(i) => assert FindInv(h, states[n].epochs, states[n].finds[i][0]);
    case _ =>
  }

  lemma AnnouncedIsPrefix(h: Hash, s: System, i: nat, k: nat)
    requires Inv(h, s) && s.boss.readFile && i < |s.miners| && k < |Works(s.orders[i])|
    ensures Works(s.orders[i])[k].ctx <= s.boss.str
  {
    assert MinerOk(s, i);
    var epoch := NextEpoch(s.miners[i]) + k;
    if epoch < s.boss.treasure {
      EarlierEpochsAreShorter(h, s.epochs, epoch, s.boss.treasure);
    }
  }

  /** No miner is stranded: what it last heard, followed by the orders in its pipe, runs without a gap up to the boss's
      treasure; and a miner that waits either has its find in flight or has a newer order coming. */
  lemma NoMinerIsStranded(h: Hash, names: seq<Name>, states: seq<System>, events: seq<Event>, n: nat, i: nat)
    requires IsRun(h, names, states, events) && n <= |events| && i < |names| && states[n].boss.readFile
    ensures |states[n].miners| == |states[n].orders| == |states[n].finds| == |names|
    ensures var s, m, ws := states[n], states[n].miners[i], Works(states[n].orders[i]);
      && NextEpoch(m) + |ws| == s.boss.treasure + 1
      && (forall k :: 0 <= k < |ws| ==> ws[k].treasure == NextEpoch(m) + k && ws[k].ctx <= s.boss.str)
      && (m.firstWork && !m.needToWork ==>
            InFlight(s.finds[i], m.treasure + 1) || (ws != [] && ws[0].treasure == m.treasure + 1))
      && (!m.firstWork ==> ws != [] && ws[0].treasure == 0)
  {
    InvOnEveryRun(h, names, states, events, n);
    SizesStay(h, names, states, events, n);
    var s := states[n];
    var m, ws := s.miners[i], Works(s.orders[i]);
    assert MinerOk(s, i);
    forall k | 0 <= k < |ws|
      ensures ws[k].ctx <= s.boss.str
    {
      AnnouncedIsPrefix(h, s, i, k);
    }
  }

  lemma {:induction false} SizesStay(h: Hash, names: seq<Name>, states: seq<System>, events: seq<Event>, n: nat)
    requires IsRun(h, names, states, events) && n <= |events|
    ensures |states[n].miners| == |states[n].orders| == |states[n].finds| == |names|
  {
    if n > 0 {
      SizesStay(h, names, states, events, n - 1);
      assert states[n] == Next(h, states[n - 1], events[n - 1]);
    }
  }

  /** A miner that has heard of a treasure works on a prefix of the boss's string, on all of it exactly if that treasure is
      the newest. */
  lemma WorkingMinerKnowsItsEpoch(h: Hash, names: seq<Name>, states: seq<System>, events: seq<Event>, n: nat, i: nat)
    requires IsRun(h, names, states, events) && n <= |events| && i < |states[n].miners| && states[n].miners[i].firstWork
    ensures var s, m := states[n], states[n].miners[i];
      m.treasure <= s.boss.treasure && m.ctx <= s.boss.str && (m.ctx == s.boss.str <==> m.treasure == s.boss.treasure)
  {
    InvOnEveryRun(h, names, states, events, n);
    var s := states[n];
    var m := s.miners[i];
    assert MinerOk(s, i);
    if m.treasure < s.boss.treasure {
      EarlierEpochsAreShorter(h, s.epochs, m.treasure, s.boss.treasure);
    }
  }

  // ----- what the messages say -----

  lemma {:induction false} NamesStay(h: Hash, names: seq<Name>, states: seq<System>, events: seq<Event>, n: nat)
    requires IsRun(h, names, states, events) && n <= |events|
    ensures |states[n].miners| == |states[n].orders| == |states[n].finds| == |names|
    ensures forall i :: 0 <= i < |names| ==> states[n].miners[i].name == names[i]
    ensures forall i, k :: 0 <= i < |names| && 0 <= k < |states[n].finds[i]| ==> states[n].finds[i][k].finder == names[i]
  {
    SizesStay(h, names, states, events, n);
    if n > 0 {
      NamesStay(h, names, states, events, n - 1);
      var s, t := states[n - 1], states[n];
      assert t == Next(h, s, events[n - 1]);
      forall i | 0 <= i < |names|
        ensures t.miners[i].name == names[i] && forall k :: 0 <= k < |t.finds[i]| ==> t.finds[i][k].finder == names[i]
      {
        assert s.miners[i].name == names[i];
        assert forall k :: 0 <= k < |s.finds[i]| ==> s.finds[i][k].finder == names[i];
      }
    }
  }

  /** What the boss announces: when the mine has been read, the string with treasure 0; and when it accepts a find, the
      string with the candidate behind it, the next treasure, and who has found it. Every miner is told, and a find that it
      does not accept changes nothing but the pipe it came from. */
  lemma FindsAreAnnounced(h: Hash, names: seq<Name>, states: seq<System>, events: seq<Event>, n: nat, i: nat)
    requires IsRun(h, names, states, events) && n < |events| && events[n] == BossReceive(i)
    ensures |states[n].orders| == |states[n + 1].orders| == |states[n].finds| == |names| && i < |names|
    ensures states[n].finds[i] != [] && states[n + 1].finds == states[n].finds[i := states[n].finds[i][1..]]
    ensures states[n + 1].miners == states[n].miners
    ensures var b, c, get := states[n].boss, states[n + 1].boss, states[n].finds[i][0];
      if get.treasure > b.treasure then
        && c == Boss(b.str + get.data, b.treasure + 1, b.str + get.data, b.readFile)
        && forall j :: 0 <= j < |names| ==>
             states[n + 1].orders[j] == states[n].orders[j] + [Work(c.treasure, c.str, names[i])]
      else c == b && states[n + 1].orders == states[n].orders
  {
    var s := states[n];
    InvOnEveryRun(h, names, states, events, n);
    NamesStay(h, names, states, events, n);
    assert states[n + 1] == Next(h, s, events[n]);
    var get := s.finds[i][0];
    AcceptedIffBuiltOnCurrentContext(h, names, states, events, n, i);
    assert get.finder == names[i];
  }

  /** Reading the mine adds exactly what was read, and its end is announced to every miner. */
  lemma MineIsReadAndAnnounced(h: Hash, names: seq<Name>, states: seq<System>, events: seq<Event>, n: nat)
    requires IsRun(h, names, states, events) && n < |events| && (events[n].ReadChunk? || events[n].ReadDone?)
    ensures |states[n].orders| == |states[n + 1].orders| == |names|
    ensures states[n + 1].miners == states[n].miners && states[n + 1].finds == states[n].finds
    ensures var b := states[n].boss;
      && !b.readFile && b.treasure == 0
      && states[n + 1].boss == (if events[n].ReadChunk? then Boss(b.str + events[n].input, 0, b.str + events[n].input, false)
                                else Boss(b.str, 0, b.str, true))
      && (events[n].ReadChunk? ==> states[n + 1].orders == states[n].orders)
      && (events[n].ReadDone? ==>
            forall j :: 0 <= j < |names| ==>
              states[n + 1].orders[j] == states[n].orders[j] + [Work(0, b.str, events[n].name)])
  {
    InvOnEveryRun(h, names, states, events, n);
    NamesStay(h, names, states, events, n);
    assert states[n + 1] == Next(h, states[n], events[n]);
  }

  /** The bytes that the boss has read and those of the finds that have raised the treasure, in the order they came. */
  function Gathered(states: seq<System>, events: seq<Event>, n: nat): Bytes
    requires n <= |events| < |states|
  {
    if n == 0 then []
    else
      Gathered(states, events, n - 1) +
      match events[n - 1]
      case ReadChunk(input) => input
      case BossReceive(i) =>
        var s := states[n - 1];
        if s.boss.treasure < states[n].boss.treasure && i < |s.finds| && s.finds[i] != [] then s.finds[i][0].data else []
      case _ => []
  }

  /** The boss's string is made of the mine and of the finds, and of nothing else. */
  lemma {:induction false} StringIsGathered(h: Hash, names: seq<Name>, states: seq<System>, events: seq<Event>, n: nat)
    requires IsRun(h, names, states, events) && n <= |events|
    ensures states[n].boss.str == Gathered(states, events, n)
  {
    if n > 0 {
      StringIsGathered(h, names, states, events, n - 1);
      assert states[n] == Next(h, states[n - 1], events[n - 1]);
    }
  }

  /** A miner after a candidate: only its queue, its record of what it has tried, and whether it works on have changed. */
  ghost predicate HasTried(m: Miner, m': Miner, found: bool)
    requires m.trial != []
  {
    && m' == m.(needToWork := !found && m.needToWork, tried := m.tried + [m.trial[0]], trial := m'.trial)
    && |m'.trial| == |m.trial| - 1 + (if found || |m.trial| > 10000001 then 0 else 256)
    && m'.trial[..|m.trial| - 1] == m.trial[1..]
    && forall b: Byte :: |m'.trial| >= |m.trial| ==> m'.trial[|m.trial| - 1 + b] == m.trial[0] + [b]
  }

  lemma CandidateIsTried(h: Hash, m: Miner)
    requires m.trial != []
    ensures HasTried(m, TryCandidate(h, m), BeginsWithZeros(h(m.ctx + m.trial[0]), m.treasure + 1))
  {
    WorthIff(h, m.ctx + m.trial[0], m.treasure + 1);
  }

  lemma FindIsSent(h: Hash, m: Miner, finds: seq<seq<Find>>, i: nat)
    requires m.trial != [] && i < |finds|
    ensures var c := m.trial[0];
      (if Found(h, m) then finds[i := finds[i] + [FindOf(m)]] else finds) ==
      finds[i := finds[i] + if BeginsWithZeros(h(m.ctx + c), m.treasure + 1)
                            then [Find(m.treasure + 1, c, m.ctx + c, m.name)] else []]
  {
    WorthIff(h, m.ctx + m.trial[0], m.treasure + 1);
    assert finds[i] + [] == finds[i];
  }

  /** The digest decides what becomes of a candidate: if it begins with one more zero than the treasure, the miner sends it,
      with its own name, and waits; otherwise it sends nothing and goes on. */
  lemma DigestDecidesTheCandidate(h: Hash, names: seq<Name>, states: seq<System>, events: seq<Event>, n: nat, i: nat)
    requires IsRun(h, names, states, events) && n < |events| && events[n] == MinerTry(i)
    ensures |states[n].miners| == |states[n + 1].miners| == |states[n].finds| == |names| && i < |names|
    ensures states[n].miners[i].trial != [] && states[n].miners[i].needToWork
    ensures states[n + 1].boss == states[n].boss && states[n + 1].orders == states[n].orders
    ensures var m, c := states[n].miners[i], states[n].miners[i].trial[0];
      var found := BeginsWithZeros(h(m.ctx + c), m.treasure + 1);
      && states[n + 1].finds ==
           states[n].finds[i := states[n].finds[i] + if found then [Find(m.treasure + 1, c, m.ctx + c, names[i])] else []]
      && HasTried(m, states[n + 1].miners[i], found)
    ensures forall j :: 0 <= j < |names| && j != i ==> states[n + 1].miners[j] == states[n].miners[j]
  {
    NamesStay(h, names, states, events, n);
    var s := states[n];
    assert Enabled(s, events[n]) && states[n + 1] == Next(h, s, events[n]);
    CandidateIsTried(h, s.miners[i]);
    FindIsSent(h, s.miners[i], s.finds, i);
  }

  /** Asking for the status tells every miner the treasure and changes nothing else. */
  lemma StatusIsOnlySent(h: Hash, names: seq<Name>, states: seq<System>, events: seq<Event>, n: nat)
    requires IsRun(h, names, states, events) && n < |events| && events[n].AskStatus?
    ensures |states[n].orders| == |states[n + 1].orders|
    ensures states[n + 1] == states[n].(orders := states[n + 1].orders)
    ensures forall j :: 0 <= j < |states[n].orders| ==>
              states[n + 1].orders[j] == states[n].orders[j] + [Status(states[n].boss.treasure, states[n].boss.ctx)]
  {
    assert states[n + 1] == Next(h, states[n], events[n]);
  }

  /** What can happen next: anything there is to read can be read, and a miner that has work always has a candidate. */
  lemma WhatCanHappenIff(h: Hash, names: seq<Name>, states: seq<System>, events: seq<Event>, n: nat, e: Event)
    requires 0 < |names| <= 256 && IsRun(h, names, states, events) && n <= |events|
    ensures |states[n].miners| == |states[n].orders| == |states[n].finds| == |names|
    ensures Enabled(states[n], e) <==>
            match e
            case ReadChunk(input) => !states[n].boss.readFile && |input| > 0
            case ReadDone(_) => !states[n].boss.readFile
            case AskStatus => true
            case BossReceive(i) => i < |names| && |states[n].finds[i]| > 0
            case MinerReceive(i) => i < |names| && |states[n].orders[i]| > 0
            case MinerTry(i) => i < |names| && states[n].miners[i].needToWork
  {
    SizesStay(h, names, states, events, n);
    forall i | 0 <= i < |names|
      ensures states[n].miners[i].interval.start <= states[n].miners[i].interval.end <= 256
      ensures states[n].miners[i].needToWork ==> states[n].miners[i].trial != []
    {
      MinersSearchTheirIntervals(h, names, states, events, n, i);
    }
  }

  /** An order to work makes the miner start on it, whatever it was doing. */
  lemma OrdersAreFollowed(h: Hash, names: seq<Name>, states: seq<System>, events: seq<Event>, n: nat, i: nat)
    requires IsRun(h, names, states, events) && n < |events| && events[n] == MinerReceive(i)
    ensures |states[n].miners| == |states[n + 1].miners| == |states[n].orders| == |names| && i < |names|
    ensures states[n].orders[i] != [] && states[n + 1].orders == states[n].orders[i := states[n].orders[i][1..]]
    ensures states[n + 1].boss == states[n].boss && states[n + 1].finds == states[n].finds
    ensures var m, m', o := states[n].miners[i], states[n + 1].miners[i], states[n].orders[i][0];
      if o.Work? then
        && m'.treasure == o.treasure && m'.ctx == o.ctx && m'.needToWork && m'.firstWork && m'.tried == []
        && m'.name == m.name && m'.interval == m.interval
        && |m'.trial| == m.interval.end - m.interval.start
        && forall k :: 0 <= k < |m'.trial| ==> m'.trial[k] == [m.interval.start + k]
      else m' == m
    ensures forall j :: 0 <= j < |names| && j != i ==> states[n + 1].miners[j] == states[n].miners[j]
  {
    NamesStay(h, names, states, events, n);
    assert states[n + 1] == Next(h, states[n], events[n]);
  }

  // ----- the search inside the protocol -----

  /** What a miner has tried since its last order, and while it has work its queue, are those of a search of its own
      interval. */
  ghost predicate Searching(m: Miner) {
    && m.interval.start < m.interval.end <= 256
    && (m.firstWork ==> exists k: nat :: SearchedSoFar(m, k))
    && (m.needToWork ==> m.firstWork)
  }

  ghost predicate SearchedSoFar(m: Miner, k: nat)
    requires m.interval.start < m.interval.end <= 256
  {
    var s := After(m.interval.start, m.interval.end, k);
    m.tried == s.tried && (m.needToWork ==> m.trial == s.trial)
  }

  lemma TakeOrderKeepsSearching(m: Miner, o: Order)
    requires Searching(m)
    ensures Searching(TakeOrder(m, o))
  {
    assert After(m.interval.start, m.interval.end, 0) == StartSearch(m.interval.start, m.interval.end);
    assert o.Work? ==> SearchedSoFar(TakeOrder(m, o), 0);
  }

  lemma TryCandidateKeepsSearching(h: Hash, m: Miner)
    requires Searching(m) && m.needToWork && m.trial != []
    ensures Searching(TryCandidate(h, m))
  {
    var k: nat :| SearchedSoFar(m, k);
    assert After(m.interval.start, m.interval.end, k + 1) == TryFront(After(m.interval.start, m.interval.end, k));
    assert SearchedSoFar(TryCandidate(h, m), k + 1);
  }

  /** With at most 256 miners each order restarts a search of the miner's own interval, whatever was left in the queue. */
  lemma {:induction false} MinersSearchTheirIntervals(h: Hash, names: seq<Name>, states: seq<System>, events: seq<Event>,
                                                      n: nat, i: nat)
    requires IsRun(h, names, states, events) && n <= |events| && i < |names| <= 256
    ensures |states[n].miners| == |names| && states[n].miners[i].interval == IntervalOf(|names|, i)
    ensures Searching(states[n].miners[i])
  {
    if n == 0 {
      IntervalsAreNonEmptyIff(|names|);
    } else {
      MinersSearchTheirIntervals(h, names, states, events, n - 1, i);
      var s, e := states[n - 1], events[n - 1];
      if e == MinerReceive(i) {
        TakeOrderKeepsSearching(s.miners[i], s.orders[i][0]);
      } else if e == MinerTry(i) {
        TryCandidateKeepsSearching(h, s.miners[i]);
      }
    }
  }

  /** On every run, what a miner has really tried since its last order is strictly increasing in shortlex order, so nothing
      is tried twice, and lies in its own tree; while it has work it has a next candidate. */
  lemma MinersNeverRepeat(h: Hash, names: seq<Name>, states: seq<System>, events: seq<Event>, n: nat, i: nat)
    requires IsRun(h, names, states, events) && n <= |events| && i < |names| <= 256
    ensures |states[n].miners| == |names|
    ensures var m, cell := states[n].miners[i], IntervalOf(|names|, i);
      m.firstWork ==>
        && Increasing(m.tried) && (forall j :: 0 <= j < |m.tried| ==> InTree(m.tried[j], cell.start, cell.end))
        && (m.needToWork ==> 0 < |m.trial| <= TRIAL_CAP + 256)
  {
    MinersSearchTheirIntervals(h, names, states, events, n, i);
    var m := states[n].miners[i];
    if m.firstWork {
      var k: nat :| SearchedSoFar(m, k);
      CandidatesIncrease(m.interval.start, m.interval.end, k);
    }
  }

  /** And until the queue has met its cap, a miner that has work has skipped nothing before its next candidate. */
  lemma MinersSkipNothing(h: Hash, names: seq<Name>, states: seq<System>, events: seq<Event>, n: nat, i: nat, c: Bytes)
    requires IsRun(h, names, states, events) && n <= |events| && i < |names| <= 256
    ensures |states[n].miners| == |names|
    ensures var m, cell := states[n].miners[i], IntervalOf(|names|, i);
      cell.start < cell.end <= 256 && m.needToWork ==>
        m.trial != []
        && (!After(cell.start, cell.end, |m.tried|).capped && InTree(c, cell.start, cell.end) && Less(c, m.trial[0]) ==>
              c in m.tried)
  {
    MinersSearchTheirIntervals(h, names, states, events, n, i);
    var m := states[n].miners[i];
    if m.needToWork {
      var k: nat :| SearchedSoFar(m, k);
      if !After(m.interval.start, m.interval.end, k).capped
         && InTree(c, m.interval.start, m.interval.end) && Less(c, m.trial[0]) {
        NothingIsSkipped(m.interval.start, m.interval.end, k, c);
      }
    }
  }
}
