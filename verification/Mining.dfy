/** The mining protocol: a boss and its miners joined by pipes, with the treasure number as the epoch.  An MD5 context is
    the string of bytes absorbed so far, and the digest is an arbitrary function of it. */
module Mining {
  import opened ShortlexSearch

  type Digest = c: Bytes | |c| == 16 witness seq(16, _ => 0)

  type Hash = Bytes -> Digest

  type Name = string

  // ----- the digest test -----

  function HexDigit(n: nat): char
    requires n < 16
  {
    "0123456789abcdef"[n]
  }

  /** The digest printed with two hexadecimal digits a byte. */
  function Hex(c: Bytes): (ans: string)
    ensures |ans| == 2 * |c|
  {
    if c == [] then "" else Hex(c[..|c| - 1]) + [HexDigit(c[|c| - 1] / 16), HexDigit(c[|c| - 1] % 16)]
  }

  /** The length of the run of `'0'` at the front of `ans`. */
  function ZeroRun(ans: string): (n: nat)
    ensures n <= |ans| && (forall i :: 0 <= i < n ==> ans[i] == '0') && (n < |ans| ==> ans[n] != '0')
  {
    if ans == "" || ans[0] != '0' then 0 else 1 + ZeroRun(ans[1..])
  }

  /** The treasure that a context is worth: the zero run within the first sixteen digits of its digest. */
  function Worth(h: Hash, ctx: Bytes): (n: nat)
    ensures n <= 16
  {
    ZeroRun(Hex(h(ctx))[..16])
  }

  /** Read as half-bytes, the high one of each byte first, the first eight bytes of the digest begin with exactly `k`
      zeros. */
  predicate BeginsWithZeros(d: Digest, k: nat) {
    && k <= 16
    && (forall j :: 0 <= j < 8 ==> (2 * j < k ==> d[j] / 16 == 0) && (2 * j + 1 < k ==> d[j] % 16 == 0))
    && (k < 16 ==> (if k % 2 == 0 then d[k / 2] / 16 else d[k / 2] % 16) != 0)
  }

  lemma {:induction false} HexAt(c: Bytes, j: nat)
    requires j < |c|
    ensures Hex(c)[2 * j] == '0' <==> c[j] / 16 == 0
    ensures Hex(c)[2 * j + 1] == '0' <==> c[j] % 16 == 0
  {
    if j < |c| - 1 {
      HexAt(c[..|c| - 1], j);
    }
  }

  lemma HalfByteAt(d: Digest, i: nat)
    requires i < 32
    ensures Hex(d)[i] == '0' <==> (if i % 2 == 0 then d[i / 2] / 16 else d[i / 2] % 16) == 0
  {
    HexAt(d, i / 2);
  }

  ghost predicate DigitsBeginWithZeros(ans: string, k: nat)
    requires |ans| == 32
  {
    (forall i :: 0 <= i < k && i < 32 ==> ans[i] == '0') && (k < 16 ==> ans[k] != '0')
  }

  /** The digit that ends a run of zeros is the half-byte there. */
  lemma HexRunIff(d: Digest, k: nat)
    requires k <= 16
    ensures BeginsWithZeros(d, k) <==> DigitsBeginWithZeros(Hex(d), k)
  {
    HalfByteAt(d, k);
    if BeginsWithZeros(d, k) {
      forall i | 0 <= i < k
        ensures Hex(d)[i] == '0'
      {
        HalfByteAt(d, i);
      }
    }
    if DigitsBeginWithZeros(Hex(d), k) {
      forall j | 0 <= j < 8
        ensures (2 * j < k ==> d[j] / 16 == 0) && (2 * j + 1 < k ==> d[j] % 16 == 0)
      {
        HexAt(d, j);
      }
    }
  }

  /** What a context is worth is read off the bytes of its digest. */
  lemma WorthIff(h: Hash, ctx: Bytes, k: nat)
    ensures Worth(h, ctx) == k <==> BeginsWithZeros(h(ctx), k)
  {
    var n, d := Worth(h, ctx), h(ctx);
    assert forall i :: 0 <= i < 16 ==> Hex(d)[..16][i] == Hex(d)[i];
    HexRunIff(d, n);
    if k <= 16 {
      HexRunIff(d, k);
    }
  }

  // ----- messages and state -----

  datatype Order = Work(treasure: nat, ctx: Bytes, finder: Name) | Status(treasure: nat, ctx: Bytes)

  datatype Find = Find(treasure: nat, data: Bytes, ctx: Bytes, finder: Name)

  datatype Boss = Boss(str: Bytes, treasure: nat, ctx: Bytes, readFile: bool)

  /** `tried` lists the candidates since the last order; it is history and the miner never reads it. */
  datatype Miner = Miner(name: Name, interval: Interval, treasure: nat, ctx: Bytes,
                         firstWork: bool, needToWork: bool, trial: seq<Bytes>, tried: seq<Bytes>)

  /** `epochs[k]` is the whole string when treasure `k` began; it is history and no process reads it. */
  datatype System = System(boss: Boss, miners: seq<Miner>, orders: seq<seq<Order>>, finds: seq<seq<Find>>,
                           epochs: seq<Bytes>)

  // ----- the boss -----

  function AbsorbFile(b: Boss, input: Bytes): Boss {
    b.(str := b.str + input, ctx := b.ctx + input)
  }

  function Accepts(b: Boss, get: Find): bool {
    get.treasure > b.treasure
  }

  function AcceptFind(b: Boss, get: Find): Boss {
    b.(str := b.str + get.data, treasure := get.treasure, ctx := get.ctx)
  }

  function Send(pipes: seq<seq<Order>>, m: Order): seq<seq<Order>> {
    seq(|pipes|, i requires 0 <= i < |pipes| => pipes[i] + [m])
  }

  // ----- a miner -----

  function TakeOrder(m: Miner, o: Order): Miner
    requires m.interval.start <= m.interval.end <= 256
  {
    if o.Status? then m
    else m.(treasure := o.treasure, ctx := o.ctx, firstWork := true, needToWork := true,
            trial := OneByteStrings(m.interval.start, m.interval.end), tried := [])
  }

  predicate Found(h: Hash, m: Miner)
    requires m.trial != []
  {
    Worth(h, m.ctx + m.trial[0]) == m.treasure + 1
  }

  function FindOf(m: Miner): Find
    requires m.trial != []
  {
    Find(m.treasure + 1, m.trial[0], m.ctx + m.trial[0], m.name)
  }

  /** One candidate of a miner that has work. */
  function TryCandidate(h: Hash, m: Miner): Miner
    requires m.trial != []
  {
    var m1 := m.(tried := m.tried + [m.trial[0]]);
    if Found(h, m) then m1.(needToWork := false, trial := m.trial[1..]) else m1.(trial := NextTrial(m.trial))
  }

  // ----- the whole system -----

  datatype Event =
    | ReadChunk(input: Bytes)
    | ReadDone(name: Name)
    | AskStatus
    | BossReceive(miner: nat)
    | MinerReceive(miner: nat)
    | MinerTry(miner: nat)

  ghost predicate Enabled(s: System, e: Event) {
    match e
    case ReadChunk(input) => !s.boss.readFile && input != []
    case ReadDone(_) => !s.boss.readFile
    case AskStatus => true
    case BossReceive(i) => i < |s.finds| && s.finds[i] != []
    case MinerReceive(i) => i < |s.orders| == |s.miners| && s.orders[i] != []
      && s.miners[i].interval.start <= s.miners[i].interval.end <= 256
    case MinerTry(i) => i < |s.miners| == |s.finds| && s.miners[i].needToWork && s.miners[i].trial != []
  }

  function Next(h: Hash, s: System, e: Event): System
    requires Enabled(s, e)
  {
    match e
    case ReadChunk(input) => s.(boss := AbsorbFile(s.boss, input))
    // The source announces an unset buffer here, with a length of 0; the order is whole only if that holds the empty name.
    case ReadDone(name) =>
      s.(boss := s.boss.(readFile := true), orders := Send(s.orders, Work(s.boss.treasure, s.boss.ctx, name)),
         epochs := s.epochs + [s.boss.str])
    case AskStatus => s.(orders := Send(s.orders, Status(s.boss.treasure, s.boss.ctx)))
    case BossReceive(i) =>
      var get := s.finds[i][0];
      var s1 := s.(finds := s.finds[i := s.finds[i][1..]]);
      if !Accepts(s.boss, get) then s1
      else
        var boss := AcceptFind(s.boss, get);
        s1.(boss := boss, orders := Send(s.orders, Work(boss.treasure, boss.ctx, get.finder)),
            epochs := s.epochs + [boss.str])
    case MinerReceive(i) =>
      s.(miners := s.miners[i := TakeOrder(s.miners[i], s.orders[i][0])],
         orders := s.orders[i := s.orders[i][1..]])
    case MinerTry(i) =>
      var m := s.miners[i];
      s.(miners := s.miners[i := TryCandidate(h, m)],
         finds := if Found(h, m) then s.finds[i := s.finds[i] + [FindOf(m)]] else s.finds)
  }

  function NewMiner(name: Name, n: nat, ind: nat): Miner
    requires ind < n
  {
    Miner(name, IntervalOf(n, ind), 0, [], false, false, [], [])
  }

  /** The boss has opened the pipes and sent the first job, and each miner has read its interval. */
  function InitSystem(names: seq<Name>): System {
    System(Boss([], 0, [], false), seq(|names|, i requires 0 <= i < |names| => NewMiner(names[i], |names|, i)),
           seq(|names|, _ => []), seq(|names|, _ => []), [])
  }

  ghost predicate IsRun(h: Hash, names: seq<Name>, states: seq<System>, events: seq<Event>) {
    && |states| == |events| + 1
    && states[0] == InitSystem(names)
    && forall i {:trigger events[i]} :: 0 <= i < |events| ==>
         Enabled(states[i], events[i]) && states[i + 1] == Next(h, states[i], events[i])
  }

  // ----- the invariant -----

  /** The orders to work among the messages of a pipe. */
  function Works(pipe: seq<Order>): (ws: seq<Order>)
    ensures forall w :: w in ws ==> w.Work?
  {
    if pipe == [] then []
    else Works(pipe[..|pipe| - 1]) + (if pipe[|pipe| - 1].Work? then [pipe[|pipe| - 1]] else [])
  }

  /** The first epoch that a miner has not been told about. */
  function NextEpoch(m: Miner): nat {
    if m.firstWork then m.treasure + 1 else 0
  }

  /** A pipe holds one order for each epoch from `from` on, in order, each with the context of its epoch. */
  ghost predicate Contiguous(ws: seq<Order>, epochs: seq<Bytes>, from: nat) {
    && from <= |epochs| && |ws| == |epochs| - from
    && forall k :: 0 <= k < |ws| ==> ws[k].treasure == from + k && ws[k].ctx == epochs[from + k]
  }

  ghost predicate BossInv(s: System) {
    && s.boss.ctx == s.boss.str
    && (!s.boss.readFile ==> s.epochs == [] && s.boss.treasure == 0)
    && (s.boss.readFile ==> |s.epochs| == s.boss.treasure + 1 && s.epochs[s.boss.treasure] == s.boss.str)
  }

  /** Each epoch's string extends the one before and is worth exactly the epoch's number. */
  ghost predicate Chain(h: Hash, epochs: seq<Bytes>) {
    forall k :: 0 < k < |epochs| ==> epochs[k - 1] < epochs[k] && Worth(h, epochs[k]) == k
  }

  ghost predicate FindInv(h: Hash, epochs: seq<Bytes>, f: Find) {
    && 0 < f.treasure <= |epochs| && f.data != []
    && f.ctx == epochs[f.treasure - 1] + f.data
    && Worth(h, f.ctx) == f.treasure
  }

  ghost predicate FindsInv(h: Hash, epochs: seq<Bytes>, finds: seq<Find>) {
    forall k :: 0 <= k < |finds| ==> FindInv(h, epochs, finds[k])
  }

  ghost predicate InFlight(finds: seq<Find>, treasure: nat) {
    exists k :: 0 <= k < |finds| && finds[k].treasure == treasure
  }

  ghost predicate MinerInv(epochs: seq<Bytes>, treasure: nat, m: Miner, ws: seq<Order>, finds: seq<Find>) {
    && m.interval.start <= m.interval.end <= 256
    && Contiguous(ws, epochs, NextEpoch(m))
    && (m.firstWork ==> m.ctx == epochs[m.treasure])
    && (m.needToWork ==> m.firstWork)
    && (forall k :: 0 <= k < |m.trial| ==> m.trial[k] != [])
    && (m.firstWork && !m.needToWork ==> InFlight(finds, m.treasure + 1) || m.treasure < treasure)
  }

  ghost predicate MinerOk(s: System, i: nat)
    requires i < |s.miners| == |s.orders| == |s.finds|
  {
    MinerInv(s.epochs, s.boss.treasure, s.miners[i], Works(s.orders[i]), s.finds[i])
  }

  ghost predicate Inv(h: Hash, s: System) {
    && |s.miners| == |s.orders| == |s.finds|
    && BossInv(s) && Chain(h, s.epochs)
    && (forall i :: 0 <= i < |s.finds| ==> FindsInv(h, s.epochs, s.finds[i]))
    && (forall i :: 0 <= i < |s.miners| ==> MinerOk(s, i))
  }
}
