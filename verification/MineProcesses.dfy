/** The two programs of the mining protocol as the source writes them: buffers, counters and queues updated in place. */
module MineProcesses {
  import opened ShortlexSearch
  import opened Mining
  import Dumps

  class BossProcess {
    const str: array<Byte>
    var bytes: nat
    var treasure: nat
    var mdContext: Bytes
    var readFile: bool
    /** What has been written to each miner's pipe and not been read there. */
    const pipes: array<seq<Order>>
    const dumpInformation: array<Dumps.Dump>
    var numOfDump: nat

    ghost function View(): Boss
      reads this, str
      requires bytes <= str.Length
    {
      Boss(str[..bytes], treasure, mdContext, readFile)
    }

    ghost function DumpView(): Dumps.State
      reads this, str, dumpInformation
      requires bytes <= str.Length && numOfDump <= dumpInformation.Length
    {
      Dumps.State(str[..bytes], readFile, dumpInformation[..numOfDump])
    }

    ghost predicate Valid()
      reads this, str, dumpInformation
    {
      bytes <= str.Length && numOfDump <= dumpInformation.Length && Dumps.Inv(DumpView())
    }

    constructor (capacity: nat, miners: nat)
      ensures Valid() && View() == Boss([], 0, [], false) && DumpView() == Dumps.State([], false, [])
      ensures str.Length == capacity && pipes[..] == seq(miners, _ => [])
      ensures fresh(str) && fresh(pipes) && fresh(dumpInformation)
    {
      str := new Byte[capacity](_ => 0);
      pipes := new seq<Order>[miners](_ => []);
      dumpInformation := new Dumps.Dump[64](_ => Dumps.Dump("", false, 0, 0, false, []));
      bytes, treasure, mdContext, readFile, numOfDump := 0, 0, [], false, 0;
    }

    /** Copies `cur` behind the bytes already held. */
    method Append(cur: Bytes)
      requires Valid() && bytes + |cur| <= str.Length
      modifies str, this`bytes
      ensures Valid() && View() == old(View()).(str := old(View()).str + cur)
      ensures dumpInformation[..] == old(dumpInformation[..]) && pipes[..] == old(pipes[..])
    {
      ghost var before := str[..bytes];
      Dumps.StepKeepsInv(DumpView(), Dumps.Grow(cur));
      for i := 0 to |cur|
        invariant bytes == old(bytes) && str[..bytes] == before
        invariant forall j :: 0 <= j < i ==> str[bytes + j] == cur[j]
      {
        str[bytes + i] := cur[i];
      }
      bytes := bytes + |cur|;
      assert str[..bytes] == before + cur;
    }

    method Broadcast(o: Order)
      modifies pipes
      ensures pipes[..] == Send(old(pipes[..]), o)
    {
      for ind := 0 to pipes.Length
        invariant forall j :: 0 <= j < ind ==> pipes[j] == old(pipes[j]) + [o]
        invariant forall j :: ind <= j < pipes.Length ==> pipes[j] == old(pipes[j])
      {
        pipes[ind] := pipes[ind] + [o];
      }
    }

    /** One read of the mine file; an empty one ends it and starts the miners. */
    method ReadMine(input: Bytes, name: Name)
      requires Valid() && !readFile && bytes + |input| <= str.Length
      modifies this, str, pipes
      ensures Valid() && DumpView().dumps == old(DumpView().dumps)
      ensures input != [] ==> View() == AbsorbFile(old(View()), input) && pipes[..] == old(pipes[..])
      ensures input == [] ==>
        View() == old(View()).(readFile := true) && pipes[..] == Send(old(pipes[..]), Work(treasure, mdContext, name))
    {
      if |input| == 0 {
        Dumps.StepKeepsInv(DumpView(), Dumps.FinishReading);
        readFile := true;
        Broadcast(Work(treasure, mdContext, name));
      } else {
        Append(input);
        mdContext := mdContext + input;
      }
    }

    method ReceiveFind(get: Find) returns (accepted: bool)
      requires Valid() && bytes + |get.data| <= str.Length
      modifies this, str, pipes
      ensures Valid() && DumpView().dumps == old(DumpView().dumps)
      ensures accepted == Accepts(old(View()), get)
      ensures View() == if accepted then AcceptFind(old(View()), get) else old(View())
      ensures pipes[..] == if accepted then Send(old(pipes[..]), Work(treasure, mdContext, get.finder))
                           else old(pipes[..])
    {
      accepted := get.treasure > treasure;
      if accepted {
        treasure := get.treasure;
        Append(get.data);
        mdContext := get.ctx;
        Broadcast(Work(treasure, mdContext, get.finder));
      }
    }

    /** The `dump` command. */
    method DumpCommand(location: string)
      requires Valid() && numOfDump < dumpInformation.Length
      modifies this`numOfDump, dumpInformation
      ensures Valid() && DumpView() == Dumps.Request(old(DumpView()), location)
      ensures exists i :: 0 <= i < numOfDump && Dumps.Answers(dumpInformation[i], location)
                && dumpInformation[i].end == if readFile then bytes else 0
    {
      Dumps.StepKeepsInv(DumpView(), Dumps.RequestDump(location));
      ghost var dumps := dumpInformation[..numOfDump];
      for i := 0 to numOfDump
        invariant forall j :: 0 <= j < i ==> !Dumps.TakesOver(dumps[j], location)
      {
        if dumpInformation[i].location <= location && !dumpInformation[i].success {
          assert i == Dumps.FirstTaker(dumps, location);
          var end := if readFile then bytes else 0;
          dumpInformation[i] := dumpInformation[i].(end := end);
          assert Dumps.Answers(dumpInformation[i], location);
          return;
        }
      }
      dumpInformation[numOfDump] := Dumps.Dump(location, false, 0, if readFile then bytes else 0, false, []);
      assert Dumps.Answers(dumpInformation[numOfDump], location);
      numOfDump := numOfDump + 1;
    }

    /** The loop over the dumps at the end of a round. */
    method PushDumps(answers: seq<Dumps.Answer>)
      requires Valid() && Dumps.Enabled(DumpView(), Dumps.Round(answers))
      modifies dumpInformation
      ensures Valid() && DumpView() == Dumps.PushAll(old(DumpView()), answers)
    {
      ghost var s := DumpView();
      Dumps.StepKeepsInv(s, Dumps.Round(answers));
      for i := 0 to numOfDump
        invariant forall j :: 0 <= j < i ==> dumpInformation[j] == Dumps.Push(s.str, s.dumps[j], answers[j])
        invariant forall j :: i <= j < numOfDump ==> dumpInformation[j] == s.dumps[j]
      {
        if !dumpInformation[i].success {
          assert Dumps.DumpInv(s, s.dumps[i]);
          PushDump(i, answers[i]);
        }
      }
    }

    method PushDump(i: nat, answer: Dumps.Answer)
      requires bytes <= str.Length && i < dumpInformation.Length && !dumpInformation[i].success
      requires 0 <= dumpInformation[i].start <= dumpInformation[i].end <= bytes
      requires Dumps.Possible(dumpInformation[i], answer)
      modifies dumpInformation
      ensures dumpInformation[..] ==
              old(dumpInformation[..])[i := Dumps.Push(str[..bytes], old(dumpInformation[i]), answer)]
    {
      var d := dumpInformation[i];
      if !d.isOpen {
        d := d.(isOpen := answer.opens);
      }
      if d.isOpen {
        var needToWrite := if d.end - d.start < 1024 then d.end - d.start else 1024;
        assert answer.ret <= needToWrite;
        if answer.ret >= 0 {
          var piece := str[..bytes][d.start..d.start + answer.ret];
          d := d.(written := d.written + piece, start := d.start + answer.ret);
        }
        if d.start == d.end {
          d := d.(success := true);
        }
      }
      dumpInformation[i] := d;
    }
  }

  class MinerProcess {
    const name: Name
    const interval: Interval
    var treasure: nat
    var mdContext: Bytes
    var firstWork: bool
    var needToWork: bool
    var trial: seq<Bytes>
    /** What has been written to the boss's pipe and not been read there. */
    var pipe: seq<Find>
    /** The candidates since the last order. */
    ghost var tried: seq<Bytes>

    ghost function View(): Miner
      reads this
    {
      Miner(name, interval, treasure, mdContext, firstWork, needToWork, trial, tried)
    }

    constructor (name: Name, n: nat, ind: nat)
      requires ind < n
      ensures View() == NewMiner(name, n, ind) && pipe == []
    {
      this.name, interval := name, IntervalOf(n, ind);
      treasure, mdContext, firstWork, needToWork, trial, pipe, tried := 0, [], false, false, [], [], [];
    }

    /** Does the string continue the context to a digest worth one more than `treasure`? */
    method Md5sum(h: Hash, str: Bytes, treasure: nat, ctx: Bytes) returns (found: bool)
      ensures found <==> Worth(h, ctx + str) == treasure + 1
      ensures found <==> BeginsWithZeros(h(ctx + str), treasure + 1)
    {
      WorthIff(h, ctx + str, treasure + 1);
      var ans := Hex(h(ctx + str));
      var zero := -1;
      var i := 0;
      while i < 16 && ans[i] == '0'
        invariant i <= 16 && zero == i - 1
        invariant forall j :: 0 <= j < i ==> ans[j] == '0'
      {
        zero := zero + 1;
        i := i + 1;
      }
      ZeroRunIs(ans[..16], i);
      found := zero == treasure;
    }

    method ReceiveOrder(o: Order)
      requires interval.start <= interval.end <= 256
      modifies this
      ensures View() == TakeOrder(old(View()), o) && pipe == old(pipe)
    {
      if o.Work? {
        treasure, mdContext := o.treasure, o.ctx;
        trial := [];
        tried := [];
        for i := interval.start to interval.end
          invariant trial == OneByteStrings(interval.start, i)
          invariant View() == old(View()).(treasure := o.treasure, ctx := o.ctx, trial := trial, tried := [])
          invariant pipe == old(pipe)
        {
          trial := trial + [[i]];
        }
        needToWork, firstWork := true, true;
      }
    }

    /** One candidate. */
    method TryNext(h: Hash)
      requires needToWork && trial != []
      modifies this
      ensures View() == TryCandidate(h, old(View()))
      ensures pipe == if Found(h, old(View())) then old(pipe) + [FindOf(old(View()))] else old(pipe)
    {
      var out := trial[0];
      trial := trial[1..];
      tried := tried + [out];
      var found := Md5sum(h, out, treasure, mdContext);
      if found {
        pipe := pipe + [Find(treasure + 1, out, mdContext + out, name)];
        needToWork := false;
      } else if |trial| <= 10000000 {
        ghost var rest := trial;
        for i := 0 to 256
          invariant trial == rest + seq(i, k requires 0 <= k < i => out + [k])
          invariant View() == old(View()).(trial := trial, tried := old(tried) + [out]) && pipe == old(pipe)
        {
          trial := trial + [out + [i]];
        }
      }
    }
  }

  /** The run of zeros is the only length with these properties. */
  lemma {:induction false} ZeroRunIs(ans: string, n: nat)
    requires n <= |ans| && (forall i :: 0 <= i < n ==> ans[i] == '0') && (n < |ans| ==> ans[n] != '0')
    ensures ZeroRun(ans) == n
  {
    if n > 0 {
      ZeroRunIs(ans[1..], n - 1);
    }
  }
}
