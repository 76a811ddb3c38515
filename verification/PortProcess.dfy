/** The port register as the source runs it: records in the linked hash, and an array of reserve bits. */
module PortProcess {
  import opened Sequences
  import opened HashTable
  import opened ChainedHash
  import opened PortRegister

  // ----- a table of records and the table of their ports -----

  ghost predicate Known<A>(t: Table<A>, ports: map<A, int>) {
    forall p, i :: 0 <= p < |t| && 0 <= i < |t[p]| ==> t[p][i].1 in ports
  }

  ghost function PortsOfChain<A>(chain: seq<Entry<A>>, ports: map<A, int>): (s: seq<Entry<int>>)
    requires forall i :: 0 <= i < |chain| ==> chain[i].1 in ports
    ensures |s| == |chain| && forall i :: 0 <= i < |s| ==> s[i] == (chain[i].0, ports[chain[i].1])
  {
    seq(|chain|, i requires 0 <= i < |chain| => (chain[i].0, ports[chain[i].1]))
  }

  ghost function PortsOf<A>(t: Table<A>, ports: map<A, int>): (u: Table<int>)
    requires Known(t, ports)
    ensures |u| == |t| && forall p :: 0 <= p < |t| ==> u[p] == PortsOfChain(t[p], ports)
  {
    seq(|t|, p requires 0 <= p < |t| => PortsOfChain(t[p], ports))
  }

  /** No record is stored under two hash codes. */
  ghost predicate OneCodeEach<A>(t: Table<A>)
    requires |t| > 0
  {
    forall c, d :: Get(t, c).Some? && Get(t, c) == Get(t, d) ==> c == d
  }

  lemma PortsOfGet<A>(t: Table<A>, ports: map<A, int>, code: int)
    requires |t| > 0 && Known(t, ports)
    ensures Get(t, code).None? ==> Get(PortsOf(t, ports), code).None?
    ensures Get(t, code).Some? ==>
              Get(t, code).value in ports && Get(PortsOf(t, ports), code) == Some(ports[Get(t, code).value])
  {
    var p := Bucket(t, code);
    FindIgnoresContents(t[p], PortsOf(t, ports)[p], code);
  }

  lemma PortsOfPut<A>(t: Table<A>, ports: map<A, int>, code: int, record: A, port: int)
    requires |t| > 0 && Known(t, ports) && record !in ports && Get(t, code).None?
    ensures Known(Put(t, code, record), ports[record := port])
    ensures PortsOf(Put(t, code, record), ports[record := port]) == Put(PortsOf(t, ports), code, port)
  {
    var p := Bucket(t, code);
    FindIgnoresContents(t[p], PortsOf(t, ports)[p], code);
    assert PortsOfChain(t[p] + [(code, record)], ports[record := port]) == PortsOfChain(t[p], ports) + [(code, port)];
    forall q | 0 <= q < |t| && q != p
      ensures PortsOfChain(t[q], ports[record := port]) == PortsOfChain(t[q], ports)
    {
    }
  }

  lemma PortsOfChainErased<A>(chain: seq<Entry<A>>, ports: map<A, int>, i: nat)
    requires i < |chain| && forall j :: 0 <= j < |chain| ==> chain[j].1 in ports
    ensures forall j :: 0 <= j < |chain| - 1 ==> EraseAt(chain, i)[j].1 in ports
    ensures PortsOfChain(EraseAt(chain, i), ports) == EraseAt(PortsOfChain(chain, ports), i)
  {
  }

  lemma PortsOfBucketChanged<A>(t: Table<A>, ports: map<A, int>, p: nat, chain: seq<Entry<A>>)
    requires p < |t| && Known(t, ports) && forall j :: 0 <= j < |chain| ==> chain[j].1 in ports
    ensures Known(t[p := chain], ports)
    ensures PortsOf(t[p := chain], ports) == PortsOf(t, ports)[p := PortsOfChain(chain, ports)]
  {
    var now := PortsOf(t[p := chain], ports);
    forall q | 0 <= q < |t|
      ensures now[q] == PortsOf(t, ports)[p := PortsOfChain(chain, ports)][q]
    {
    }
  }

  lemma PortsOfDel<A>(t: Table<A>, ports: map<A, int>, code: int)
    requires |t| > 0 && Known(t, ports)
    ensures Known(Del(t, code), ports)
    ensures PortsOf(Del(t, code), ports) == Del(PortsOf(t, ports), code)
  {
    var p := Bucket(t, code);
    var i := Find(t[p], code);
    FindIgnoresContents(t[p], PortsOf(t, ports)[p], code);
    if i < |t[p]| {
      var rest: seq<Entry<A>> := if i == 0 then [] else EraseAt(t[p], i);
      PortsOfChainErased(t[p], ports, i);
      PortsOfBucketChanged(t, ports, p, rest);
      assert i == 0 ==> PortsOfChain(rest, ports) == [];
    }
  }

  /** Writing to the one record of a hash code changes the port of that code only. */
  lemma PortsOfSet<A>(t: Table<A>, ports: map<A, int>, code: int, port: int)
    requires GoodTable(t) && Known(t, ports) && OneCodeEach(t) && Get(t, code).Some?
    ensures Known(t, ports[Get(t, code).value := port])
    ensures PortsOf(t, ports[Get(t, code).value := port]) == SetPort(PortsOf(t, ports), code, port)
  {
    var p, record := Bucket(t, code), Get(t, code).value;
    FindIgnoresContents(t[p], PortsOf(t, ports)[p], code);
    forall q, i | 0 <= q < |t| && 0 <= i < |t[q]| && t[q][i].1 == record
      ensures q == p && i == Find(t[p], code)
    {
      assert t[q][i] in t[q];
      InChainIff(t, q, t[q][i]);
      assert GoodChain(t[q], q, |t|);
    }
    var was, now := PortsOf(t, ports), PortsOf(t, ports[record := port]);
    forall q | 0 <= q < |t|
      ensures now[q] == SetPort(was, code, port)[q]
    {
      assert q != p ==> now[q] == was[q];
    }
  }

  lemma PutKeepsOneCode<A>(t: Table<A>, code: int, record: A)
    requires GoodTable(t) && OneCodeEach(t) && Get(t, code).None? && forall c :: Get(t, c) != Some(record)
    ensures OneCodeEach(Put(t, code, record))
  {
    forall c
      ensures Get(Put(t, code, record), c) == if c == code then Some(record) else Get(t, c)
    {
      GetAfterPut(t, code, record, c);
    }
  }

  lemma DelKeepsOneCode<A>(t: Table<A>, code: int)
    requires GoodTable(t) && OneCodeEach(t)
    ensures OneCodeEach(Del(t, code))
  {
    forall c
      ensures Get(Del(t, code), c) == if Taken(t, code, c) then None else Get(t, c)
    {
      GetAfterDel(t, code, c);
    }
  }

  class Record {
    var port: int

    constructor (port: int)
      ensures this.port == port
    {
      this.port := port;
    }
  }

  class RegisterProcess {
    const recordHash: Hash<Record>
    const portReserve: array<bool>
    /** The port of every record there is. */
    ghost var ports: map<Record, int>

    ghost predicate Apart()
      reads this, recordHash
    {
      && this !in recordHash.Repr && portReserve !in recordHash.Repr
      && forall r :: r in ports ==> r !in recordHash.Repr
    }

    ghost predicate Valid()
      reads this, recordHash, recordHash.Repr, portReserve, ports.Keys
    {
      && Apart() && recordHash.Valid() && portReserve.Length == RESERVE_SIZE
      && Known(recordHash.View(), ports) && OneCodeEach(recordHash.View())
      && (forall r :: r in ports ==> r.port == ports[r])
      && Safe(View())
    }

    ghost function View(): Register
      reads this, recordHash, portReserve
      requires Known(recordHash.View(), ports)
    {
      Register(PortsOf(recordHash.View(), ports), portReserve[..])
    }

    /** Before the first check, no bit is set. */
    constructor (buckets: nat)
      requires buckets > 0
      ensures Valid() && View() == Register(seq(buckets, _ => []), seq(RESERVE_SIZE, _ => false))
      ensures fresh(recordHash) && fresh(recordHash.Repr) && fresh(portReserve)
    {
      recordHash := new Hash<Record>();
      portReserve := new bool[RESERVE_SIZE](_ => false);
      ports := map[];
      new;
      var suc := recordHash.Init(buckets);
      StartIsSafe(buckets, {});
      assert View().records == seq(buckets, _ => []);
      assert portReserve[..] == seq(RESERVE_SIZE, _ => false);
    }

    method GetNextPort() returns (port: int)
      requires portReserve.Length == RESERVE_SIZE
      modifies portReserve
      ensures var k := LowestFree(old(portReserve[..]));
        if k == RESERVE_SIZE then port == -1 && portReserve[..] == old(portReserve[..])
        else port == PortAt(k) && portReserve[..] == old(portReserve[..])[k := true]
    {
      var i := 0;
      while i < portReserve.Length
        invariant i <= portReserve.Length && portReserve[..] == old(portReserve[..])
        invariant forall j :: 0 <= j < i ==> portReserve[j]
      {
        if !portReserve[i] {
          portReserve[i] := true;
          return i + REGISTER_PORT + 1;
        }
        i := i + 1;
      }
      return -1;
    }

    /** `get_port`. */
    method GetPort(code: int) returns (port: int)
      requires Valid()
      ensures port == Lookup(View(), code)
    {
      PortsOfGet(recordHash.View(), ports, code);
      var found := recordHash.GetFromHash(code);
      match found
      case None => return -1;
      case Some(r) => return r.port;
    }

    method AddRecord(code: int, port: int)
      requires Valid() && Get(recordHash.View(), code).None?
      requires Safe(View().(records := Put(View().records, code, port)))
      modifies this`ports, recordHash.Repr
      ensures Valid() && fresh(recordHash.Repr - old(recordHash.Repr)) && fresh(ports.Keys - old(ports.Keys))
      ensures View() == old(View().(records := Put(View().records, code, port)))
    {
      ghost var t := recordHash.View();
      var r := new Record(port);
      PortsOfPut(t, ports, code, r, port);
      PutKeepsOneCode(t, code, r);
      var suc := recordHash.PutIntoHash(r, code);
      ports := ports[r := port];
    }

    method ChangeRecord(r: Record, code: int, port: int)
      requires Valid() && Get(recordHash.View(), code) == Some(r) && r in ports
      requires Safe(View().(records := SetPort(View().records, code, port)))
      modifies this`ports, r
      ensures Valid() && ports.Keys == old(ports.Keys)
      ensures View() == old(View().(records := SetPort(View().records, code, port)))
    {
      PortsOfSet(recordHash.View(), ports, code, port);
      r.port := port;
      ports := ports[r := port];
    }

    /** `book_port`. */
    method BookPort(code: int) returns (port: int)
      requires Valid()
      modifies this`ports, recordHash.Repr, portReserve, ports.Keys
      ensures Valid() && fresh(recordHash.Repr - old(recordHash.Repr)) && fresh(ports.Keys - old(ports.Keys))
      ensures (View(), port) == Book(old(View()), code)
    {
      BookKeepsSafe(View(), code);
      PortsOfGet(recordHash.View(), ports, code);
      var found := recordHash.GetFromHash(code);
      port := GetNextPort();
      if port == -1 {
        return -1;
      }
      match found
      case None => AddRecord(code, port);
      case Some(r) => ChangeRecord(r, code, port);
    }

    /** `web_port`, before its answer is put into network order. */
    method WebPort(code: int) returns (port: int)
      requires Valid()
      modifies this`ports, recordHash.Repr, portReserve, ports.Keys
      ensures Valid() && fresh(recordHash.Repr - old(recordHash.Repr)) && fresh(ports.Keys - old(ports.Keys))
      ensures (View(), port) == Web(old(View()), code)
      ensures WebAnswered(old(View()), View(), code, port)
    {
      WebAnswers(View(), code);
      port := GetPort(code);
      if port == -1 {
        port := BookPort(code);
      }
    }

    /** `check_port_reserve`; a port that a record holds must be in use. */
    method CheckPortReserve(bindable: set<int>)
      requires Valid() && Safe(Check(View(), bindable))
      modifies portReserve
      ensures Valid() && View() == Check(old(View()), bindable)
    {
      var i := 0;
      while i < RESERVE_SIZE
        invariant i <= RESERVE_SIZE
        invariant forall j :: 0 <= j < i ==> (portReserve[j] <==> PortAt(j) !in bindable)
      {
        var port := i + REGISTER_PORT + 1;
        var state := port !in bindable;
        if state != portReserve[i] {
          portReserve[i] := state;
        }
        i := i + 1;
      }
      assert portReserve[..] == Check(old(View()), bindable).reserve;
    }

    /** From a node on, the pointers run through `rest`. */
    static ghost predicate Trail(rest: seq<HashNode<Record>>, repr: set<object>)
      reads rest
    {
      forall j :: 0 <= j < |rest| ==> rest[j] in repr && rest[j].next == Hash<Record>.Successor(rest, j)
    }

    static ghost predicate NoCode(rest: seq<HashNode<Record>>, code: int) {
      forall j :: 0 <= j < |rest| ==> rest[j].hashCode != code
    }

    /** The body of the walk for one node whose port can be bound; the nodes behind it keep their pointers. */
    method CleanRecord(code: int, port: int, ghost rest: seq<HashNode<Record>>)
      requires Valid() && IsPort(port) && Trail(rest, recordHash.Repr) && NoCode(rest, code)
      requires Safe(CleanEntry(View(), (code, port), {port}))
      modifies recordHash.Repr, portReserve
      ensures Valid() && recordHash.Repr == old(recordHash.Repr) && recordHash.n == old(recordHash.n)
      ensures View() == CleanEntry(old(View()), (code, port), {port})
      ensures Trail(rest, recordHash.Repr)
    {
      ghost var t := recordHash.View();
      portReserve[port - 1 - REGISTER_PORT] := false;
      PortsOfDel(t, ports, code);
      DelKeepsOneCode(t, code);
      forall j | 0 <= j < |rest|
        ensures !Hash<Record>.InFrontOf(rest[j], code)
      {
      }
      label BeforeDel:
      var r := recordHash.DelFromHash(code);
      forall j | 0 <= j < |rest|
        ensures rest[j].next == Hash<Record>.Successor(rest, j)
      {
        assert !old@BeforeDel(Hash<Record>.InFrontOf(rest[j], code));
      }
    }

    /** One turn of the walk, at the node `n` that has `rest` behind it and stands for the entry `e`. */
    method CleanNode(n: HashNode<Record>, ghost e: Entry<int>, ghost rest: seq<HashNode<Record>>, bindable: set<int>)
      returns (next: HashNode?<Record>)
      requires Valid() && Trail([n] + rest, recordHash.Repr) && NoCode(rest, n.hashCode)
      requires n.contain in ports && e == (n.hashCode, ports[n.contain]) && IsPort(e.1)
      requires Safe(CleanEntry(View(), e, bindable))
      modifies recordHash.Repr, portReserve
      ensures Valid() && recordHash.Repr == old(recordHash.Repr) && recordHash.n == old(recordHash.n)
      ensures View() == CleanEntry(old(View()), e, bindable)
      ensures Trail(rest, recordHash.Repr) && next == (if rest == [] then null else rest[0])
    {
      assert ([n] + rest)[0].next == Hash<Record>.Successor([n] + rest, 0);
      forall j | 0 <= j < |rest|
        ensures rest[j] in recordHash.Repr && rest[j].next == Hash<Record>.Successor(rest, j)
      {
        assert ([n] + rest)[j + 1] == rest[j];
      }
      var port := n.contain.port;
      next := n.next;
      if port in bindable {
        CleanRecord(n.hashCode, port, rest);
      }
    }

    /** `chain` lists the nodes as entries, all with different codes. */
    static ghost predicate Entries(nodes: seq<HashNode<Record>>, chain: seq<Entry<int>>, ports: map<Record, int>) {
      && |nodes| == |chain|
      && (forall j :: 0 <= j < |nodes| ==>
            nodes[j].contain in ports && chain[j] == (nodes[j].hashCode, ports[nodes[j].contain]))
      && forall j, k :: 0 <= j < k < |nodes| ==> nodes[j].hashCode != nodes[k].hashCode
    }

    lemma NodesOfBucket(i: nat)
      requires Valid() && i < recordHash.n
      ensures recordHash.n == |recordHash.chains| == |View().records|
      ensures recordHash.node != null && recordHash.node.Length == recordHash.n
      ensures Entries(recordHash.chains[i], View().records[i], ports) && Trail(recordHash.chains[i], recordHash.Repr)
      ensures recordHash.node[i] == (if recordHash.chains[i] == [] then null else recordHash.chains[i][0])
    {
      assert recordHash.Linked(i);
      assert GoodChain(recordHash.View()[i], i, recordHash.n);
      forall j, k | 0 <= j < k < |recordHash.chains[i]|
        ensures recordHash.chains[i][j].hashCode != recordHash.chains[i][k].hashCode
      {
        assert recordHash.View()[i][j].0 != recordHash.View()[i][k].0;
      }
    }

    /** The walk of bucket `i` of the register that was `r` has passed `k` of its nodes and stands at `n`. */
    ghost predicate Walking(r: Register, i: nat, k: nat, nodes: seq<HashNode<Record>>, n: HashNode?<Record>,
                            bindable: set<int>)
      reads this, recordHash, recordHash.Repr, portReserve, ports.Keys, nodes
    {
      && Valid() && Safe(r) && i < |r.records| && Entries(nodes, r.records[i], ports)
      && k <= |nodes| && n == (if k < |nodes| then nodes[k] else null) && Trail(nodes[k..], recordHash.Repr)
      && View() == CleanPrefix(r, i, k, bindable)
    }

    method WalkOn(n: HashNode<Record>, ghost r: Register, i: nat, ghost k: nat, ghost nodes: seq<HashNode<Record>>,
                  bindable: set<int>)
      returns (next: HashNode?<Record>)
      requires Walking(r, i, k, nodes, n, bindable)
      modifies recordHash.Repr, portReserve
      ensures k < |nodes| && Walking(r, i, k + 1, nodes, next, bindable)
      ensures recordHash.Repr == old(recordHash.Repr) && recordHash.n == old(recordHash.n)
    {
      CleanPrefixStep(r, i, k, bindable);
      assert [n] + nodes[k + 1..] == nodes[k..];
      next := CleanNode(n, r.records[i][k], nodes[k + 1..], bindable);
    }

    /** The inner loop of `clean_port_reserve`. It goes on along the pointers of the nodes it has passed, even if the whole
        bucket has been emptied behind it. */
    method CleanBucket(i: nat, bindable: set<int>)
      requires Valid() && i < recordHash.n
      modifies recordHash.Repr, portReserve
      ensures Valid() && recordHash.Repr == old(recordHash.Repr) && recordHash.n == old(recordHash.n)
      ensures i < |old(View()).records|
      ensures View() == CleanPrefix(old(View()), i, |old(View()).records[i]|, bindable)
    {
      NodesOfBucket(i);
      ghost var r, nodes := View(), recordHash.chains[i];
      assert r.records[i][..0] == [];
      ghost var k := 0;
      var n := recordHash.node[i];
      while n != null
        invariant Walking(r, i, k, nodes, n, bindable)
        invariant recordHash.Repr == old(recordHash.Repr) && recordHash.n == old(recordHash.n)
        decreases |nodes| - k
      {
        n := WalkOn(n, r, i, k, nodes, bindable);
        k := k + 1;
      }
    }

    /** The hash after the first `i` turns of the loop of `clean_port_reserve`. */
    ghost predicate Cleaning(r: Register, i: nat, bindable: set<int>)
      reads this, recordHash, recordHash.Repr, portReserve, ports.Keys
    {
      && Valid() && Safe(r) && recordHash.n == |r.records| && i <= |r.records| && View() == CleanBuckets(r, i, bindable)
    }

    method CleanNext(ghost r: Register, i: nat, bindable: set<int>)
      requires Cleaning(r, i, bindable) && i < recordHash.n
      modifies recordHash.Repr, portReserve
      ensures Cleaning(r, i + 1, bindable) && recordHash.Repr == old(recordHash.Repr)
    {
      CleanBucket(i, bindable);
    }

    lemma CleaningStarts(bindable: set<int>)
      requires Valid()
      ensures Cleaning(View(), 0, bindable)
    {
    }

    /** The loop of `clean_port_reserve`. */
    method CleanRecords(ghost r: Register, bindable: set<int>) returns (i: nat)
      requires Cleaning(r, 0, bindable)
      modifies recordHash.Repr, portReserve
      ensures Cleaning(r, i, bindable) && i == |r.records|
    {
      i := 0;
      while i < recordHash.n
        invariant Cleaning(r, i, bindable) && recordHash.Repr == old(recordHash.Repr)
        decreases |r.records| - i
      {
        CleanNext(r, i, bindable);
        i := i + 1;
      }
    }

    /** `clean_port_reserve`. */
    method CleanPortReserve(bindable: set<int>)
      requires Valid()
      modifies recordHash.Repr, portReserve
      ensures Valid() && View() == Clean(old(View()), bindable)
    {
      ghost var r := View();
      CleaningStarts(bindable);
      var i := CleanRecords(r, bindable);
      assert Check(View(), bindable) == Clean(r, bindable);
      CheckPortReserve(bindable);
    }
  }
}
