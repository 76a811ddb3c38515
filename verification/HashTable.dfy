/** The chained hash of the csiebox programs: what its operations do to the chains, as functions on values. */
module HashTable {
  import opened Sequences

  /** One chain for each bucket; an entry is a hash code with what it contains. */
  type Entry<V> = (int, V)
  type Table<V> = seq<seq<Entry<V>>>

  datatype Option<V> = None | Some(value: V)

  /** The remainder of C, which has the sign of the dividend. */
  function CRemainder(a: int, n: int): int
    requires n > 0
  {
    if a >= 0 then a % n else -((-a) % n)
  }

  /** It is what division towards zero leaves. */
  lemma CRemainderIsLeft(a: int, n: int) returns (q: int)
    requires n > 0
    ensures a == q * n + CRemainder(a, n) && -n < CRemainder(a, n) < n
    ensures (a >= 0 ==> CRemainder(a, n) >= 0) && (a <= 0 ==> CRemainder(a, n) <= 0)
  {
    q := if a >= 0 then a / n else -((-a) / n);
  }

  /** The bucket of a hash code as the source computes it. */
  function Position(hashCode: int, n: int): int
    requires n > 0
  {
    var pos := CRemainder(hashCode, n);
    if pos < 0 then n + pos else pos
  }

  /** For every hash code, negative ones too, the adjusted remainder is the residue between 0 and n. */
  lemma PositionIsResidue(hashCode: int, n: int)
    requires n > 0
    ensures 0 <= Position(hashCode, n) < n && Position(hashCode, n) == hashCode % n
  {
    if hashCode < 0 {
      var r := (-hashCode) % n;
      var q := (-hashCode) / n;
      assert -hashCode == q * n + r;
      if r == 0 {
        ResidueIs(hashCode, -q, 0, n);
      } else {
        assert hashCode == (-q - 1) * n + (n - r);
        ResidueIs(hashCode, -q - 1, n - r, n);
      }
    }
  }

  lemma ResidueIs(a: int, q: int, r: int, n: int)
    requires n > 0 && a == q * n + r && 0 <= r < n
    ensures a % n == r
  {
    var q', r' := a / n, a % n;
    assert a == q' * n + r';
    assert (q - q') * n == r' - r;
    if q != q' {
      DifferenceIsLarge(q - q', n);
    }
  }

  lemma DifferenceIsLarge(d: int, n: int)
    requires n > 0 && d != 0
    ensures d * n >= n || d * n <= -n
  {
    if d > 0 {
      assert d * n >= 1 * n;
    } else {
      assert d * n <= -1 * n;
    }
  }

  // ----- one chain -----

  /** The index of the entry with this hash code, or the length of the chain. */
  function Find<V>(chain: seq<Entry<V>>, hashCode: int): (i: nat)
    ensures i <= |chain|
    ensures i < |chain| ==> chain[i].0 == hashCode
    ensures forall j :: 0 <= j < i ==> chain[j].0 != hashCode
  {
    if chain == [] || chain[0].0 == hashCode then 0 else 1 + Find(chain[1..], hashCode)
  }

  lemma FindIgnoresContents<V, W>(a: seq<Entry<V>>, b: seq<Entry<W>>, hashCode: int)
    requires |a| == |b| && forall i :: 0 <= i < |a| ==> a[i].0 == b[i].0
    ensures Find(a, hashCode) == Find(b, hashCode)
  {
  }

  predicate DistinctKeys<V>(entries: seq<Entry<V>>) {
    forall i, j :: 0 <= i < j < |entries| ==> entries[i].0 != entries[j].0
  }

  ghost predicate GoodChain<V>(chain: seq<Entry<V>>, p: nat, n: nat)
    requires n > 0
  {
    && (forall i :: 0 <= i < |chain| ==> Position(chain[i].0, n) == p)
    && DistinctKeys(chain)
  }

  ghost predicate GoodTable<V>(t: Table<V>) {
    |t| > 0 && forall p :: 0 <= p < |t| ==> GoodChain(t[p], p, |t|)
  }

  // ----- the operations -----

  function Bucket<V>(t: Table<V>, hashCode: int): (p: nat)
    requires |t| > 0
    ensures p < |t|
  {
    PositionIsResidue(hashCode, |t|);
    Position(hashCode, |t|)
  }

  function Put<V>(t: Table<V>, hashCode: int, contain: V): Table<V>
    requires |t| > 0
  {
    var p := Bucket(t, hashCode);
    if Find(t[p], hashCode) < |t[p]| then t else t[p := t[p] + [(hashCode, contain)]]
  }

  function Get<V>(t: Table<V>, hashCode: int): Option<V>
    requires |t| > 0
  {
    var p := Bucket(t, hashCode);
    var i := Find(t[p], hashCode);
    if i < |t[p]| then Some(t[p][i].1) else None
  }

  /** Deleting the head of a chain empties the whole bucket. */
  function Del<V>(t: Table<V>, hashCode: int): Table<V>
    requires |t| > 0
  {
    var p := Bucket(t, hashCode);
    var i := Find(t[p], hashCode);
    if i == |t[p]| then t
    else if i == 0 then t[p := []]
    else t[p := EraseAt(t[p], i)]
  }

  // ----- the map they stand for -----

  function ChainMap<V>(chain: seq<Entry<V>>): map<int, V> {
    if chain == [] then map[]
    else ChainMap(chain[..|chain| - 1])[chain[|chain| - 1].0 := chain[|chain| - 1].1]
  }

  /** The map that the first `n` buckets hold. */
  function AsMap<V>(t: Table<V>, n: nat): map<int, V>
    requires n <= |t|
  {
    if n == 0 then map[] else AsMap(t, n - 1) + ChainMap(t[n - 1])
  }

  lemma {:induction false} ChainMapHolds<V>(chain: seq<Entry<V>>, hashCode: int)
    requires DistinctKeys(chain)
    ensures hashCode in ChainMap(chain) <==> Find(chain, hashCode) < |chain|
    ensures hashCode in ChainMap(chain) ==> ChainMap(chain)[hashCode] == chain[Find(chain, hashCode)].1
  {
    if chain != [] {
      var n := |chain| - 1;
      ChainMapHolds(chain[..n], hashCode);
      var i, k := Find(chain, hashCode), Find(chain[..n], hashCode);
      if k < n {
        assert chain[k].0 == hashCode && i == k;
      }
    }
  }

  lemma {:induction false} AsMapHolds<V>(t: Table<V>, n: nat, hashCode: int)
    requires GoodTable(t) && n <= |t|
    ensures hashCode in AsMap(t, n) <==> Bucket(t, hashCode) < n && hashCode in ChainMap(t[Bucket(t, hashCode)])
    ensures hashCode in AsMap(t, n) ==> AsMap(t, n)[hashCode] == ChainMap(t[Bucket(t, hashCode)])[hashCode]
  {
    if n > 0 {
      AsMapHolds(t, n - 1, hashCode);
      assert GoodChain(t[n - 1], n - 1, |t|);
      ChainMapHolds(t[n - 1], hashCode);
      if hashCode in ChainMap(t[n - 1]) {
        assert t[n - 1][Find(t[n - 1], hashCode)].0 == hashCode;
      }
    }
  }

  function Contents<V>(t: Table<V>): map<int, V> {
    AsMap(t, |t|)
  }

  // ----- the main results -----

  /** Looking up agrees with the map. */
  lemma GetIsLookup<V>(t: Table<V>, hashCode: int)
    requires GoodTable(t)
    ensures Get(t, hashCode) == if hashCode in Contents(t) then Some(Contents(t)[hashCode]) else None
  {
    var p := Bucket(t, hashCode);
    assert GoodChain(t[p], p, |t|);
    AsMapHolds(t, |t|, hashCode);
    ChainMapHolds(t[p], hashCode);
  }

  lemma PutKeepsGood<V>(t: Table<V>, hashCode: int, contain: V)
    requires GoodTable(t)
    ensures GoodTable(Put(t, hashCode, contain))
  {
    var p, u := Bucket(t, hashCode), Put(t, hashCode, contain);
    assert GoodChain(t[p], p, |t|);
    forall q | 0 <= q < |u|
      ensures GoodChain(u[q], q, |u|)
    {
      assert GoodChain(t[q], q, |t|);
    }
  }

  lemma PutAt<V>(t: Table<V>, hashCode: int, contain: V, k: int)
    requires GoodTable(t)
    ensures var before, after := Contents(t), Contents(Put(t, hashCode, contain));
      if k == hashCode && k !in before then k in after && after[k] == contain
      else (k in after <==> k in before) && (k in after ==> after[k] == before[k])
  {
    var p, u := Bucket(t, hashCode), Put(t, hashCode, contain);
    PutKeepsGood(t, hashCode, contain);
    AsMapHolds(t, |t|, k);
    AsMapHolds(u, |u|, k);
    assert GoodChain(t[p], p, |t|);
    ChainMapHolds(t[p], hashCode);
    assert u != t ==> u[p][..|t[p]|] == t[p];
  }

  /** Putting inserts only what is absent. */
  lemma PutInsertsIfAbsent<V>(t: Table<V>, hashCode: int, contain: V)
    requires GoodTable(t)
    ensures Contents(Put(t, hashCode, contain)) ==
            if hashCode in Contents(t) then Contents(t) else Contents(t)[hashCode := contain]
  {
    var before, after := Contents(t), Contents(Put(t, hashCode, contain));
    var m := if hashCode in before then before else before[hashCode := contain];
    forall k
      ensures k in after <==> k in m
      ensures k in m ==> after[k] == m[k]
    {
      PutAt(t, hashCode, contain, k);
    }
    assert after == m;
  }

  /** A new entry comes last in its chain, so the head of a chain, which deletion treats differently, stays its head. */
  lemma PutComesLast<V>(t: Table<V>, hashCode: int, contain: V, q: nat)
    requires GoodTable(t) && q < |t|
    ensures |Put(t, hashCode, contain)| == |t|
    ensures Put(t, hashCode, contain)[q] ==
            if q == hashCode % |t| && hashCode !in Contents(t) then t[q] + [(hashCode, contain)] else t[q]
  {
    PositionIsResidue(hashCode, |t|);
    GetIsLookup(t, hashCode);
  }

  lemma DelKeepsGood<V>(t: Table<V>, hashCode: int)
    requires GoodTable(t)
    ensures GoodTable(Del(t, hashCode))
  {
    var u := Del(t, hashCode);
    forall q | 0 <= q < |u|
      ensures GoodChain(u[q], q, |u|)
    {
      assert GoodChain(t[q], q, |t|);
    }
  }

  lemma EraseKeepsGood<V>(t: Table<V>, p: nat, i: nat)
    requires GoodTable(t) && p < |t| && i < |t[p]|
    ensures GoodTable(t[p := EraseAt(t[p], i)])
  {
    var u := t[p := EraseAt(t[p], i)];
    forall q | 0 <= q < |u|
      ensures GoodChain(u[q], q, |u|)
    {
      assert GoodChain(t[q], q, |t|);
    }
  }

  /** The source empties the bucket when it deletes the head of a chain. */
  predicate DeletesHead<V>(t: Table<V>, hashCode: int)
    requires |t| > 0
  {
    var chain := t[Bucket(t, hashCode)];
    chain != [] && chain[0].0 == hashCode
  }

  lemma FindAfterErase<V>(chain: seq<Entry<V>>, i: nat, k: int)
    requires i < |chain| && DistinctKeys(chain)
    ensures var a, b := Find(chain, k), Find(EraseAt(chain, i), k);
      if a == |chain| || a == i then b == |chain| - 1 else b == if a < i then a else a - 1
  {
    var rest := EraseAt(chain, i);
    var a, b := Find(chain, k), Find(rest, k);
    if a < |chain| && a != i {
      assert rest[if a < i then a else a - 1] == chain[a];
    }
    if b < |rest| {
      assert chain[if b < i then b else b + 1] == rest[b];
    }
  }

  lemma EraseKeepsDistinct<V>(chain: seq<Entry<V>>, i: nat)
    requires i < |chain| && DistinctKeys(chain)
    ensures DistinctKeys(EraseAt(chain, i))
  {
  }

  lemma EraseFromChain<V>(chain: seq<Entry<V>>, i: nat, k: int)
    requires i < |chain| && DistinctKeys(chain)
    ensures var rest := EraseAt(chain, i);
      && (k in ChainMap(rest) <==> k in ChainMap(chain) && k != chain[i].0)
      && (k in ChainMap(rest) ==> ChainMap(rest)[k] == ChainMap(chain)[k])
  {
    ChainMapHolds(chain, k);
    EraseKeepsDistinct(chain, i);
    ChainMapHolds(EraseAt(chain, i), k);
    FindAfterErase(chain, i, k);
  }

  /** The keys that a deletion takes. */
  predicate Taken<V>(t: Table<V>, hashCode: int, k: int)
    requires |t| > 0
  {
    if DeletesHead(t, hashCode) then Bucket(t, k) == Bucket(t, hashCode) else k == hashCode
  }

  /** Deleting removes the key, and with the head of a chain all the keys of its bucket. */
  lemma DelRemoves<V>(t: Table<V>, hashCode: int, k: int)
    requires GoodTable(t)
    ensures k in Contents(Del(t, hashCode)) <==> k in Contents(t) && !Taken(t, hashCode, k)
    ensures k in Contents(Del(t, hashCode)) ==> Contents(Del(t, hashCode))[k] == Contents(t)[k]
  {
    var p, u := Bucket(t, hashCode), Del(t, hashCode);
    var i := Find(t[p], hashCode);
    DelKeepsGood(t, hashCode);
    AsMapHolds(t, |t|, k);
    AsMapHolds(u, |u|, k);
    assert GoodChain(t[p], p, |t|);
    ChainMapHolds(t[p], hashCode);
    if 0 < i < |t[p]| {
      EraseFromChain(t[p], i, k);
    }
  }

  lemma GetAfterPut<V>(t: Table<V>, hashCode: int, contain: V, k: int)
    requires GoodTable(t) && Get(t, hashCode).None?
    ensures Get(Put(t, hashCode, contain), k) == if k == hashCode then Some(contain) else Get(t, k)
  {
    PutKeepsGood(t, hashCode, contain);
    PutInsertsIfAbsent(t, hashCode, contain);
    GetIsLookup(t, k);
    GetIsLookup(t, hashCode);
    GetIsLookup(Put(t, hashCode, contain), k);
  }

  lemma GetAfterDel<V>(t: Table<V>, hashCode: int, k: int)
    requires GoodTable(t)
    ensures Get(Del(t, hashCode), k) == if Taken(t, hashCode, k) then None else Get(t, k)
  {
    DelKeepsGood(t, hashCode);
    DelRemoves(t, hashCode, k);
    GetIsLookup(t, k);
    GetIsLookup(Del(t, hashCode), k);
  }

  /** A head without successors has its bucket to itself. */
  lemma LoneHead<V>(t: Table<V>, hashCode: int, k: int)
    requires GoodTable(t) && DeletesHead(t, hashCode) && |t[Bucket(t, hashCode)]| == 1
    requires k in Contents(t) && Bucket(t, k) == Bucket(t, hashCode)
    ensures k == hashCode
  {
    AsMapHolds(t, |t|, k);
    assert GoodChain(t[Bucket(t, k)], Bucket(t, k), |t|);
    ChainMapHolds(t[Bucket(t, k)], k);
  }

  /** A successor of a deleted head is lost. */
  lemma SecondIsLost<V>(t: Table<V>, hashCode: int)
    requires GoodTable(t) && DeletesHead(t, hashCode) && |t[Bucket(t, hashCode)]| > 1
    ensures var k := t[Bucket(t, hashCode)][1].0; k != hashCode && k in Contents(t) && k !in Contents(Del(t, hashCode))
  {
    var p := Bucket(t, hashCode);
    var k := t[p][1].0;
    assert GoodChain(t[p], p, |t|);
    AsMapHolds(t, |t|, k);
    ChainMapHolds(t[p], k);
    assert Find(t[p], k) <= 1;
    DelRemoves(t, hashCode, k);
  }

  /** So deletion is right exactly when it is not the head of a longer chain that goes. */
  lemma DelIsRemovalIff<V>(t: Table<V>, hashCode: int)
    requires GoodTable(t)
    ensures Contents(Del(t, hashCode)) == Contents(t) - {hashCode} <==>
            !(DeletesHead(t, hashCode) && |t[Bucket(t, hashCode)]| > 1)
  {
    if DeletesHead(t, hashCode) && |t[Bucket(t, hashCode)]| > 1 {
      SecondIsLost(t, hashCode);
    } else {
      var before, after := Contents(t), Contents(Del(t, hashCode));
      forall k
        ensures k in after <==> k in before - {hashCode}
        ensures k in after ==> after[k] == before[k]
      {
        DelRemoves(t, hashCode, k);
        if k in before && k != hashCode && Taken(t, hashCode, k) {
          LoneHead(t, hashCode, k);
        }
      }
      assert after == before - {hashCode};
    }
  }

  // ----- the iterator -----

  datatype Cursor = At(bucket: nat, i: nat) | End

  /** The first non-empty bucket from `n` on. */
  function FirstFrom<V>(t: Table<V>, n: nat): Cursor
    requires n <= |t|
    decreases |t| - n
  {
    if n == |t| then End else if t[n] != [] then At(n, 0) else FirstFrom(t, n + 1)
  }

  predicate InTable<V>(t: Table<V>, c: Cursor) {
    c.At? ==> c.bucket < |t| && c.i < |t[c.bucket]|
  }

  /** `add_hash_iterator`. */
  function Advance<V>(t: Table<V>, c: Cursor): Cursor
    requires InTable(t, c)
  {
    if c.End? then End
    else if c.i + 1 < |t[c.bucket]| then At(c.bucket, c.i + 1)
    else FirstFrom(t, c.bucket + 1)
  }

  /** All entries, bucket after bucket, from a bucket on. */
  function Flatten<V>(t: Table<V>, n: nat): seq<Entry<V>>
    requires n <= |t|
    decreases |t| - n
  {
    if n == |t| then [] else t[n] + Flatten(t, n + 1)
  }

  /** What is still to be visited. */
  function Remaining<V>(t: Table<V>, c: Cursor): seq<Entry<V>>
    requires InTable(t, c)
  {
    if c.End? then [] else t[c.bucket][c.i..] + Flatten(t, c.bucket + 1)
  }

  lemma {:induction false} FirstFromStarts<V>(t: Table<V>, n: nat)
    requires n <= |t|
    ensures InTable(t, FirstFrom(t, n)) && Remaining(t, FirstFrom(t, n)) == Flatten(t, n)
    decreases |t| - n
  {
    if n < |t| {
      if t[n] != [] {
        assert t[n][0..] == t[n];
      } else {
        FirstFromStarts(t, n + 1);
        assert t[n] + Flatten(t, n + 1) == Flatten(t, n + 1);
      }
    }
  }

  lemma PassesInChain<V>(t: Table<V>, c: Cursor)
    requires InTable(t, c) && c.At? && c.i + 1 < |t[c.bucket]|
    ensures Remaining(t, c) == [t[c.bucket][c.i]] + Remaining(t, At(c.bucket, c.i + 1))
  {
    var chain := t[c.bucket];
    assert chain[c.i..] == [chain[c.i]] + chain[c.i + 1..];
  }

  lemma PassesToNextBucket<V>(t: Table<V>, c: Cursor, n: nat)
    requires InTable(t, c) && c.At? && c.i + 1 == |t[c.bucket]| && n == c.bucket + 1
    ensures Remaining(t, c) == [t[c.bucket][c.i]] + Flatten(t, n)
  {
    var chain := t[c.bucket];
    assert chain[c.i..] == [chain[c.i]];
  }

  /** Each step of the iterator passes exactly the entry it stands on; with the start, it visits every entry exactly once,
      bucket after bucket. */
  lemma IteratorPassesOne<V>(t: Table<V>, c: Cursor)
    requires InTable(t, c) && c.At?
    ensures InTable(t, Advance(t, c))
    ensures Remaining(t, c) == [t[c.bucket][c.i]] + Remaining(t, Advance(t, c))
  {
    if c.i + 1 < |t[c.bucket]| {
      PassesInChain(t, c);
    } else {
      var n := c.bucket + 1;
      PassesToNextBucket(t, c, n);
      FirstFromStarts(t, n);
    }
  }

  /** What a walk visits from a cursor to the end. */
  function Visits<V>(t: Table<V>, c: Cursor): seq<Entry<V>>
    requires InTable(t, c)
    decreases |Remaining(t, c)|
  {
    if c.End? then [] else (
      IteratorPassesOne(t, c);
      [t[c.bucket][c.i]] + Visits(t, Advance(t, c)))
  }

  lemma {:induction false} VisitsRemaining<V>(t: Table<V>, c: Cursor)
    requires InTable(t, c)
    ensures Visits(t, c) == Remaining(t, c)
    decreases |Remaining(t, c)|
  {
    if c.At? {
      IteratorPassesOne(t, c);
      VisitsRemaining(t, Advance(t, c));
    }
  }

  /** A whole walk visits every entry of the table, each once, bucket after bucket. */
  lemma WalkVisitsEverything<V>(t: Table<V>)
    ensures InTable(t, FirstFrom(t, 0)) && Visits(t, FirstFrom(t, 0)) == Flatten(t, 0)
  {
    FirstFromStarts(t, 0);
    VisitsRemaining(t, FirstFrom(t, 0));
  }

  /** The entries of a bucket are what the map holds for its keys. */
  lemma InChainIff<V>(t: Table<V>, p: nat, e: Entry<V>)
    requires GoodTable(t) && p < |t|
    ensures e in t[p] <==> Bucket(t, e.0) == p && Get(t, e.0) == Some(e.1)
  {
    assert GoodChain(t[p], p, |t|);
    if i :| 0 <= i < |t[p]| && t[p][i] == e {
      assert Find(t[p], e.0) == i;
    }
  }

  lemma {:induction false} FlattenHolds<V>(t: Table<V>, n: nat, e: Entry<V>)
    requires GoodTable(t) && n <= |t|
    ensures e in Flatten(t, n) <==> n <= Bucket(t, e.0) && Get(t, e.0) == Some(e.1)
    decreases |t| - n
  {
    if n < |t| {
      FlattenHolds(t, n + 1, e);
      InChainIff(t, n, e);
    }
  }

  lemma {:induction false} FlattenIsDistinct<V>(t: Table<V>, n: nat)
    requires GoodTable(t) && n <= |t|
    ensures DistinctKeys(Flatten(t, n))
    decreases |t| - n
  {
    if n < |t| {
      FlattenIsDistinct(t, n + 1);
      assert GoodChain(t[n], n, |t|);
      var rest := Flatten(t, n + 1);
      forall i, j | 0 <= i < |t[n]| && 0 <= j < |rest|
        ensures t[n][i].0 != rest[j].0
      {
        assert rest[j] in rest;
        FlattenHolds(t, n + 1, rest[j]);
      }
    }
  }

  /** The walk of a good table meets each entry of the map, nothing else, and none twice. */
  lemma WalkIsTheMap<V>(t: Table<V>)
    requires GoodTable(t)
    ensures InTable(t, FirstFrom(t, 0))
    ensures DistinctKeys(Visits(t, FirstFrom(t, 0)))
    ensures forall e :: e in Visits(t, FirstFrom(t, 0)) <==> e.0 in Contents(t) && Contents(t)[e.0] == e.1
  {
    WalkVisitsEverything(t);
    FlattenIsDistinct(t, 0);
    forall e
      ensures e in Flatten(t, 0) <==> e.0 in Contents(t) && Contents(t)[e.0] == e.1
    {
      FlattenHolds(t, 0, e);
      GetIsLookup(t, e.0);
    }
  }
}
