/** The hash as the source builds it: an array of linked chains, changed in place. */
module ChainedHash {
  import opened Sequences
  import opened HashTable

  class HashNode<V> {
    const contain: V
    const hashCode: int
    var next: HashNode?<V>

    constructor (contain: V, hashCode: int)
      ensures this.contain == contain && this.hashCode == hashCode && next == null
    {
      this.contain, this.hashCode, next := contain, hashCode, null;
    }
  }

  class Hash<V> {
    var node: array?<HashNode?<V>>
    var n: int
    /** The nodes of each bucket, in order. */
    ghost var chains: seq<seq<HashNode<V>>>
    ghost var Repr: set<object>

    ghost function View(): (t: Table<V>)
      reads this
      ensures |t| == |chains| && forall p :: 0 <= p < |t| ==> |t[p]| == |chains[p]|
      ensures forall p, i :: 0 <= p < |t| && 0 <= i < |t[p]| ==> t[p][i] == (chains[p][i].hashCode, chains[p][i].contain)
    {
      seq(|chains|, p requires 0 <= p < |chains| reads this => EntriesOf(chains[p]))
    }

    static ghost function EntriesOf(chain: seq<HashNode<V>>): (entries: seq<Entry<V>>)
      ensures |entries| == |chain|
      ensures forall i :: 0 <= i < |chain| ==> entries[i] == (chain[i].hashCode, chain[i].contain)
    {
      seq(|chain|, i requires 0 <= i < |chain| => (chain[i].hashCode, chain[i].contain))
    }

    static ghost function NodeAt(chain: seq<HashNode<V>>, i: int): HashNode?<V> {
      if 0 <= i < |chain| then chain[i] else null
    }

    static ghost function Successor(chain: seq<HashNode<V>>, i: int): HashNode?<V> {
      if 0 <= i + 1 < |chain| then chain[i + 1] else null
    }

    /** The pointers of bucket `p` run through its chain. */
    ghost predicate Linked(p: nat)
      requires node != null && p < node.Length && p < |chains|
      reads this, node, chains[p]
    {
      && node[p] == (if chains[p] == [] then null else chains[p][0])
      && forall i :: 0 <= i < |chains[p]| ==>
           chains[p][i].next == Successor(chains[p], i)
    }

    ghost predicate Valid()
      reads this, Repr
    {
      && this in Repr && node != null && node in Repr
      && n == node.Length == |chains| && GoodTable(View())
      && (forall p, i :: 0 <= p < |chains| && 0 <= i < |chains[p]| ==> chains[p][i] in Repr)
      && forall p :: 0 <= p < |chains| ==> Linked(p)
    }

    constructor ()
      ensures node == null && n == 0
    {
      node, n, chains, Repr := null, 0, [], {};
    }

    /** `init_hash`; a hash that has its buckets, or a size that is not positive, is refused. */
    method Init(size: int) returns (suc: bool)
      modifies this
      ensures suc <==> size > 0 && old(node) == null
      ensures !suc ==> node == old(node) && n == old(n) && chains == old(chains) && Repr == old(Repr)
      ensures suc ==> Valid() && fresh(Repr - {this}) && View() == seq(size, _ => [])
    {
      if size <= 0 || node != null {
        return false;
      }
      node := new HashNode?<V>[size](_ => null);
      n := size;
      chains := seq(size, _ => []);
      Repr := {this, node};
      return true;
    }

    method Position(hashCode: int) returns (pos: nat)
      requires Valid()
      ensures pos == Bucket(View(), hashCode)
    {
      PositionIsResidue(hashCode, n);
      var r := CRemainder(hashCode, n);
      if r < 0 {
        r := n + r;
      }
      pos := r;
    }

    /** `get_from_hash`. */
    method GetFromHash(hashCode: int) returns (found: Option<V>)
      requires Valid()
      ensures found == Get(View(), hashCode)
    {
      var pos := Position(hashCode);
      var x := node[pos];
      ghost var i := 0;
      ghost var chain := chains[pos];
      assert Linked(pos) && View()[pos] == EntriesOf(chain);
      while x != null
        invariant i <= |chain| && x == (if i < |chain| then chain[i] else null)
        invariant forall j :: 0 <= j < i ==> chain[j].hashCode != hashCode
        decreases |chain| - i
      {
        if x.hashCode == hashCode {
          FoundAt(chain, hashCode, i);
          return Some(x.contain);
        }
        assert Linked(pos) && x == chains[pos][i];
        x := x.next;
        i := i + 1;
      }
      FoundAt(chain, hashCode, i);
      return None;
    }

    /** `put_into_hash`. */
    method PutIntoHash(contain: V, hashCode: int) returns (suc: bool)
      requires Valid()
      modifies Repr
      ensures Valid() && fresh(Repr - old(Repr)) && node == old(node)
      ensures View() == Put(old(View()), hashCode, contain)
      ensures suc <==> Get(old(View()), hashCode).None?
    {
      var pos := Position(hashCode);
      PutKeepsGood(View(), hashCode, contain);
      assert Linked(pos);
      if node[pos] == null {
        assert View()[pos] + [(hashCode, contain)] == [(hashCode, contain)];
        MakeHead(pos, contain, hashCode);
        return true;
      }
      var last := LastUnlessFound(pos, hashCode);
      assert View()[pos] == EntriesOf(chains[pos]);
      if last == null {
        return false;
      }
      LinkBehind(pos, last, contain, hashCode);
      return true;
    }

    /** What a walk along the nodes has found is what `Find` finds in the entries. */
    static lemma FoundAt(chain: seq<HashNode<V>>, hashCode: int, i: nat)
      requires i <= |chain| && forall j :: 0 <= j < i ==> chain[j].hashCode != hashCode
      requires i < |chain| ==> chain[i].hashCode == hashCode
      ensures Find(EntriesOf(chain), hashCode) == i
    {
      assert forall j :: 0 <= j < i ==> EntriesOf(chain)[j].0 != hashCode;
      assert i < |chain| ==> EntriesOf(chain)[i].0 == hashCode;
    }

    /** The loop along a chain that is not empty; it stops early at a node with the hash code. */
    method LastUnlessFound(pos: nat, hashCode: int) returns (last: HashNode?<V>)
      requires node != null && pos < node.Length && pos < |chains| && Linked(pos) && chains[pos] != []
      ensures last == null <==> Find(EntriesOf(chains[pos]), hashCode) < |chains[pos]|
      ensures last != null ==> last == chains[pos][|chains[pos]| - 1]
    {
      ghost var chain := chains[pos];
      assert Linked(pos);
      var x := node[pos];
      ghost var i := 0;
      while x.next != null
        invariant i < |chain| && x == chain[i]
        invariant forall j :: 0 <= j < i ==> chain[j].hashCode != hashCode
        decreases |chain| - i
      {
        if x.hashCode == hashCode {
          FoundAt(chain, hashCode, i);
          return null;
        }
        assert Linked(pos) && x == chains[pos][i];
        x := x.next;
        i := i + 1;
      }
      assert Linked(pos) && x == chains[pos][i];
      if x.hashCode == hashCode {
        FoundAt(chain, hashCode, i);
        return null;
      }
      FoundAt(chain, hashCode, i + 1);
      return x;
    }

    /** Makes a new node the head of an empty chain. */
    method MakeHead(pos: nat, contain: V, hashCode: int)
      requires Valid() && pos < n && chains[pos] == []
      requires GoodTable(View()[pos := [(hashCode, contain)]])
      modifies this`chains, this`Repr, node
      ensures Valid() && fresh(Repr - old(Repr)) && node == old(node)
      ensures View() == old(View())[pos := [(hashCode, contain)]]
    {
      ghost var before := chains;
      var x := new HashNode(contain, hashCode);
      node[pos] := x;
      chains := chains[pos := [x]];
      Repr := Repr + {x};
      assert EntriesOf(chains[pos]) == [(hashCode, contain)];
      assert View() == old(View())[pos := [(hashCode, contain)]];
      forall p | 0 <= p < |chains|
        ensures Linked(p)
      {
        assert old(Linked(p)) && (p != pos ==> chains[p] == before[p]);
      }
    }

    /** Links a new node behind `last`, the end of a chain. */
    method LinkBehind(pos: nat, last: HashNode<V>, contain: V, hashCode: int)
      requires Valid() && pos < n && chains[pos] != [] && last == chains[pos][|chains[pos]| - 1]
      requires GoodTable(View()[pos := View()[pos] + [(hashCode, contain)]])
      modifies this`chains, this`Repr, last
      ensures Valid() && fresh(Repr - old(Repr)) && node == old(node)
      ensures View() == old(View())[pos := old(View())[pos] + [(hashCode, contain)]]
    {
      ghost var before := chains;
      OnlyPlaceOf(pos, |chains[pos]| - 1);
      assert Linked(pos);
      var x := new HashNode(contain, hashCode);
      last.next := x;
      chains := chains[pos := chains[pos] + [x]];
      Repr := Repr + {x};
      assert EntriesOf(chains[pos]) == EntriesOf(before[pos]) + [(hashCode, contain)];
      assert View() == old(View())[pos := old(View())[pos] + [(hashCode, contain)]];
      forall p | 0 <= p < |chains|
        ensures Linked(p)
      {
        assert old(Linked(p)) && (p != pos ==> chains[p] == before[p]);
      }
    }

    /** A node stands at one place only, since its hash code decides the bucket and is unique there. */
    lemma OnlyPlaceOf(p: nat, i: nat)
      requires Valid() && p < |chains| && i < |chains[p]|
      ensures forall q, j :: 0 <= q < |chains| && 0 <= j < |chains[q]| && chains[q][j] == chains[p][i] ==> q == p && j == i
    {
      forall q, j | 0 <= q < |chains| && 0 <= j < |chains[q]| && chains[q][j] == chains[p][i]
        ensures q == p && j == i
      {
        assert GoodChain(View()[p], p, n) && GoodChain(View()[q], q, n);
        assert View()[p][i].0 == View()[q][j].0;
      }
    }

    static ghost predicate InFrontOf(x: HashNode<V>, hashCode: int)
      reads x
    {
      x.next != null && x.next.hashCode == hashCode
    }

    /** `del_from_hash`: a node inside the chain is unlinked, but the head takes its bucket with it.
        Only the node in front of the deleted one gets another successor. */
    method DelFromHash(hashCode: int) returns (found: Option<V>)
      requires Valid()
      modifies Repr
      ensures Valid() && Repr == old(Repr) && node == old(node)
      ensures View() == Del(old(View()), hashCode)
      ensures found == Get(old(View()), hashCode)
      ensures forall x: HashNode<V> :: x in Repr && !old(InFrontOf(x, hashCode)) ==> x.next == old(x.next)
    {
      var pos := Position(hashCode);
      var pre, x;
      ghost var i;
      assert Linked(pos) && View()[pos] == EntriesOf(chains[pos]);
      pre, x, i := Search(pos, hashCode);
      FoundAt(chains[pos], hashCode, i);
      if x == null {
        return None;
      }
      Detach(pos, pre, x, i);
      return Some(x.contain);
    }

    /** The loop along the chain, with the node before the one it stands at. */
    method Search(pos: nat, hashCode: int) returns (pre: HashNode?<V>, x: HashNode?<V>, ghost i: nat)
      requires node != null && pos < node.Length && pos < |chains| && Linked(pos)
      ensures i <= |chains[pos]| && x == NodeAt(chains[pos], i) && pre == NodeAt(chains[pos], i - 1)
      ensures forall j :: 0 <= j < i ==> chains[pos][j].hashCode != hashCode
      ensures i < |chains[pos]| ==> chains[pos][i].hashCode == hashCode
    {
      x := node[pos];
      pre := null;
      i := 0;
      ghost var chain := chains[pos];
      assert Linked(pos);
      while x != null && x.hashCode != hashCode
        invariant i <= |chain| && x == NodeAt(chain, i) && pre == NodeAt(chain, i - 1)
        invariant forall j :: 0 <= j < i ==> chain[j].hashCode != hashCode
        decreases |chain| - i
      {
        assert chain[i].next == Successor(chain, i);
        pre := x;
        x := x.next;
        i := i + 1;
      }
    }

    /** Takes the node at place `i` out of its chain, as far as the source does. */
    method Detach(pos: nat, pre: HashNode?<V>, x: HashNode<V>, ghost i: nat)
      requires Valid() && pos < n && i < |chains[pos]| && chains[pos][i] == x
      requires pre == (if i == 0 then null else chains[pos][i - 1])
      requires pos == Bucket(View(), x.hashCode) && i == Find(View()[pos], x.hashCode)
      modifies Repr
      ensures Valid() && Repr == old(Repr) && node == old(node) && n == old(n)
      ensures View() == Del(old(View()), x.hashCode)
      ensures forall y: HashNode<V> :: y in Repr && !old(InFrontOf(y, x.hashCode)) ==> y.next == old(y.next)
    {
      assert Linked(pos);
      if pre != null {
        Unlink(pos, pre, x, i);
      } else {
        EmptyBucket(pos);
      }
    }

    method EmptyBucket(pos: nat)
      requires Valid() && pos < n
      modifies this`chains, node
      ensures Valid() && View() == old(View())[pos := []]
    {
      ghost var before, t := chains, View();
      node[pos] := null;
      chains := chains[pos := []];
      assert View() == t[pos := []];
      forall p | 0 <= p < |chains|
        ensures Linked(p) && GoodChain(View()[p], p, n)
      {
        assert GoodChain(t[p], p, n) && old(Linked(p));
        assert p != pos ==> chains[p] == before[p] && View()[p] == t[p];
      }
    }

    method Unlink(pos: nat, pre: HashNode<V>, x: HashNode<V>, ghost i: nat)
      requires Valid() && pos < n && 0 < i < |chains[pos]| && chains[pos][i - 1] == pre && chains[pos][i] == x
      modifies this`chains, pre
      ensures Valid() && View() == old(View())[pos := EraseAt(old(View())[pos], i)]
    {
      ghost var before, t := chains, View();
      OnlyPlaceOf(pos, i - 1);
      EraseKeepsGood(t, pos, i);
      assert Linked(pos);
      pre.next := x.next;
      chains := chains[pos := EraseAt(chains[pos], i)];
      EntriesOfErased(before[pos], i);
      assert View() == t[pos := EraseAt(t[pos], i)];
      ErasedIsLinked(before[pos], i);
      assert Linked(pos);
      forall p | 0 <= p < |chains| && p != pos
        ensures Linked(p)
      {
        assert old(Linked(p)) && chains[p] == before[p];
      }
    }

    static lemma EntriesOfErased(chain: seq<HashNode<V>>, i: nat)
      requires i < |chain|
      ensures EntriesOf(EraseAt(chain, i)) == EraseAt(EntriesOf(chain), i)
    {
    }

    lemma ErasedIsLinked(chain: seq<HashNode<V>>, i: nat)
      requires 0 < i < |chain| && chain[i - 1].next == Successor(chain, i)
      requires forall k :: 0 <= k < |chain| && k != i - 1 ==> chain[k].next == Successor(chain, k)
      ensures var rest := EraseAt(chain, i);
        forall k :: 0 <= k < |rest| ==> rest[k].next == Successor(rest, k)
    {
      var rest := EraseAt(chain, i);
      forall k | 0 <= k < |rest|
        ensures rest[k].next == Successor(rest, k)
      {
        assert rest[k] == chain[if k < i then k else k + 1];
        assert k + 1 < |rest| ==> rest[k + 1] == chain[if k + 1 < i then k + 1 else k + 2];
      }
    }
  }

  /** A walk over all nodes of a hash that does not change meanwhile. */
  class HashIterator<V> {
    var hash: Hash<V>
    var n: int
    var node: HashNode?<V>
    /** The index of `node` in its chain. */
    ghost var i: nat

    ghost predicate Valid()
      reads this, hash, hash.Repr
    {
      && this !in hash.Repr && hash.Valid() && 0 <= n <= hash.n
      && (n < hash.n ==> i < |hash.chains[n]| && node == hash.chains[n][i])
    }

    ghost function View(): (c: Cursor)
      requires Valid()
      reads this, hash, hash.Repr
      ensures InTable(hash.View(), c)
    {
      if n < hash.n then At(n, i) else End
    }

    /** `init_hash_iterator`. */
    constructor (h: Hash<V>)
      requires h.Valid()
      ensures Valid() && hash == h && View() == FirstFrom(h.View(), 0)
    {
      hash, node, i := h, null, 0;
      new;
      Settle(0);
    }

    /** `add_hash_iterator`. */
    method Add()
      requires Valid()
      modifies this
      ensures Valid() && hash == old(hash) && View() == Advance(hash.View(), old(View()))
    {
      if n == hash.n {
        return;
      }
      var more := HasNext();
      if more {
        Follow();
      } else {
        Settle(n + 1);
      }
    }

    method HasNext() returns (more: bool)
      requires Valid() && n < hash.n
      ensures more <==> i + 1 < |hash.chains[n]|
    {
      assert hash.Linked(n);
      more := node.next != null;
    }

    /** Inside a chain, the next node is next. */
    method Follow()
      requires Valid() && n < hash.n && i + 1 < |hash.chains[n]|
      modifies this
      ensures Valid() && hash == old(hash) && View() == At(old(n), old(i) + 1)
    {
      assert hash.Linked(n);
      node := node.next;
      i := i + 1;
    }

    /** The loop over the buckets that both share. */
    method FirstBucket(from: int) returns (k: int)
      requires hash.Valid() && 0 <= from <= hash.n
      ensures from <= k <= hash.n && (k < hash.n ==> hash.chains[k] != [])
      ensures FirstFrom(hash.View(), from) == if k < hash.n then At(k, 0) else End
    {
      k := from;
      while k < hash.n && hash.node[k] == null
        invariant from <= k <= hash.n
        invariant FirstFrom(hash.View(), k) == FirstFrom(hash.View(), from)
      {
        assert hash.Linked(k);
        k := k + 1;
      }
      assert k < hash.n ==> hash.Linked(k);
    }

    method Settle(from: int)
      requires this !in hash.Repr && hash.Valid() && 0 <= from <= hash.n
      modifies this
      ensures Valid() && hash == old(hash) && View() == FirstFrom(hash.View(), from)
    {
      var k := FirstBucket(from);
      if k < hash.n {
        StandAt(k);
      } else {
        n, node, i := k, null, 0;
      }
    }

    method StandAt(k: nat)
      requires this !in hash.Repr && hash.Valid() && k < hash.n && hash.chains[k] != []
      modifies this
      ensures Valid() && hash == old(hash) && View() == At(k, 0)
    {
      assert hash.Linked(k);
      n, node, i := k, hash.node[k], 0;
    }
  }
}
