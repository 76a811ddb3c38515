/** The order in which a miner tries candidate strings: a queue whose front is replaced by its 256 extensions. */
module ShortlexSearch {

  type Byte = b: int | 0 <= b < 256
  type Bytes = seq<Byte>

  /** Above this length the queue is no longer extended. */
  const TRIAL_CAP := 10000000

  /** The candidates of one job so far: those tried, those queued, and whether the cap was ever met. */
  datatype Search = Search(tried: seq<Bytes>, trial: seq<Bytes>, capped: bool)

  function OneByteStrings(from: nat, to: nat): seq<Bytes>
    requires from <= to <= 256
  {
    seq(to - from, i requires 0 <= i < to - from => [from + i])
  }

  function Extensions(out: Bytes): seq<Bytes> {
    seq(256, i requires 0 <= i < 256 => out + [i])
  }

  /** The queue after its front has been tried without success. */
  function NextTrial(trial: seq<Bytes>): seq<Bytes>
    requires trial != []
  {
    if |trial| - 1 > TRIAL_CAP then trial[1..] else trial[1..] + Extensions(trial[0])
  }

  function StartSearch(from: nat, to: nat): Search
    requires from <= to <= 256
  {
    Search([], OneByteStrings(from, to), false)
  }

  function TryFront(s: Search): Search
    requires s.trial != []
  {
    Search(s.tried + [s.trial[0]], NextTrial(s.trial), s.capped || |s.trial| - 1 > TRIAL_CAP)
  }

  // ----- the order -----

  ghost predicate LexLess(a: Bytes, b: Bytes)
    requires |a| == |b|
  {
    exists k :: 0 <= k < |a| && a[..k] == b[..k] && a[k] < b[k]
  }

  /** Shorter first, and then by the first byte that differs. */
  ghost predicate Less(a: Bytes, b: Bytes) {
    |a| < |b| || (|a| == |b| && LexLess(a, b))
  }

  ghost predicate Increasing(xs: seq<Bytes>) {
    forall i, j :: 0 <= i < j < |xs| ==> Less(xs[i], xs[j])
  }

  lemma LessIsIrreflexive(a: Bytes)
    ensures !Less(a, a)
  {
  }

  lemma LessIsTransitive(a: Bytes, b: Bytes, c: Bytes)
    requires Less(a, b) && Less(b, c)
    ensures Less(a, c)
  {
    if |a| == |b| == |c| {
      var i :| 0 <= i < |a| && a[..i] == b[..i] && a[i] < b[i];
      var j :| 0 <= j < |b| && b[..j] == c[..j] && b[j] < c[j];
      var k := if i < j then i else j;
      assert a[..k] == a[..i][..k] && b[..k] == b[..i][..k] == b[..j][..k] && c[..k] == c[..j][..k];
      assert k < j ==> b[k] == b[..j][k] == c[..j][k] == c[k];
      assert k < i ==> a[k] == a[..i][k] == b[..i][k] == b[k];
    }
  }

  lemma ExtensionKeepsLess(a: Bytes, b: Bytes, x: Byte, y: Byte)
    requires Less(a, b)
    ensures Less(a + [x], b + [y])
  {
    if |a| == |b| {
      var k :| 0 <= k < |a| && a[..k] == b[..k] && a[k] < b[k];
      assert (a + [x])[..k] == a[..k] && (b + [y])[..k] == b[..k];
    }
  }

  lemma SiblingsAreOrdered(a: Bytes, x: Byte, y: Byte)
    requires x < y
    ensures Less(a + [x], a + [y])
  {
    assert (a + [x])[..|a|] == (a + [y])[..|a|];
  }

  // ----- the invariant of the search -----

  /** `q` or an extension of it. */
  predicate Extends(s: Bytes, q: Bytes) {
    q <= s
  }

  /** The strings that belong to a miner: non-empty, with the first byte in its interval. */
  predicate InTree(s: Bytes, from: nat, to: nat) {
    s != [] && from <= s[0] < to
  }

  ghost predicate Ordered(s: Search) {
    && s.trial != []
    && Increasing(s.tried + s.trial)
    && forall i :: 0 <= i < |s.trial| ==> Less(s.trial[i], s.trial[0] + [0])
  }

  ghost predicate Complete(s: Search, from: nat, to: nat) {
    forall c :: InTree(c, from, to) ==> c in s.tried || exists i :: 0 <= i < |s.trial| && Extends(c, s.trial[i])
  }

  ghost predicate WithinTree(s: Search, from: nat, to: nat) {
    forall i :: 0 <= i < |s.tried + s.trial| ==> InTree((s.tried + s.trial)[i], from, to)
  }

  ghost predicate Good(s: Search, from: nat, to: nat) {
    Ordered(s) && WithinTree(s, from, to) && |s.trial| <= TRIAL_CAP + 256 && (!s.capped ==> Complete(s, from, to))
  }

  lemma OneByteStringsIncrease(x: Byte, y: Byte)
    requires x < y
    ensures Less([x], [y])
  {
    SiblingsAreOrdered([], x, y);
    assert [] + [x] == [x] && [] + [y] == [y];
  }

  lemma StartIsOrdered(from: nat, to: nat)
    requires from < to <= 256
    ensures Ordered(StartSearch(from, to))
  {
    var s := StartSearch(from, to);
    forall i, j | 0 <= i < j < |s.trial|
      ensures Less(s.trial[i], s.trial[j])
    {
      OneByteStringsIncrease(from + i, from + j);
    }
    assert s.tried + s.trial == s.trial;
  }

  lemma StartIsComplete(from: nat, to: nat)
    requires from < to <= 256
    ensures Complete(StartSearch(from, to), from, to)
  {
    var s := StartSearch(from, to);
    forall c | InTree(c, from, to)
      ensures exists i :: 0 <= i < |s.trial| && Extends(c, s.trial[i])
    {
      var k := c[0] - from;
      assert s.trial[k] == [c[0]];
      assert Extends(c, s.trial[k]);
    }
  }

  lemma StartIsGood(from: nat, to: nat)
    requires from < to <= 256
    ensures Good(StartSearch(from, to), from, to)
  {
    StartIsOrdered(from, to);
    StartIsComplete(from, to);
    var s := StartSearch(from, to);
    assert s.tried + s.trial == s.trial;
  }

  lemma BeforeExtensions(s: Search, i: nat, x: Byte)
    requires Ordered(s) && i < |s.tried + s.trial|
    ensures Less((s.tried + s.trial)[i], s.trial[0] + [x])
  {
    var a, out := (s.tried + s.trial)[i], s.trial[0];
    if i < |s.tried| {
      assert out == (s.tried + s.trial)[|s.tried|];
      LessIsTransitive(a, out, out + [x]);
    } else if x > 0 {
      SiblingsAreOrdered(out, 0, x);
      assert a == s.trial[i - |s.tried|];
      LessIsTransitive(a, out + [0], out + [x]);
    }
  }

  lemma NewFrontIsLater(s: Search)
    requires Ordered(s)
    ensures NextTrial(s.trial) != [] && Less(s.trial[0], NextTrial(s.trial)[0])
  {
    var n := |s.tried|;
    assert (s.tried + s.trial)[n] == s.trial[0];
    if |s.trial| > 1 {
      assert (s.tried + s.trial)[n + 1] == s.trial[1] == NextTrial(s.trial)[0];
    } else {
      assert NextTrial(s.trial)[0] == s.trial[0] + [0];
    }
  }

  lemma TrialStaysBeforeFrontExtension(s: Search, i: nat)
    requires Ordered(s) && i < |NextTrial(s.trial)|
    ensures NextTrial(s.trial) != [] && Less(NextTrial(s.trial)[i], NextTrial(s.trial)[0] + [0])
  {
    NewFrontIsLater(s);
    var out, next := s.trial[0], NextTrial(s.trial);
    ExtensionKeepsLess(out, next[0], 0, 0);
    if i < |s.trial| - 1 {
      assert next[i] == s.trial[i + 1];
      LessIsTransitive(next[i], out + [0], next[0] + [0]);
    } else {
      ExtensionKeepsLess(out, next[0], i - (|s.trial| - 1), 0);
    }
  }

  lemma TryFrontKeepsOrder(s: Search)
    requires Ordered(s)
    ensures Ordered(TryFront(s))
  {
    var t := TryFront(s);
    var all, ext := s.tried + s.trial, Extensions(s.trial[0]);
    assert t.tried + s.trial[1..] == all;
    forall i | 0 <= i < |t.trial|
      ensures Less(t.trial[i], t.trial[0] + [0])
    {
      TrialStaysBeforeFrontExtension(s, i);
    }
    if |s.trial| - 1 <= TRIAL_CAP {
      assert t.tried + t.trial == all + ext;
      forall i, j | 0 <= i < j < |all + ext|
        ensures Less((all + ext)[i], (all + ext)[j])
      {
        if |all| <= i {
          SiblingsAreOrdered(s.trial[0], i - |all|, j - |all|);
        } else if |all| <= j {
          BeforeExtensions(s, i, j - |all|);
        }
      }
    }
  }

  lemma TryFrontKeepsWithinTree(s: Search, from: nat, to: nat)
    requires s.trial != [] && WithinTree(s, from, to)
    ensures WithinTree(TryFront(s), from, to)
  {
    var t := TryFront(s);
    var all, n := s.tried + s.trial, |s.tried|;
    assert all[n] == s.trial[0];
    forall i | 0 <= i < |t.tried + t.trial|
      ensures InTree((t.tried + t.trial)[i], from, to)
    {
      if i < |all| {
        assert (t.tried + t.trial)[i] == all[i];
      }
    }
  }

  lemma TryFrontKeepsComplete(s: Search, from: nat, to: nat)
    requires s.trial != [] && Complete(s, from, to) && |s.trial| - 1 <= TRIAL_CAP
    ensures Complete(TryFront(s), from, to)
  {
    var t := TryFront(s);
    var out, m := s.trial[0], |s.trial| - 1;
    forall c | InTree(c, from, to) && c !in t.tried
      ensures exists i :: 0 <= i < |t.trial| && Extends(c, t.trial[i])
    {
      assert c !in s.tried;
      var i :| 0 <= i < |s.trial| && Extends(c, s.trial[i]);
      if i > 0 {
        assert t.trial[i - 1] == s.trial[i];
      } else {
        assert c != out by {
          assert t.tried[|s.tried|] == out;
        }
        assert t.trial[m + c[|out|]] == out + [c[|out|]];
        assert Extends(c, t.trial[m + c[|out|]]);
      }
    }
  }

  // ----- the main results -----

  /** The search of one job after `n` candidates; its queue never runs empty. */
  ghost function After(from: nat, to: nat, n: nat): (s: Search)
    requires from < to <= 256
    ensures Good(s, from, to) && |s.tried| == n
  {
    if n == 0 then
      StartIsGood(from, to);
      StartSearch(from, to)
    else
      var s := After(from, to, n - 1);
      TryFrontKeepsOrder(s);
      TryFrontKeepsWithinTree(s, from, to);
      if |s.trial| - 1 <= TRIAL_CAP && !s.capped then
        TryFrontKeepsComplete(s, from, to);
        TryFront(s)
      else TryFront(s)
  }

  /** Even across the cap, the candidates are tried in strictly increasing shortlex order, so none is tried twice; all of
      them belong to the miner; the queue is never empty and stays below its bound. */
  lemma CandidatesIncrease(from: nat, to: nat, n: nat)
    requires from < to <= 256
    ensures var s := After(from, to, n);
      && Increasing(s.tried) && (forall i :: 0 <= i < n ==> InTree(s.tried[i], from, to))
      && 0 < |s.trial| <= TRIAL_CAP + 256
  {
    var s := After(from, to, n);
    assert forall i :: 0 <= i < n ==> s.tried[i] == (s.tried + s.trial)[i];
  }

  /** The cap has been met if and only if the queue was once longer than that behind its front; from then on, and only
      then, the front goes without being replaced by its 256 extensions. */
  lemma {:induction false} CappedIff(from: nat, to: nat, n: nat)
    requires from < to <= 256
    ensures After(from, to, n).capped <==> exists k: nat :: k < n && |After(from, to, k).trial| > 10000001
    ensures n > 0 ==>
              var s, t := After(from, to, n - 1), After(from, to, n);
              && t.tried == s.tried + [s.trial[0]]
              && |t.trial| == |s.trial| - 1 + (if |s.trial| > 10000001 then 0 else 256)
              && t.trial[..|s.trial| - 1] == s.trial[1..]
              && forall b: Byte :: |s.trial| <= 10000001 ==> t.trial[|s.trial| - 1 + b] == s.trial[0] + [b]
  {
    if n > 0 {
      CappedIff(from, to, n - 1);
      var s := After(from, to, n - 1);
      assert After(from, to, n).capped <==> s.capped || |s.trial| > 10000001;
    }
  }

  /** Until the cap is first met nothing is skipped: every string of the miner's tree that comes before the next
      candidate has been tried. */
  lemma NothingIsSkipped(from: nat, to: nat, n: nat, c: Bytes)
    requires from < to <= 256 && !After(from, to, n).capped
    requires InTree(c, from, to) && Less(c, After(from, to, n).trial[0])
    ensures c in After(from, to, n).tried
  {
    var s := After(from, to, n);
    if c !in s.tried {
      var i :| 0 <= i < |s.trial| && Extends(c, s.trial[i]);
      NothingQueuedBeforeFront(s, i, c);
      LessIsIrreflexive(c);
      if c != s.trial[0] {
        LessIsTransitive(c, s.trial[0], c);
      }
    }
  }

  lemma NothingQueuedBeforeFront(s: Search, i: nat, c: Bytes)
    requires Ordered(s) && i < |s.trial| && Extends(c, s.trial[i])
    ensures c == s.trial[0] || Less(s.trial[0], c)
  {
    var n := |s.tried|;
    assert (s.tried + s.trial)[n] == s.trial[0] && (s.tried + s.trial)[n + i] == s.trial[i];
    assert i > 0 ==> Less(s.trial[0], s.trial[i]);
  }

  // ----- dividing the first bytes among the miners -----

  datatype Interval = Interval(start: nat, end: nat)

  function IntervalOf(n: nat, ind: nat): Interval
    requires ind < n
  {
    Interval(ind * (256 / n), if ind != n - 1 then (ind + 1) * (256 / n) else 256)
  }

  predicate InCell(n: nat, w: nat, ind: nat, b: int) {
    ind < n && ind * w <= b && (ind == n - 1 || b < (ind + 1) * w)
  }

  lemma {:induction false} SomeCell(n: nat, w: nat, b: nat, from: nat) returns (ind: nat)
    requires from < n && from * w <= b
    ensures InCell(n, w, ind, b)
    decreases n - from
  {
    if from == n - 1 || b < (from + 1) * w {
      ind := from;
    } else {
      ind := SomeCell(n, w, b, from + 1);
    }
  }

  lemma OnlyCell(n: nat, w: nat, b: nat, i: nat, j: nat)
    requires InCell(n, w, i, b) && InCell(n, w, j, b)
    ensures i == j
  {
    if i < j {
      Monotone(i + 1, j, w);
    } else if j < i {
      Monotone(j + 1, i, w);
    }
  }

  /** Each byte is in the interval of exactly one miner. */
  lemma IntervalsPartition(n: nat, b: Byte) returns (ind: nat)
    requires n > 0
    ensures ind < n && IntervalOf(n, ind).start <= b < IntervalOf(n, ind).end
    ensures forall other :: 0 <= other < n && IntervalOf(n, other).start <= b < IntervalOf(n, other).end ==> other == ind
  {
    var w := 256 / n;
    ind := SomeCell(n, w, b, 0);
    forall other | 0 <= other < n && IntervalOf(n, other).start <= b < IntervalOf(n, other).end
      ensures other == ind
    {
      assert InCell(n, w, other, b);
      OnlyCell(n, w, b, ind, other);
    }
  }

  lemma Monotone(a: nat, b: nat, w: nat)
    requires a <= b
    ensures a * w <= b * w
  {
  }

  lemma WidthTimesCount(n: nat)
    requires n > 0
    ensures n * (256 / n) <= 256
  {
  }

  lemma ShareIsRoundedDown(n: nat)
    requires n > 0
    ensures n * (256 / n) <= 256 < n * (256 / n) + n
  {
  }

  /** The intervals follow each other from 0 to 256.  All but the last are of the same size, and the last has what the
      others cannot share equally, which is fewer bytes than there are miners. */
  lemma IntervalsAreEqualShares(n: nat, ind: nat)
    requires ind < n
    ensures IntervalOf(n, 0).start == 0 && IntervalOf(n, n - 1).end == 256
    ensures ind < n - 1 ==> IntervalOf(n, ind).end == IntervalOf(n, ind + 1).start
    ensures ind < n - 1 ==> IntervalOf(n, ind).end - IntervalOf(n, ind).start == IntervalOf(n, 0).end
    ensures n > 1 ==>
              IntervalOf(n, 0).end <= IntervalOf(n, n - 1).end - IntervalOf(n, n - 1).start < IntervalOf(n, 0).end + n
  {
    var w := 256 / n;
    ShareIsRoundedDown(n);
    assert (ind + 1) * w == ind * w + w && (n - 1) * w == n * w - w && 0 * w == 0;
  }

  /** Each non-empty string belongs to the tree of exactly one miner. */
  lemma EachStringHasOneMiner(n: nat, c: Bytes) returns (ind: nat)
    requires n > 0 && c != []
    ensures ind < n && InTree(c, IntervalOf(n, ind).start, IntervalOf(n, ind).end)
    ensures forall other :: 0 <= other < n && InTree(c, IntervalOf(n, other).start, IntervalOf(n, other).end) ==>
              other == ind
  {
    ind := IntervalsPartition(n, c[0]);
  }

  /** Every miner has a first candidate exactly when there are at most 256 of them. */
  lemma IntervalsAreNonEmptyIff(n: nat)
    requires n > 0
    ensures (forall ind :: 0 <= ind < n ==> 0 <= IntervalOf(n, ind).start < IntervalOf(n, ind).end <= 256) <==> n <= 256
  {
    WidthTimesCount(n);
    if n <= 256 {
      forall ind | 0 <= ind < n
        ensures 0 <= IntervalOf(n, ind).start < IntervalOf(n, ind).end <= 256
      {
        Monotone(ind + 1, n, 256 / n);
      }
    } else {
      assert IntervalOf(n, 0).end == 0;
    }
  }

  /** The boss's loop over the miners. */
  method SplitIntervals(n: nat) returns (jobs: seq<Interval>)
    requires n > 0
    ensures |jobs| == n && forall ind :: 0 <= ind < n ==> jobs[ind] == IntervalOf(n, ind)
  {
    var interval := 256 / n;
    jobs := [];
    for ind := 0 to n
      invariant |jobs| == ind && forall j :: 0 <= j < ind ==> jobs[j] == IntervalOf(n, j)
    {
      var start := ind * interval;
      var end;
      if ind != n - 1 {
        end := (ind + 1) * interval;
      } else {
        end := 256;
      }
      jobs := jobs + [Interval(start, end)];
    }
  }
}
