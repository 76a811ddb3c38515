/** How a directory is compared with the files that the last commit recorded. */
module Classifier {
  import opened Sequences
  import opened RecordText

  // ----- the order of names -----

  /** The order of `std::string`. */
  predicate StrLeq(a: string, b: string) {
    a == "" || (b != "" && (a[0] < b[0] || (a[0] == b[0] && StrLeq(a[1..], b[1..]))))
  }

  lemma StrLeqIsTotalOrder(a: string, b: string)
    ensures StrLeq(a, a) && (StrLeq(a, b) || StrLeq(b, a))
    ensures StrLeq(a, b) && StrLeq(b, a) ==> a == b
  {
    if a != "" && b != "" && a[0] == b[0] {
      StrLeqIsTotalOrder(a[1..], b[1..]);
      assert a == [a[0]] + a[1..] && b == [b[0]] + b[1..];
    }
  }

  lemma StrLeqIsTransitive(a: string, b: string, c: string)
    requires StrLeq(a, b) && StrLeq(b, c)
    ensures StrLeq(a, c)
  {
  }

  /** Byte by byte: a prefix comes first, and otherwise whoever has the smaller character where they first differ. */
  ghost predicate Precedes(a: string, b: string) {
    a <= b || exists k :: 0 <= k < |a| && k < |b| && a[..k] == b[..k] && a[k] < b[k]
  }

  lemma {:induction false} StrLeqIff(a: string, b: string)
    ensures StrLeq(a, b) <==> Precedes(a, b)
  {
    if a != "" && b != "" && a[0] == b[0] {
      var c, d := a[1..], b[1..];
      StrLeqIff(c, d);
      assert a == [a[0]] + c && b == [a[0]] + d;
      if k :| 0 <= k < |c| && k < |d| && c[..k] == d[..k] && c[k] < d[k] {
        assert a[..k + 1] == [a[0]] + c[..k] && b[..k + 1] == [a[0]] + d[..k] && a[k + 1] < b[k + 1];
      }
      if k :| 0 <= k < |a| && k < |b| && a[..k] == b[..k] && a[k] < b[k] {
        assert c[..k - 1] == a[..k][1..] && d[..k - 1] == b[..k][1..] && c[k - 1] < d[k - 1];
      }
      assert c <= d <==> a <= b;
    } else if a != "" && b != "" {
      if a[0] < b[0] {
        assert a[..0] == b[..0];
      } else if k :| 0 <= k < |a| && k < |b| && a[..k] == b[..k] && a[k] < b[k] {
        assert k > 0 ==> a[..k][0] == b[..k][0];
      }
    }
  }

  ghost predicate Sorted(names: seq<string>) {
    forall i, j :: 0 <= i < j < |names| ==> StrLeq(names[i], names[j])
  }

  function Names(entries: seq<Entry>): (names: seq<string>)
    ensures |names| == |entries| && forall i :: 0 <= i < |entries| ==> names[i] == entries[i].0
  {
    seq(|entries|, i requires 0 <= i < |entries| => entries[i].0)
  }

  /** As `sort` leaves a directory without repeated names, and as a `map` is walked through. */
  ghost predicate SortedEntries(entries: seq<Entry>) {
    Sorted(Names(entries)) && NoDup(Names(entries))
  }

  ghost predicate IsSorting(names: seq<string>, sorted: seq<string>) {
    Sorted(sorted) && multiset(sorted) == multiset(names)
  }

  lemma HeadIsLeast(names: seq<string>, x: string)
    requires Sorted(names) && x in names
    ensures StrLeq(names[0], x)
  {
    StrLeqIsTotalOrder(x, x);
    var i :| 0 <= i < |names| && names[i] == x;
  }

  lemma TailOfMultiset(names: seq<string>)
    requires names != []
    ensures multiset(names[1..]) == multiset(names) - multiset{names[0]}
  {
    assert names == [names[0]] + names[1..];
  }

  /** Sorting a list that is sorted changes nothing: there is only one sorted arrangement. */
  lemma {:induction false} SortOfSortedIsIdentity(names: seq<string>, sorted: seq<string>)
    requires Sorted(names) && Sorted(sorted) && multiset(names) == multiset(sorted)
    ensures sorted == names
  {
    assert |names| == |multiset(names)| == |multiset(sorted)| == |sorted|;
    if names != [] {
      assert names[0] in multiset(sorted) && sorted[0] in multiset(names);
      HeadIsLeast(sorted, names[0]);
      HeadIsLeast(names, sorted[0]);
      StrLeqIsTotalOrder(names[0], sorted[0]);
      TailOfMultiset(names);
      TailOfMultiset(sorted);
      SortOfSortedIsIdentity(names[1..], sorted[1..]);
    }
  }

  // ----- the two maps -----

  type Files = map<string, string>

  /** `map::insert` keeps what is there. */
  function Insert(m: Files, key: string, value: string): Files {
    if key in m then m else m[key := value]
  }

  /** The file-to-checksum map that is read from a record. */
  function FilesOf(entries: seq<Entry>): Files {
    if entries == [] then map[]
    else Insert(FilesOf(entries[..|entries| - 1]), entries[|entries| - 1].0, entries[|entries| - 1].1)
  }

  /** The checksum-to-file map that is read from a record. */
  function ReFilesOf(entries: seq<Entry>): Files {
    if entries == [] then map[]
    else Insert(ReFilesOf(entries[..|entries| - 1]), entries[|entries| - 1].1, entries[|entries| - 1].0)
  }

  /** With distinct names the map holds exactly the entries. */
  lemma {:induction false} FilesOfHolds(entries: seq<Entry>, name: string, sum: string)
    requires NoDup(Names(entries))
    ensures name in FilesOf(entries) <==> HasName(entries, name)
    ensures (name in FilesOf(entries) && FilesOf(entries)[name] == sum) <==> (name, sum) in entries
  {
    if entries != [] {
      var n := |entries| - 1;
      var init, last := entries[..n], entries[n];
      assert Names(init) == Names(entries)[..n];
      FilesOfHolds(init, name, sum);
      FilesOfHolds(init, last.0, sum);
      assert !HasName(init, last.0) by {
        assert Names(entries)[n] == last.0;
      }
      assert entries == init + [last];
      assert HasName(entries, name) <==> HasName(init, name) || name == last.0 by {
        assert entries[n].0 == last.0;
        if HasName(init, name) {
          var i :| 0 <= i < n && init[i].0 == name;
          assert entries[i].0 == name;
        }
      }
    }
  }

  /** Entry `i` is the first with its checksum. */
  ghost predicate FirstWith(entries: seq<Entry>, i: int, name: string, sum: string) {
    0 <= i < |entries| && entries[i] == (name, sum) && forall j :: 0 <= j < i ==> entries[j].1 != sum
  }

  /** Of the files with a checksum the first in the record is remembered. */
  lemma {:induction false} ReFilesOfHolds(entries: seq<Entry>)
    ensures forall i :: 0 <= i < |entries| ==> entries[i].1 in ReFilesOf(entries)
    ensures forall sum :: sum in ReFilesOf(entries) ==> exists i :: FirstWith(entries, i, ReFilesOf(entries)[sum], sum)
  {
    if entries != [] {
      var n := |entries| - 1;
      var init := entries[..n];
      ReFilesOfHolds(init);
      forall sum | sum in ReFilesOf(entries)
        ensures exists i :: FirstWith(entries, i, ReFilesOf(entries)[sum], sum)
      {
        if sum in ReFilesOf(init) {
          var i :| FirstWith(init, i, ReFilesOf(init)[sum], sum);
          assert FirstWith(entries, i, ReFilesOf(entries)[sum], sum);
        } else {
          assert forall j :: 0 <= j < n ==> entries[j] == init[j];
          assert FirstWith(entries, n, ReFilesOf(entries)[sum], sum);
        }
      }
    }
  }

  // ----- the classifier loop -----

  datatype Scan = Scan(files: Files, reFiles: Files, newFiles: seq<string>, modified: seq<string>,
                       copied: seq<string>, copiedSrc: seq<string>, diff: bool)

  function StartScan(recorded: seq<Entry>): Scan {
    Scan(FilesOf(recorded), ReFilesOf(recorded), [], [], [], [], false)
  }

  function ClassifyOne(s: Scan, e: Entry): Scan {
    var known, seen := e.0 in s.files, e.1 in s.reFiles;
    var t :=
      if !known && !seen then s.(newFiles := s.newFiles + [e.0], diff := true)
      else if !known && seen then
        s.(copied := s.copied + [e.0], copiedSrc := s.copiedSrc + [s.reFiles[e.1]], diff := true)
      else if known && !seen then s.(modified := s.modified + [e.0], diff := true, files := s.files - {e.0})
      else if s.files[e.0] != e.1 then s.(modified := s.modified + [e.0], diff := true, files := s.files - {e.0})
      else s;
    t.(files := Insert(t.files, e.0, e.1), reFiles := Insert(t.reFiles, e.1, e.0))
  }

  function Classify(recorded: seq<Entry>, dir: seq<Entry>): Scan {
    if dir == [] then StartScan(recorded)
    else ClassifyOne(Classify(recorded, dir[..|dir| - 1]), dir[|dir| - 1])
  }

  // ----- what it means -----

  datatype Kind = New | Modified | Copied | Unchanged

  /** What becomes of the directory's file `j`, by what was recorded and the files before it. */
  ghost function KindOf(recorded: seq<Entry>, dir: seq<Entry>, j: nat): Kind
    requires j < |dir|
  {
    var (name, sum) := dir[j];
    if HasName(recorded, name) then
      if (name, sum) in recorded then Unchanged else Modified
    else if HasSum(recorded, |recorded|, sum) || HasSum(dir, j, sum) then Copied
    else New
  }

  /** One of the first `n` entries has the checksum. */
  ghost predicate HasSum(entries: seq<Entry>, n: nat, sum: string)
    requires n <= |entries|
  {
    exists i :: 0 <= i < n && entries[i].1 == sum
  }

  ghost function KindsOf(recorded: seq<Entry>, dir: seq<Entry>): (kinds: seq<Kind>)
    ensures |kinds| == |dir| && forall j :: 0 <= j < |dir| ==> kinds[j] == KindOf(recorded, dir, j)
  {
    seq(|dir|, j requires 0 <= j < |dir| => KindOf(recorded, dir, j))
  }

  /** Of the first `n` names those of one kind, in their order. */
  function Pick(names: seq<string>, kinds: seq<Kind>, n: nat, kind: Kind): seq<string>
    requires n <= |names| == |kinds|
  {
    if n == 0 then []
    else Pick(names, kinds, n - 1, kind) + (if kinds[n - 1] == kind then [names[n - 1]] else [])
  }

  /** The names of one kind, in the order of the directory. */
  ghost function Select(recorded: seq<Entry>, dir: seq<Entry>, n: nat, kind: Kind): seq<string>
    requires n <= |dir|
  {
    Pick(Names(dir), KindsOf(recorded, dir), n, kind)
  }

  /** `src` is where a copy with this checksum is taken to come from: the recorded file with the least name, or else the
      first file of the directory. */
  ghost predicate IsSource(recorded: seq<Entry>, dir: seq<Entry>, j: nat, sum: string, src: string)
    requires j <= |dir|
  {
    if HasSum(recorded, |recorded|, sum) then
      (src, sum) in recorded && forall e :: e in recorded && e.1 == sum ==> StrLeq(src, e.0)
    else
      exists i :: 0 <= i < j && dir[i] == (src, sum) && !HasSum(dir, i, sum)
  }

  /** The checksum-to-file map after the first `n` files of the directory. */
  ghost predicate SumsSeen(recorded: seq<Entry>, dir: seq<Entry>, n: nat, reFiles: Files)
    requires n <= |dir|
  {
    && (forall sum :: sum in reFiles <==> HasSum(recorded, |recorded|, sum) || HasSum(dir, n, sum))
    && (forall sum :: sum in reFiles ==> IsSource(recorded, dir, n, sum, reFiles[sum]))
  }

  lemma StartSeesRecord(recorded: seq<Entry>, dir: seq<Entry>)
    requires SortedEntries(recorded)
    ensures SumsSeen(recorded, dir, 0, ReFilesOf(recorded))
  {
    var re := ReFilesOf(recorded);
    ReFilesOfHolds(recorded);
    forall sum | sum in re
      ensures HasSum(recorded, |recorded|, sum) && IsSource(recorded, dir, 0, sum, re[sum])
    {
      var i :| FirstWith(recorded, i, re[sum], sum);
      forall e | e in recorded && e.1 == sum
        ensures StrLeq(re[sum], e.0)
      {
        var k :| 0 <= k < |recorded| && recorded[k] == e;
        assert Names(recorded)[i] == re[sum] && Names(recorded)[k] == e.0;
        StrLeqIsTotalOrder(e.0, e.0);
      }
    }
  }

  lemma SeeingOneMore(recorded: seq<Entry>, dir: seq<Entry>, n: nat, reFiles: Files)
    requires n < |dir| && SumsSeen(recorded, dir, n, reFiles)
    ensures SumsSeen(recorded, dir, n + 1, Insert(reFiles, dir[n].1, dir[n].0))
  {
    var (name, sum) := dir[n];
    var after := Insert(reFiles, sum, name);
    assert HasSum(dir, n + 1, sum);
    forall x
      ensures HasSum(dir, n + 1, x) <==> HasSum(dir, n, x) || x == sum
    {
      if HasSum(dir, n, x) {
        var i :| 0 <= i < n && dir[i].1 == x;
        assert i < n + 1;
      }
    }
    forall x | x in after
      ensures IsSource(recorded, dir, n + 1, x, after[x])
    {
      if x in reFiles {
        assert IsSource(recorded, dir, n, x, reFiles[x]);
      }
    }
  }

  /** Among the first `n` files `name` is a copy, and `src` is its source. */
  ghost predicate CopiedFrom(recorded: seq<Entry>, dir: seq<Entry>, n: nat, name: string, src: string)
    requires n <= |dir|
  {
    exists j :: 0 <= j < n && dir[j].0 == name && KindOf(recorded, dir, j) == Copied
      && IsSource(recorded, dir, j, dir[j].1, src)
  }

  /** Each list holds the files of its kind among the first `n`. */
  ghost predicate HoldsKinds(recorded: seq<Entry>, dir: seq<Entry>, n: nat, s: Scan)
    requires n <= |dir|
  {
    && s.newFiles == Select(recorded, dir, n, New)
    && s.modified == Select(recorded, dir, n, Modified)
    && s.copied == Select(recorded, dir, n, Copied)
    && (s.diff <==> s.newFiles != [] || s.modified != [] || s.copied != [])
  }

  /** What the loop holds after the first `n` files of the directory. */
  ghost predicate ScanInv(recorded: seq<Entry>, dir: seq<Entry>, n: nat, s: Scan)
    requires n <= |dir|
  {
    && s.files == FilesOf(recorded) + FilesOf(dir[..n])
    && SumsSeen(recorded, dir, n, s.reFiles)
    && HoldsKinds(recorded, dir, n, s)
    && |s.copiedSrc| == |s.copied|
    && (forall k :: 0 <= k < |s.copied| ==> CopiedFrom(recorded, dir, n, s.copied[k], s.copiedSrc[k]))
  }

  lemma NextFileIsNotYetHeld(dir: seq<Entry>, n: nat)
    requires NoDup(Names(dir)) && n < |dir|
    ensures dir[n].0 !in FilesOf(dir[..n])
    ensures FilesOf(dir[..n + 1]) == FilesOf(dir[..n])[dir[n].0 := dir[n].1]
  {
    assert Names(dir[..n]) == Names(dir)[..n] && Names(dir)[n] == dir[n].0;
    FilesOfHolds(dir[..n], dir[n].0, dir[n].1);
    assert dir[..n + 1][..n] == dir[..n];
  }

  /** The tests of the loop, on maps that it has already changed, decide the kind. */
  lemma KindIsDecided(recorded: seq<Entry>, dir: seq<Entry>, n: nat, files: Files, reFiles: Files)
    requires SortedEntries(recorded) && SortedEntries(dir) && n < |dir|
    requires files == FilesOf(recorded) + FilesOf(dir[..n]) && SumsSeen(recorded, dir, n, reFiles)
    ensures KindOf(recorded, dir, n) ==
      if dir[n].0 in files then (if files[dir[n].0] == dir[n].1 then Unchanged else Modified)
      else if dir[n].1 in reFiles then Copied else New
    ensures dir[n].0 in files && files[dir[n].0] == dir[n].1 ==> dir[n].1 in reFiles
  {
    var (name, sum) := dir[n];
    FilesOfHolds(recorded, name, sum);
    NextFileIsNotYetHeld(dir, n);
    if (name, sum) in recorded {
      var i :| 0 <= i < |recorded| && recorded[i] == (name, sum);
      assert recorded[i].1 == sum;
    }
  }

  /** One round of the loop, once the kind of the file is known. */
  lemma ClassifyOneByKind(s: Scan, name: string, sum: string, kind: Kind)
    requires kind == if name in s.files then (if s.files[name] == sum then Unchanged else Modified)
                     else if sum in s.reFiles then Copied else New
    requires kind == Unchanged ==> sum in s.reFiles
    ensures var t := ClassifyOne(s, (name, sum));
      && t.files == s.files[name := sum] && t.reFiles == Insert(s.reFiles, sum, name)
      && t.newFiles == s.newFiles + (if kind == New then [name] else [])
      && t.modified == s.modified + (if kind == Modified then [name] else [])
      && t.copied == s.copied + (if kind == Copied then [name] else [])
      && t.copiedSrc == s.copiedSrc + (if kind == Copied then [s.reFiles[sum]] else [])
      && t.diff == (s.diff || kind != Unchanged)
  {
  }

  lemma CopiedFromOneMore(recorded: seq<Entry>, dir: seq<Entry>, n: nat, name: string, src: string)
    requires n < |dir| && CopiedFrom(recorded, dir, n, name, src)
    ensures CopiedFrom(recorded, dir, n + 1, name, src)
  {
    var j :| 0 <= j < n && dir[j].0 == name && KindOf(recorded, dir, j) == Copied
      && IsSource(recorded, dir, j, dir[j].1, src);
    assert j < n + 1;
  }

  lemma NewCopyHasSource(recorded: seq<Entry>, dir: seq<Entry>, n: nat, reFiles: Files)
    requires n < |dir| && SumsSeen(recorded, dir, n, reFiles) && dir[n].1 in reFiles
    requires KindOf(recorded, dir, n) == Copied
    ensures CopiedFrom(recorded, dir, n + 1, dir[n].0, reFiles[dir[n].1])
  {
    assert IsSource(recorded, dir, n, dir[n].1, reFiles[dir[n].1]);
  }

  lemma CopiesHaveSources(recorded: seq<Entry>, dir: seq<Entry>, n: nat, s: Scan, t: Scan)
    requires SortedEntries(recorded) && n < |dir| && SumsSeen(recorded, dir, n, s.reFiles)
    requires |s.copiedSrc| == |s.copied|
    requires forall k :: 0 <= k < |s.copied| ==> CopiedFrom(recorded, dir, n, s.copied[k], s.copiedSrc[k])
    requires if KindOf(recorded, dir, n) != Copied then t.copied == s.copied && t.copiedSrc == s.copiedSrc
             else
               && dir[n].1 in s.reFiles
               && t.copied == s.copied + [dir[n].0] && t.copiedSrc == s.copiedSrc + [s.reFiles[dir[n].1]]
    ensures |t.copiedSrc| == |t.copied|
    ensures forall k :: 0 <= k < |t.copied| ==> CopiedFrom(recorded, dir, n + 1, t.copied[k], t.copiedSrc[k])
  {
    if KindOf(recorded, dir, n) == Copied {
      NewCopyHasSource(recorded, dir, n, s.reFiles);
    }
    forall k | 0 <= k < |s.copied|
      ensures CopiedFrom(recorded, dir, n + 1, s.copied[k], s.copiedSrc[k])
    {
      CopiedFromOneMore(recorded, dir, n, s.copied[k], s.copiedSrc[k]);
    }
  }

  lemma ListsGrow(recorded: seq<Entry>, dir: seq<Entry>, n: nat, s: Scan, t: Scan)
    requires n < |dir| && HoldsKinds(recorded, dir, n, s)
    requires var kind, name := KindOf(recorded, dir, n), dir[n].0;
      && t.newFiles == s.newFiles + (if kind == New then [name] else [])
      && t.modified == s.modified + (if kind == Modified then [name] else [])
      && t.copied == s.copied + (if kind == Copied then [name] else [])
      && t.diff == (s.diff || kind != Unchanged)
    ensures HoldsKinds(recorded, dir, n + 1, t)
  {
    assert KindsOf(recorded, dir)[n] == KindOf(recorded, dir, n);
    assert Names(dir)[n] == dir[n].0;
  }

  lemma FilesGrow(recorded: seq<Entry>, dir: seq<Entry>, n: nat, files: Files)
    requires NoDup(Names(dir)) && n < |dir| && files == FilesOf(recorded) + FilesOf(dir[..n])
    ensures files[dir[n].0 := dir[n].1] == FilesOf(recorded) + FilesOf(dir[..n + 1])
  {
    NextFileIsNotYetHeld(dir, n);
  }

  lemma ClassifyOneKeepsInv(recorded: seq<Entry>, dir: seq<Entry>, n: nat, s: Scan)
    requires SortedEntries(recorded) && SortedEntries(dir) && n < |dir| && ScanInv(recorded, dir, n, s)
    ensures ScanInv(recorded, dir, n + 1, ClassifyOne(s, dir[n]))
  {
    var kind := KindOf(recorded, dir, n);
    KindIsDecided(recorded, dir, n, s.files, s.reFiles);
    ClassifyOneByKind(s, dir[n].0, dir[n].1, kind);
    SeeingOneMore(recorded, dir, n, s.reFiles);
    FilesGrow(recorded, dir, n, s.files);
    CopiesHaveSources(recorded, dir, n, s, ClassifyOne(s, dir[n]));
    ListsGrow(recorded, dir, n, s, ClassifyOne(s, dir[n]));
  }

  lemma {:induction false} ClassifyHoldsInv(recorded: seq<Entry>, dir: seq<Entry>, n: nat)
    requires SortedEntries(recorded) && SortedEntries(dir) && n <= |dir|
    ensures ScanInv(recorded, dir, n, Classify(recorded, dir[..n]))
  {
    if n == 0 {
      StartSeesRecord(recorded, dir);
      assert dir[..0] == [];
    } else {
      ClassifyHoldsInv(recorded, dir, n - 1);
      assert dir[..n][..n - 1] == dir[..n - 1];
      ClassifyOneKeepsInv(recorded, dir, n - 1, Classify(recorded, dir[..n - 1]));
    }
  }

  // ----- the main results -----

  /** The loop, which updates both maps while it scans, sorts every file by what was recorded before it began: the lists
      hold exactly the files of their kind, and the old map ends up overridden by the directory. */
  lemma ClassifyIsByKind(recorded: seq<Entry>, dir: seq<Entry>)
    requires SortedEntries(recorded) && SortedEntries(dir)
    ensures ScanInv(recorded, dir, |dir|, Classify(recorded, dir))
    ensures Classify(recorded, dir).files == FilesOf(recorded) + FilesOf(dir)
  {
    ClassifyHoldsInv(recorded, dir, |dir|);
    assert dir[..|dir|] == dir;
  }

  lemma CopiesArePaired(recorded: seq<Entry>, dir: seq<Entry>)
    requires SortedEntries(recorded) && SortedEntries(dir)
    ensures |Classify(recorded, dir).copiedSrc| == |Classify(recorded, dir).copied|
  {
    ClassifyIsByKind(recorded, dir);
  }

  lemma {:induction false} PickIsSorted(names: seq<string>, kinds: seq<Kind>, n: nat, kind: Kind)
    requires Sorted(names) && n <= |names| == |kinds|
    ensures Sorted(Pick(names, kinds, n, kind))
    ensures forall name :: name in Pick(names, kinds, n, kind) ==> name in names[..n]
  {
    if n > 0 {
      PickIsSorted(names, kinds, n - 1, kind);
      assert names[..n] == names[..n - 1] + [names[n - 1]];
      var init, before := Pick(names, kinds, n - 1, kind), names[..n - 1];
      assert forall name :: name in before ==> StrLeq(name, names[n - 1]);
      assert forall i :: 0 <= i < |init| ==> init[i] in init;
    }
  }

  lemma CountOfAppend(a: seq<string>, b: seq<string>, x: string)
    ensures multiset(a + b)[x] == multiset(a)[x] + multiset(b)[x]
  {
  }

  /** What one more name adds to the count of a name. */
  lemma PickOneMore(names: seq<string>, kinds: seq<Kind>, n: nat, kind: Kind, x: string)
    requires 0 < n <= |names| == |kinds|
    ensures multiset(Pick(names, kinds, n, kind))[x] ==
            multiset(Pick(names, kinds, n - 1, kind))[x] + (if kinds[n - 1] == kind && names[n - 1] == x then 1 else 0)
  {
    CountOfAppend(Pick(names, kinds, n - 1, kind), if kinds[n - 1] == kind then [names[n - 1]] else [], x);
  }

  lemma {:induction false} PickOfOthers(names: seq<string>, kinds: seq<Kind>, n: nat, kind: Kind, x: string)
    requires n <= |names| == |kinds| && forall i :: 0 <= i < n ==> names[i] != x
    ensures multiset(Pick(names, kinds, n, kind))[x] == 0
  {
    if n > 0 {
      PickOneMore(names, kinds, n, kind, x);
      PickOfOthers(names, kinds, n - 1, kind, x);
    }
  }

  lemma {:induction false} PickCounts(names: seq<string>, kinds: seq<Kind>, n: nat, j: nat, kind: Kind)
    requires NoDup(names) && j < n <= |names| == |kinds|
    ensures multiset(Pick(names, kinds, n, kind))[names[j]] == if kinds[j] == kind then 1 else 0
  {
    PickOneMore(names, kinds, n, kind, names[j]);
    if j < n - 1 {
      PickCounts(names, kinds, n - 1, j, kind);
    } else {
      PickOfOthers(names, kinds, n - 1, kind, names[j]);
    }
  }

  /** In the lists that the loop leaves, every file of the directory is once in that of its kind and in no other, and they
      name no other files. */
  lemma EachFileIsInItsListOnly(recorded: seq<Entry>, dir: seq<Entry>, j: nat)
    requires SortedEntries(recorded) && SortedEntries(dir) && j < |dir|
    ensures var s, name, kind := Classify(recorded, dir), dir[j].0, KindOf(recorded, dir, j);
      && multiset(s.newFiles)[name] == (if kind == New then 1 else 0)
      && multiset(s.modified)[name] == (if kind == Modified then 1 else 0)
      && multiset(s.copied)[name] == (if kind == Copied then 1 else 0)
      && forall x :: x in s.newFiles || x in s.modified || x in s.copied ==> x in Names(dir)
  {
    ClassifyIsByKind(recorded, dir);
    var names, kinds := Names(dir), KindsOf(recorded, dir);
    assert names[..|dir|] == names;
    PickCounts(names, kinds, |dir|, j, New);
    PickCounts(names, kinds, |dir|, j, Modified);
    PickCounts(names, kinds, |dir|, j, Copied);
    PickIsSorted(names, kinds, |dir|, New);
    PickIsSorted(names, kinds, |dir|, Modified);
    PickIsSorted(names, kinds, |dir|, Copied);
  }

  /** Because the scan is in order, sorting the lists that the loop leaves moves nothing; so `copied[i]` keeps its partner
      `copied_src[i]`, which is not sorted along. */
  lemma SortingMovesNothing(recorded: seq<Entry>, dir: seq<Entry>, newFiles: seq<string>, modified: seq<string>,
                            copied: seq<string>)
    requires SortedEntries(recorded) && SortedEntries(dir)
    requires IsSorting(Classify(recorded, dir).newFiles, newFiles)
    requires IsSorting(Classify(recorded, dir).modified, modified)
    requires IsSorting(Classify(recorded, dir).copied, copied)
    ensures var s := Classify(recorded, dir);
      newFiles == s.newFiles && modified == s.modified && copied == s.copied
  {
    ClassifyIsByKind(recorded, dir);
    var s, names, kinds := Classify(recorded, dir), Names(dir), KindsOf(recorded, dir);
    PickIsSorted(names, kinds, |dir|, New);
    PickIsSorted(names, kinds, |dir|, Modified);
    PickIsSorted(names, kinds, |dir|, Copied);
    SortOfSortedIsIdentity(s.newFiles, newFiles);
    SortOfSortedIsIdentity(s.modified, modified);
    SortOfSortedIsIdentity(s.copied, copied);
  }

  lemma {:induction false} NothingPicked(names: seq<string>, kinds: seq<Kind>, n: nat, kind: Kind)
    requires n <= |names| == |kinds| && forall j :: 0 <= j < n ==> kinds[j] != kind
    ensures Pick(names, kinds, n, kind) == []
  {
    if n > 0 {
      NothingPicked(names, kinds, n - 1, kind);
    }
  }

  /** The loop reports no difference exactly when every file is unchanged. */
  lemma DiffIffSomeChange(recorded: seq<Entry>, dir: seq<Entry>)
    requires SortedEntries(recorded) && SortedEntries(dir)
    ensures Classify(recorded, dir).diff <==> exists j :: 0 <= j < |dir| && KindOf(recorded, dir, j) != Unchanged
  {
    ClassifyIsByKind(recorded, dir);
    var names, kinds, n := Names(dir), KindsOf(recorded, dir), |dir|;
    if j :| 0 <= j < n && KindOf(recorded, dir, j) != Unchanged {
      PickCounts(names, kinds, n, j, kinds[j]);
      assert names[j] in Pick(names, kinds, n, kinds[j]);
    } else {
      NothingPicked(names, kinds, n, New);
      NothingPicked(names, kinds, n, Modified);
      NothingPicked(names, kinds, n, Copied);
    }
  }

  /** Right after a commit nothing differs, whatever list of entries the map was written as. */
  lemma NothingDiffersAfterCommit(recorded: seq<Entry>, dir: seq<Entry>, written: seq<Entry>)
    requires SortedEntries(recorded) && SortedEntries(dir) && SortedEntries(written)
    requires FilesOf(written) == Classify(recorded, dir).files
    ensures !Classify(written, dir).diff
  {
    ClassifyIsByKind(recorded, dir);
    DiffIffSomeChange(written, dir);
    forall j | 0 <= j < |dir|
      ensures KindOf(written, dir, j) == Unchanged
    {
      var (name, sum) := dir[j];
      FilesOfHolds(dir, name, sum);
      FilesOfHolds(written, name, sum);
      assert (name, sum) in dir;
    }
  }

  /** A commit is written exactly when some file of the directory is not recorded as it is. */
  lemma DiffersIff(recorded: seq<Entry>, dir: seq<Entry>)
    requires SortedEntries(recorded) && SortedEntries(dir)
    ensures Classify(recorded, dir).diff <==> exists e :: e in dir && e !in recorded
  {
    DiffIffSomeChange(recorded, dir);
    if e :| e in dir && e !in recorded {
      var j :| 0 <= j < |dir| && dir[j] == e;
      assert KindOf(recorded, dir, j) != Unchanged;
    } else {
      forall j | 0 <= j < |dir|
        ensures KindOf(recorded, dir, j) == Unchanged
      {
        assert dir[j] in dir;
        var k :| 0 <= k < |recorded| && recorded[k] == dir[j];
        assert recorded[k].0 == dir[j].0;
      }
    }
  }

  // ----- the same, said of names and checksums alone -----

  lemma SortedByBytes(names: seq<string>)
    requires Sorted(names)
    ensures forall i, j :: 0 <= i < j < |names| ==> Precedes(names[i], names[j])
  {
    forall i, j | 0 <= i < j < |names|
      ensures Precedes(names[i], names[j])
    {
      StrLeqIff(names[i], names[j]);
    }
  }

  lemma PickedIff(names: seq<string>, kinds: seq<Kind>, kind: Kind, x: string)
    requires |names| == |kinds| && NoDup(names)
    ensures x in Pick(names, kinds, |names|, kind) <==>
            exists j :: 0 <= j < |names| && names[j] == x && kinds[j] == kind
  {
    PickIsSubset(names, kinds, kind, x);
    if j :| 0 <= j < |names| && names[j] == x {
      PickCounts(names, kinds, |names|, j, kind);
      assert x in Pick(names, kinds, |names|, kind) <==> kinds[j] == kind;
      assert forall i :: 0 <= i < |names| && names[i] == x ==> i == j;
    }
  }

  lemma PickIsSubset(names: seq<string>, kinds: seq<Kind>, kind: Kind, x: string)
    requires |names| == |kinds|
    ensures x in Pick(names, kinds, |names|, kind) ==> exists j :: 0 <= j < |names| && names[j] == x
  {
    if forall j :: 0 <= j < |names| ==> names[j] != x {
      PickOfOthers(names, kinds, |names|, kind, x);
    }
  }

  /** What the loop makes of file `j`, though its maps change on the way: it is new if no recorded file has its name and
      none, nor an earlier one of the directory, its checksum; it is a copy if none has its name, but one of these its
      checksum; and it is modified if it is recorded with another checksum. */
  lemma ListsIff(recorded: seq<Entry>, dir: seq<Entry>, j: nat)
    requires SortedEntries(recorded) && SortedEntries(dir) && j < |dir|
    ensures var s, name, sum := Classify(recorded, dir), dir[j].0, dir[j].1;
      var named := exists e :: e in recorded && e.0 == name;
      var seen := (exists e :: e in recorded && e.1 == sum) || exists i :: 0 <= i < j && dir[i].1 == sum;
      && (name in s.newFiles <==> !named && !seen)
      && (name in s.copied <==> !named && seen)
      && (name in s.modified <==> named && (name, sum) !in recorded)
  {
    ClassifyIsByKind(recorded, dir);
    var names, kinds, name, sum := Names(dir), KindsOf(recorded, dir), dir[j].0, dir[j].1;
    PickedIff(names, kinds, New, name);
    PickedIff(names, kinds, Copied, name);
    PickedIff(names, kinds, Modified, name);
    assert names[j] == name && forall i :: 0 <= i < |names| && names[i] == name ==> i == j;
    assert HasName(recorded, name) <==> exists e :: e in recorded && e.0 == name by {
      if e :| e in recorded && e.0 == name {
        var i :| 0 <= i < |recorded| && recorded[i] == e;
        assert recorded[i].0 == name;
      }
    }
    assert HasSum(recorded, |recorded|, sum) <==> exists e :: e in recorded && e.1 == sum by {
      if e :| e in recorded && e.1 == sum {
        var i :| 0 <= i < |recorded| && recorded[i] == e;
        assert recorded[i].1 == sum;
      }
    }
  }

  /** A copy is listed with the recorded file of its checksum that comes first by name, or, if there is none, with the first
      such file of the directory. */
  lemma CopiesNameTheirSource(recorded: seq<Entry>, dir: seq<Entry>, k: nat) returns (j: nat)
    requires SortedEntries(recorded) && SortedEntries(dir) && k < |Classify(recorded, dir).copied|
    ensures |Classify(recorded, dir).copiedSrc| == |Classify(recorded, dir).copied|
    ensures j < |dir| && dir[j].0 == Classify(recorded, dir).copied[k]
    ensures var src, sum := Classify(recorded, dir).copiedSrc[k], dir[j].1;
      if exists e :: e in recorded && e.1 == sum then
        (src, sum) in recorded && forall e :: e in recorded && e.1 == sum ==> Precedes(src, e.0)
      else
        exists i :: 0 <= i < j && dir[i] == (src, sum) && forall h :: 0 <= h < i ==> dir[h].1 != sum
  {
    ClassifyIsByKind(recorded, dir);
    var s := Classify(recorded, dir);
    var src := s.copiedSrc[k];
    j :| 0 <= j < |dir| && dir[j].0 == s.copied[k] && KindOf(recorded, dir, j) == Copied
      && IsSource(recorded, dir, j, dir[j].1, src);
    var sum := dir[j].1;
    if e :| e in recorded && e.1 == sum {
      var i :| 0 <= i < |recorded| && recorded[i] == e;
      assert HasSum(recorded, |recorded|, sum);
      forall e | e in recorded && e.1 == sum
        ensures Precedes(src, e.0)
      {
        StrLeqIff(src, e.0);
      }
    }
  }

  /** All lists are in the order of the names' bytes. */
  lemma ListsAreInOrder(recorded: seq<Entry>, dir: seq<Entry>)
    requires SortedEntries(recorded) && SortedEntries(dir)
    ensures var s := Classify(recorded, dir);
      && (forall i, j :: 0 <= i < j < |s.newFiles| ==> Precedes(s.newFiles[i], s.newFiles[j]))
      && (forall i, j :: 0 <= i < j < |s.modified| ==> Precedes(s.modified[i], s.modified[j]))
      && (forall i, j :: 0 <= i < j < |s.copied| ==> Precedes(s.copied[i], s.copied[j]))
  {
    ClassifyIsByKind(recorded, dir);
    var s, names, kinds := Classify(recorded, dir), Names(dir), KindsOf(recorded, dir);
    PickIsSorted(names, kinds, |dir|, New);
    PickIsSorted(names, kinds, |dir|, Modified);
    PickIsSorted(names, kinds, |dir|, Copied);
    SortedByBytes(s.newFiles);
    SortedByBytes(s.modified);
    SortedByBytes(s.copied);
  }
}
