/** The three commands as the source runs them on the record file: text is appended, scanned and parsed in place. */
module RepositoryProgram {
  import opened Sequences
  import opened RecordText
  import opened Record
  import opened RecordLog
  import opened Classifier
  import opened Repository

  // ----- writing -----

  lemma {:induction false} LinesAppend(lines: seq<string>, line: string)
    ensures Lines(lines + [line]) == Lines(lines) + line + "\n"
  {
    if lines == [] {
      assert lines + [line] == [line] && [line][1..] == [];
    } else {
      assert (lines + [line])[1..] == lines[1..] + [line];
      LinesAppend(lines[1..], line);
    }
  }

  lemma {:induction false} PairsAppend(files: seq<Entry>, e: Entry)
    ensures Pairs(files + [e]) == Pairs(files) + e.0 + " " + e.1 + "\n"
  {
    if files == [] {
      assert files + [e] == [e] && [e][1..] == [];
    } else {
      assert (files + [e])[1..] == files[1..] + [e];
      PairsAppend(files[1..], e);
    }
  }

  method PutLines(lines: seq<string>) returns (out: string)
    ensures out == Lines(lines)
  {
    out := "";
    for i := 0 to |lines|
      invariant out == Lines(lines[..i])
    {
      LinesAppend(lines[..i], lines[i]);
      assert lines[..i + 1] == lines[..i] + [lines[i]];
      out := out + lines[i] + "\n";
    }
    assert lines[..|lines|] == lines;
  }

  method PutCopied(copiedSrc: seq<string>, copied: seq<string>) returns (out: string)
    requires |copiedSrc| == |copied|
    ensures out == Lines(CopiedLines(Zip(copiedSrc, copied)))
  {
    out := "";
    ghost var lines := CopiedLines(Zip(copiedSrc, copied));
    for i := 0 to |copied|
      invariant out == Lines(lines[..i])
    {
      LinesAppend(lines[..i], lines[i]);
      assert lines[..i + 1] == lines[..i] + [lines[i]];
      assert lines[i] == copiedSrc[i] + " => " + copied[i];
      out := out + (copiedSrc[i] + " => " + copied[i]) + "\n";
    }
    assert lines[..|lines|] == lines;
  }

  method PutPairs(files: seq<Entry>) returns (out: string)
    ensures out == Pairs(files)
  {
    out := "";
    for i := 0 to |files|
      invariant out == Pairs(files[..i])
    {
      PairsAppend(files[..i], files[i]);
      assert files[..i + 1] == files[..i] + [files[i]];
      out := out + files[i].0 + " " + files[i].1 + "\n";
    }
    assert files[..|files|] == files;
  }

  lemma LinesCons(head: string, tail: seq<string>)
    ensures Lines([head] + tail) == head + "\n" + Lines(tail)
  {
    assert ([head] + tail)[1..] == tail;
  }

  lemma ListingParts(newFiles: seq<string>, modified: seq<string>, copied: seq<Entry>)
    ensures Lines(Listing(newFiles, modified, copied)) ==
      "[new_file]\n" + Lines(newFiles) + ("[modified]\n" + Lines(modified) + ("[copied]\n" + Lines(CopiedLines(copied))))
  {
    var a, b, c := ["[new_file]"] + newFiles, ["[modified]"] + modified, ["[copied]"] + CopiedLines(copied);
    assert Listing(newFiles, modified, copied) == a + (b + c);
    LinesConcat(a, b + c);
    LinesConcat(b, c);
    LinesCons("[new_file]", newFiles);
    LinesCons("[modified]", modified);
    LinesCons("[copied]", CopiedLines(copied));
    assert "[new_file]" + "\n" == "[new_file]\n" && "[modified]" + "\n" == "[modified]\n";
    assert "[copied]" + "\n" == "[copied]\n";
  }

  method PutListing(newFiles: seq<string>, modified: seq<string>, copiedSrc: seq<string>, copied: seq<string>)
      returns (out: string)
    requires |copiedSrc| == |copied|
    ensures out == Lines(Listing(newFiles, modified, Zip(copiedSrc, copied)))
  {
    ListingParts(newFiles, modified, Zip(copiedSrc, copied));
    var a := PutLines(newFiles);
    var b := PutLines(modified);
    var c := PutCopied(copiedSrc, copied);
    out := "[new_file]\n" + a + ("[modified]\n" + b + ("[copied]\n" + c));
  }

  // ----- sorting -----

  lemma InsertionKeepsSorted(sorted: seq<string>, name: string, i: nat)
    requires Sorted(sorted) && i <= |sorted|
    requires forall j :: 0 <= j < i ==> StrLeq(sorted[j], name)
    requires forall j :: i <= j < |sorted| ==> StrLeq(name, sorted[j])
    ensures Sorted(sorted[..i] + [name] + sorted[i..])
    ensures multiset(sorted[..i] + [name] + sorted[i..]) == multiset(sorted) + multiset{name}
  {
    assert sorted == sorted[..i] + sorted[i..];
  }

  /** Stands for `std::sort`. */
  method Sort(names: seq<string>) returns (sorted: seq<string>)
    ensures IsSorting(names, sorted) && multiset(sorted) == multiset(names)
    ensures forall i, j :: 0 <= i < j < |sorted| ==> Precedes(sorted[i], sorted[j])
  {
    sorted := [];
    for n := 0 to |names|
      invariant IsSorting(names[..n], sorted)
    {
      var i := |sorted|;
      while i > 0 && !StrLeq(sorted[i - 1], names[n])
        invariant 0 <= i <= |sorted| && forall j :: i <= j < |sorted| ==> StrLeq(names[n], sorted[j])
      {
        StrLeqIsTotalOrder(sorted[i - 1], names[n]);
        i := i - 1;
      }
      if i > 0 {
        SmallerOnesBefore(sorted, names[n], i);
      }
      InsertionKeepsSorted(sorted, names[n], i);
      assert names[..n + 1] == names[..n] + [names[n]];
      sorted := sorted[..i] + [names[n]] + sorted[i..];
    }
    assert names[..|names|] == names;
    SortedByBytes(sorted);
  }

  lemma SmallerOnesBefore(sorted: seq<string>, name: string, i: nat)
    requires Sorted(sorted) && 0 < i <= |sorted| && StrLeq(sorted[i - 1], name)
    ensures forall j :: 0 <= j < i ==> StrLeq(sorted[j], name)
  {
    forall j | 0 <= j < i - 1
      ensures StrLeq(sorted[j], name)
    {
      StrLeqIsTransitive(sorted[j], sorted[i - 1], name);
    }
  }

  // ----- walking through a map -----

  lemma {:induction false} SomeNameIsLeast(names: set<string>) returns (least: string)
    requires names != {}
    ensures least in names && forall name :: name in names ==> StrLeq(least, name)
  {
    var name :| name in names;
    StrLeqIsTotalOrder(name, name);
    if names == {name} {
      least := name;
    } else {
      var rest := names - {name};
      assert rest != {} by {
        assert rest == {} ==> names == {name};
      }
      var other := SomeNameIsLeast(rest);
      StrLeqIsTotalOrder(name, other);
      least := if StrLeq(name, other) then name else other;
      forall x | x in names
        ensures StrLeq(least, x)
      {
        if x != name {
          assert x in rest;
          StrLeqIsTransitive(least, other, x);
        }
      }
    }
  }

  lemma SortedAppend(names: seq<string>, last: string)
    requires Sorted(names) && NoDup(names)
    requires forall i :: 0 <= i < |names| ==> StrLeq(names[i], last) && names[i] != last
    ensures Sorted(names + [last]) && NoDup(names + [last])
  {
  }

  lemma {:induction false} HoldsItsNames(items: seq<Entry>, i: nat)
    requires i < |items|
    ensures items[i].0 in FilesOf(items)
  {
    if i < |items| - 1 {
      HoldsItsNames(items[..|items| - 1], i);
    }
  }

  lemma NamesAppend(items: seq<Entry>, last: Entry)
    ensures Names(items + [last]) == Names(items) + [last.0]
  {
  }

  lemma NamesGrow(items: seq<Entry>, last: Entry)
    requires SortedEntries(items) && last.0 !in FilesOf(items)
    requires forall i :: 0 <= i < |items| ==> StrLeq(items[i].0, last.0)
    ensures SortedEntries(items + [last])
  {
    forall i | 0 <= i < |items|
      ensures Names(items)[i] != last.0
    {
      HoldsItsNames(items, i);
    }
    SortedAppend(Names(items), last.0);
    NamesAppend(items, last);
  }

  lemma EntriesGrow(items: seq<Entry>, rest: set<string>, m: Files, least: string)
    requires least in rest && rest <= m.Keys && FilesOf(items) == m - rest
    ensures FilesOf(items + [(least, m[least])]) == m - (rest - {least})
  {
    ReadPairsDone(items, (least, m[least]));
    assert (m - rest)[least := m[least]] == m - (rest - {least});
  }

  lemma WalkedInOrder(items: seq<Entry>, m: Files)
    requires SortedEntries(items) && FilesOf(items) == m
    ensures forall i, j :: 0 <= i < j < |items| ==> Precedes(items[i].0, items[j].0) && items[i].0 != items[j].0
    ensures forall name, sum :: (name, sum) in items <==> name in m && m[name] == sum
  {
    SortedByBytes(Names(items));
    forall i, j | 0 <= i < j < |items|
      ensures Precedes(items[i].0, items[j].0) && items[i].0 != items[j].0
    {
      assert Precedes(Names(items)[i], Names(items)[j]) && Names(items)[i] != Names(items)[j];
    }
    forall name, sum
      ensures (name, sum) in items <==> name in m && m[name] == sum
    {
      FilesOfHolds(items, name, sum);
    }
  }

  /** A `map` is walked through in the order of its keys. */
  method WalkMap(m: Files) returns (items: seq<Entry>)
    ensures SortedEntries(items) && FilesOf(items) == m
    ensures forall i, j :: 0 <= i < j < |items| ==> Precedes(items[i].0, items[j].0) && items[i].0 != items[j].0
    ensures forall name, sum :: (name, sum) in items <==> name in m && m[name] == sum
  {
    items := [];
    var rest := m.Keys;
    while rest != {}
      invariant rest <= m.Keys && SortedEntries(items) && FilesOf(items) == m - rest
      invariant forall i :: 0 <= i < |items| ==> forall name :: name in rest ==> StrLeq(items[i].0, name)
      decreases rest
    {
      ghost var least0 := SomeNameIsLeast(rest);
      var least :| least in rest && forall name :: name in rest ==> StrLeq(least, name);
      NamesGrow(items, (least, m[least]));
      EntriesGrow(items, rest, m, least);
      items := items + [(least, m[least])];
      rest := rest - {least};
    }
    WalkedInOrder(items, m);
  }

  // ----- reading -----

  /** The loop that looks for the line before the checksums. */
  method SkipToMd5(text: string) returns (rest: string)
    ensures rest == AfterMd5Line(text)
  {
    rest := text;
    while rest != ""
      invariant AfterMd5Line(rest) == AfterMd5Line(text)
      decreases |rest|
    {
      var line := LineOf(rest);
      rest := rest[|line|..];
      if line == "(MD5)\n" {
        return;
      }
    }
  }

  lemma ReadPairsDone(done: seq<Entry>, pair: Entry)
    ensures FilesOf(done + [pair]) == Insert(FilesOf(done), pair.0, pair.1)
    ensures ReFilesOf(done + [pair]) == Insert(ReFilesOf(done), pair.1, pair.0)
  {
    assert (done + [pair])[..|done|] == done;
  }

  lemma ReadOnePairMore(rest: string, done: seq<Entry>)
    ensures var (name, rest1) := ReadWord(rest); var (sum, rest2) := ReadWord(rest1);
      name != "" && sum != "" ==> done + ReadPairs(rest) == done + [(name, sum)] + ReadPairs(rest2)
  {
  }

  /** The loop that fills both maps. */
  method ReadMaps(text: string) returns (files: Files, reFiles: Files)
    ensures files == FilesOf(ReadPairs(text)) && reFiles == ReFilesOf(ReadPairs(text))
  {
    files, reFiles := map[], map[];
    var rest := text;
    ghost var done: seq<Entry> := [];
    while true
      invariant done + ReadPairs(rest) == ReadPairs(text)
      invariant files == FilesOf(done) && reFiles == ReFilesOf(done)
      decreases |rest|
    {
      var (name, rest1) := ReadWord(rest);
      var (sum, rest2) := ReadWord(rest1);
      if name == "" || sum == "" {
        assert ReadPairs(rest) == [] && done + [] == done;
        return;
      }
      ReadOnePairMore(rest, done);
      ReadPairsDone(done, (name, sum));
      done := done + [(name, sum)];
      files, reFiles := Insert(files, name, sum), Insert(reFiles, sum, name);
      rest := rest2;
    }
  }

  // ----- the commands -----

  lemma FirstBlockText(c: Commit, listing: string, pairs: string)
    requires c.number == 1 && listing == Lines(Listing(c.newFiles, c.modified, c.copied)) && pairs == Pairs(c.files)
    ensures "# commit 1\n" + listing + "(MD5)\n" + pairs == Block(c)
  {
    assert Decimal(1) == "1";
    assert "# commit " + "1" + "\n" == "# commit 1\n" && MD5_LINE + "\n" == "(MD5)\n";
  }

  lemma NewBlock(history: seq<Commit>, dir: seq<Entry>, c: Commit, history': seq<Commit>)
    requires GoodRepository(history) && GoodDirectory(dir)
    requires Writes(history == [], Recorded(history), dir) && CommitOf(history == [], Recorded(history), dir, c)
    requires history' == history + [c]
    ensures GoodRepository(history') && CommitsTo(history, dir, history')
  {
    assert history'[..|history|] == history;
    CommitsToKeepsGood(history, dir, history');
  }

  class Directory {
    var hasRecord: bool
    var record: string
    ghost var history: seq<Commit>

    ghost predicate Valid()
      reads this
    {
      GoodRepository(history) && (hasRecord <==> history != []) && record == Render(history)
    }

    constructor ()
      ensures Valid() && history == []
    {
      hasRecord, record, history := false, "", [];
    }

    /** Finds the last commit and reads its number and its files. */
    method ReadRecord() returns (n: nat, files: Files, reFiles: Files)
      requires Valid() && hasRecord
      ensures n == Recorded(history).number
      ensures files == FilesOf(Recorded(history).files) && reFiles == ReFilesOf(Recorded(history).files)
      ensures IsRead(history, Recorded(history))
    {
      ReadLastOfRender(history);
      RecordIsRead(history);
      var pos := ScanBack(record, |record|);
      n, files, reFiles := ReadCommit(record, pos);
    }

    /** Reads the commit that opens at `pos`. */
    static method ReadCommit(text: string, pos: nat) returns (n: nat, files: Files, reFiles: Files)
      ensures var c := ReadBlock(text, pos); n == c.number && files == FilesOf(c.files) && reFiles == ReFilesOf(c.files)
    {
      var (_, s0) := ReadWord(Drop(text, pos + 2));
      var s1 := SkipSpace(s0);
      var digits := DigitPrefix(s1);
      n := Value(digits);
      var rest := SkipToMd5(SkipSpace(s1[|digits|..]));
      files, reFiles := ReadMaps(rest);
    }

    /** The classifier loop. */
    method ClassifyDirectory(files: Files, reFiles: Files, dir: seq<Entry>, ghost recorded: seq<Entry>) returns (s: Scan)
      requires files == FilesOf(recorded) && reFiles == ReFilesOf(recorded)
      ensures s == Classify(recorded, dir)
    {
      s := Scan(files, reFiles, [], [], [], [], false);
      for i := 0 to |dir|
        invariant s == Classify(recorded, dir[..i])
      {
        var (name, sum) := dir[i];
        assert dir[..i + 1][..i] == dir[..i];
        if name !in s.files && sum !in s.reFiles {
          s := s.(newFiles := s.newFiles + [name], diff := true);
        } else if name !in s.files {
          s := s.(copied := s.copied + [name], copiedSrc := s.copiedSrc + [s.reFiles[sum]], diff := true);
        } else if sum !in s.reFiles || s.files[name] != sum {
          s := s.(modified := s.modified + [name], diff := true, files := s.files - {name});
        }
        s := s.(files := Insert(s.files, name, sum), reFiles := Insert(s.reFiles, sum, name));
      }
      assert dir[..|dir|] == dir;
    }

    /** The three sorts before the lists are printed. */
    method SortLists(s: Scan, ghost recorded: seq<Entry>, ghost dir: seq<Entry>) returns (sorted: Scan)
      requires SortedEntries(recorded) && SortedEntries(dir) && s == Classify(recorded, dir)
      ensures sorted == s
    {
      var newFiles := Sort(s.newFiles);
      var modified := Sort(s.modified);
      var copied := Sort(s.copied);
      SortingMovesNothing(recorded, dir, newFiles, modified, copied);
      sorted := s.(newFiles := newFiles, modified := modified, copied := copied);
    }

    ghost function StatusText(dir: seq<Entry>): string
      reads this
    {
      var (newFiles, modified, copied, copiedSrc) := StatusLists(history == [], Recorded(history), dir);
      if |copiedSrc| == |copied| then Lines(Listing(newFiles, modified, Zip(copiedSrc, copied))) else ""
    }

    /** The loop of a first commit that fills its map. */
    static method MapOfAll(dir: seq<Entry>) returns (files: Files)
      ensures files == FilesOf(dir)
    {
      files := map[];
      for i := 0 to |dir|
        invariant files == FilesOf(dir[..i])
      {
        assert dir[..i + 1][..i] == dir[..i];
        files := Insert(files, dir[i].0, dir[i].1);
      }
      assert dir[..|dir|] == dir;
    }

    /** The block of a first commit and its text. */
    static method FirstBlock(dir: seq<Entry>, ghost last: Last) returns (ghost c: RecordText.Commit, text: string)
      requires GoodDirectory(dir)
      ensures CommitOf(true, last, dir, c) && text == Block(c)
    {
      var listing := PutListing(Names(dir), [], [], []);
      var files := MapOfAll(dir);
      var items := WalkMap(files);
      var pairs := PutPairs(items);
      assert Zip([], []) == [];
      c := RecordText.Commit(1, Names(dir), [], [], items);
      text := "# commit 1\n" + listing + "(MD5)\n" + pairs;
      FirstBlockText(c, listing, pairs);
    }

    method FirstCommit(dir: seq<Entry>)
      requires Valid() && !hasRecord && GoodDirectory(dir)
      modifies this
      ensures Valid() && CommitsTo(old(history), dir, history)
    {
      if |dir| == 0 {
        return;
      }
      ghost var c;
      var text;
      c, text := FirstBlock(dir, Recorded(history));
      AddBlock(dir, c, text);
    }

    /** Appends the text of a commit to the record. */
    method AddBlock(ghost dir: seq<Entry>, ghost c: RecordText.Commit, text: string)
      requires Valid() && GoodDirectory(dir)
      requires Writes(history == [], Recorded(history), dir) && CommitOf(history == [], Recorded(history), dir, c)
      requires text == (if history == [] then "" else "\n") + Block(c)
      modifies this
      ensures Valid() && CommitsTo(old(history), dir, history)
    {
      ghost var next := history + [c];
      NewBlock(history, dir, c, next);
      RenderAppend(history, c);
      record, hasRecord, history := record + text, true, next;
    }

    /** Writes what the classifier found as the next commit. */
    method WriteCommit(n: nat, s: Scan, dir: seq<Entry>)
      requires Valid() && hasRecord && GoodDirectory(dir) && n == Recorded(history).number
      requires s == Classify(Recorded(history).files, dir) && s.diff && |s.copiedSrc| == |s.copied|
      modifies this
      ensures Valid() && CommitsTo(old(history), dir, history)
    {
      var listing := PutListing(s.newFiles, s.modified, s.copiedSrc, s.copied);
      var items := WalkMap(s.files);
      var pairs := PutPairs(items);
      ghost var c := RecordText.Commit(n + 1, s.newFiles, s.modified, Zip(s.copiedSrc, s.copied), items);
      var text := "# commit " + Decimal(n + 1) + "\n" + listing + "(MD5)" + "\n" + pairs;
      assert text == Block(c);
      AddBlock(dir, c, "\n" + text);
    }

    method Commit(dir: seq<Entry>)
      requires Valid() && GoodDirectory(dir)
      modifies this
      ensures Valid() && CommitsTo(old(history), dir, history)
    {
      if !hasRecord {
        FirstCommit(dir);
        return;
      }
      var n, files, reFiles := ReadRecord();
      ghost var recorded := Recorded(history).files;
      ReadFilesAreGood(history, Recorded(history));
      var s := ClassifyDirectory(files, reFiles, dir, recorded);
      CopiesArePaired(recorded, dir);
      if s.diff {
        s := SortLists(s, recorded, dir);
        WriteCommit(n, s, dir);
      }
    }

    method Status(dir: seq<Entry>) returns (out: string)
      requires Valid() && GoodDirectory(dir)
      ensures out == StatusText(dir)
    {
      if !hasRecord {
        out := PutListing(Names(dir), [], [], []);
        assert Zip([], []) == [];
        return;
      }
      var _, files, reFiles := ReadRecord();
      ghost var recorded := Recorded(history).files;
      ReadFilesAreGood(history, Recorded(history));
      var s := ClassifyDirectory(files, reFiles, dir, recorded);
      CopiesArePaired(recorded, dir);
      s := SortLists(s, recorded, dir);
      out := PutListing(s.newFiles, s.modified, s.copiedSrc, s.copied);
    }

    method PrintLog(num: int) returns (out: string)
      requires Valid()
      ensures !hasRecord ==> out == ""
      ensures hasRecord ==> Separated(record) && out == LogText(record, num)
      ensures var newest := Newest(history, if num < 0 then 0 else if num < |history| then num else |history|);
        out == Render(newest) <==> AllEofFree(newest)
    {
      if !hasRecord {
        return "";
      }
      LogOfRenderIff(history, num);
      out := Log(record, num);
    }
  }

  lemma RenderAppend(history: seq<RecordText.Commit>, c: RecordText.Commit)
    ensures Render(history + [c]) == Render(history) + ((if history == [] then "" else "\n") + Block(c))
  {
    assert (history + [c])[..|history|] == history;
  }
}
