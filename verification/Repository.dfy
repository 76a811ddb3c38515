/** `status` and `commit` as functions of a directory and its record. */
module Repository {
  import opened RecordText
  import opened Record
  import opened Classifier

  // ----- what a commit adds to the history -----

  /** A directory listing with checksums: sorted, without repeated names, and fit to be written to the record. */
  ghost predicate GoodDirectory(dir: seq<Entry>) {
    SortedEntries(dir) && GoodEntries(dir)
  }

  ghost predicate GoodRepository(history: seq<Commit>) {
    GoodHistory(history) && forall k :: 0 <= k < |history| ==> SortedEntries(history[k].files)
  }

  /** What the scan and the reading from there make of the record. */
  ghost function Recorded(history: seq<Commit>): Last {
    ReadLast(Render(history))
  }

  function Zip(sources: seq<string>, copies: seq<string>): (copied: seq<Entry>)
    requires |sources| == |copies|
    ensures |copied| == |copies| && forall i :: 0 <= i < |copies| ==> copied[i] == (sources[i], copies[i])
  {
    seq(|copies|, i requires 0 <= i < |copies| => (sources[i], copies[i]))
  }

  /** Whether committing `dir` writes a block; `last` is what is read from the record, if there is one. */
  ghost predicate Writes(first: bool, last: Last, dir: seq<Entry>) {
    if first then dir != [] else Classify(last.files, dir).diff
  }

  /** `c` is the commit that `dir` leads to: the lists are by kind, and the files those read before overridden by `dir`,
      written in the order of their names. */
  ghost predicate CommitOf(first: bool, last: Last, dir: seq<Entry>, c: Commit) {
    && SortedEntries(c.files)
    && if first then
         && c.number == 1
         && c.newFiles == Names(dir) && c.modified == [] && c.copied == [] && FilesOf(c.files) == FilesOf(dir)
       else
         var s := Classify(last.files, dir);
         && |s.copiedSrc| == |s.copied|
         && c.number == last.number + 1
         && c.newFiles == s.newFiles && c.modified == s.modified && c.copied == Zip(s.copiedSrc, s.copied)
         && FilesOf(c.files) == s.files
  }

  ghost predicate CommitsAs(last: Last, history: seq<Commit>, dir: seq<Entry>, history': seq<Commit>) {
    if Writes(history == [], last, dir) then
      && |history'| == |history| + 1 && history'[..|history|] == history
      && CommitOf(history == [], last, dir, history'[|history|])
    else history' == history
  }

  ghost predicate CommitsTo(history: seq<Commit>, dir: seq<Entry>, history': seq<Commit>) {
    CommitsAs(Recorded(history), history, dir, history')
  }

  // ----- what is read from the record -----

  /** The last block's own files. */
  ghost function Written(history: seq<Commit>): seq<Entry> {
    if history == [] then [] else history[|history| - 1].files
  }

  ghost predicate ReadsBack(history: seq<Commit>) {
    EofFree(Written(history))
  }

  /** What is read is what was last written if that reads back, and otherwise no files. */
  ghost predicate IsRead(history: seq<Commit>, last: Last) {
    && last.files == (if ReadsBack(history) then Written(history) else [])
    && (ReadsBack(history) ==> last.number == if history == [] then 0 else history[|history| - 1].number)
  }

  lemma RecordIsRead(history: seq<Commit>)
    requires GoodHistory(history)
    ensures IsRead(history, Recorded(history))
  {
    if history != [] {
      ReadLastOfRender(history);
    }
  }

  lemma ReadFilesAreGood(history: seq<Commit>, last: Last)
    requires GoodRepository(history) && IsRead(history, last)
    ensures SortedEntries(last.files) && GoodEntries(last.files)
  {
    if history != [] {
      assert GoodCommit(history[|history| - 1]);
    }
  }

  ghost function Known(history: seq<Commit>): Files {
    FilesOf(Written(history))
  }

  // ----- one commit -----

  /** A commit writes a block if and only if some file of the directory is not recorded as it is. */
  lemma WritesIff(history: seq<Commit>, last: Last, dir: seq<Entry>)
    requires GoodRepository(history) && GoodDirectory(dir) && IsRead(history, last)
    ensures Writes(history == [], last, dir) <==> exists e :: e in dir && e !in last.files
  {
    ReadFilesAreGood(history, last);
    DiffersIff(last.files, dir);
    if dir != [] {
      assert dir[0] in dir;
    }
  }

  lemma CommitWritesOverlay(history: seq<Commit>, last: Last, dir: seq<Entry>, c: Commit)
    requires GoodRepository(history) && GoodDirectory(dir) && IsRead(history, last)
    requires CommitOf(history == [], last, dir, c)
    ensures FilesOf(c.files) == FilesOf(last.files) + FilesOf(dir)
  {
    if history != [] {
      ReadFilesAreGood(history, last);
      ClassifyIsByKind(last.files, dir);
    } else {
      assert FilesOf([]) == map[];
    }
  }

  lemma NothingNew(recorded: seq<Entry>, dir: seq<Entry>)
    requires SortedEntries(recorded) && SortedEntries(dir) && forall e :: e in dir ==> e in recorded
    ensures FilesOf(recorded) + FilesOf(dir) == FilesOf(recorded)
  {
    forall name | name in FilesOf(dir)
      ensures name in FilesOf(recorded) && FilesOf(recorded)[name] == FilesOf(dir)[name]
    {
      FilesOfHolds(dir, name, FilesOf(dir)[name]);
      FilesOfHolds(recorded, name, FilesOf(dir)[name]);
    }
  }

  lemma KnownIfWritten(history: seq<Commit>, last: Last, dir: seq<Entry>, c: Commit)
    requires GoodRepository(history) && GoodDirectory(dir) && IsRead(history, last)
    requires Writes(history == [], last, dir) && CommitOf(history == [], last, dir, c)
    ensures dir != []
    ensures FilesOf(c.files) == if ReadsBack(history) then Known(history) + FilesOf(dir) else FilesOf(dir)
  {
    WritesIff(history, last, dir);
    CommitWritesOverlay(history, last, dir, c);
    NothingOverlaid(FilesOf(dir));
  }

  lemma NothingOverlaid(m: Files)
    ensures FilesOf([]) == map[] && FilesOf([]) + m == m
  {
  }

  lemma KnownIfNot(history: seq<Commit>, last: Last, dir: seq<Entry>)
    requires GoodRepository(history) && GoodDirectory(dir) && IsRead(history, last)
    requires !Writes(history == [], last, dir)
    ensures (dir == [] || ReadsBack(history)) && Known(history) == Known(history) + FilesOf(dir)
  {
    ReadFilesAreGood(history, last);
    WritesIff(history, last, dir);
    if dir != [] {
      assert dir[0] in last.files;
      NothingNew(last.files, dir);
    } else {
      assert FilesOf(dir) == map[];
    }
  }

  /** A commit adds a block behind the history or leaves it alone. */
  lemma CommitsOneBlock(last: Last, history: seq<Commit>, dir: seq<Entry>, history': seq<Commit>) returns (c: Commit)
    requires CommitsAs(last, history, dir, history')
    ensures if Writes(history == [], last, dir) then CommitOf(history == [], last, dir, c) && Written(history') == c.files
            else history' == history
  {
    c := if |history'| > 0 then history'[|history'| - 1] else Commit(0, [], [], [], []);
  }

  /** What the last block tells after a commit: the directory over what could be read; an empty directory changes
      nothing. */
  lemma KnownAfterCommit(history: seq<Commit>, last: Last, dir: seq<Entry>, history': seq<Commit>)
    requires GoodRepository(history) && GoodDirectory(dir) && IsRead(history, last)
    requires CommitsAs(last, history, dir, history')
    ensures Known(history') == if ReadsBack(history) || dir == [] then Known(history) + FilesOf(dir) else FilesOf(dir)
  {
    var c := CommitsOneBlock(last, history, dir, history');
    if Writes(history == [], last, dir) {
      KnownIfWritten(history, last, dir, c);
    } else {
      KnownIfNot(history, last, dir);
    }
  }

  /** A commit takes the snapshot: whether or not it writes a block, the last block then tells every file of the directory
      with its checksum, and of the other files what was known. It does so if and only if what was known can be read, or
      the directory is empty or has every file that was known. */
  lemma CommitTakesSnapshotIff(history: seq<Commit>, dir: seq<Entry>, history': seq<Commit>)
    requires GoodRepository(history) && GoodDirectory(dir) && CommitsTo(history, dir, history')
    ensures Known(history') == (if ReadsBack(history) || dir == [] then Known(history) + FilesOf(dir) else FilesOf(dir))
    ensures Known(history') == Known(history) + FilesOf(dir)
            <==> ReadsBack(history) || dir == [] || Known(history).Keys <= FilesOf(dir).Keys
  {
    RecordIsRead(history);
    KnownAfterCommit(history, Recorded(history), dir, history');
    OverlayIsAllIff(Known(history), FilesOf(dir));
  }

  lemma OverlayIsAllIff(m: Files, n: Files)
    ensures m + n == n <==> m.Keys <= n.Keys
  {
    if m + n == n {
      assert (m + n).Keys == m.Keys + n.Keys;
    }
  }

  lemma NamesAreEofFree(m: Files, files: seq<Entry>)
    requires SortedEntries(files) && FilesOf(files) == m
    ensures EofFree(files) <==> forall name :: name in m ==> Free(name, EOF_BYTE)
  {
    forall name
      ensures name in m <==> HasName(files, name)
    {
      FilesOfHolds(files, name, "");
    }
    if forall name :: name in m ==> Free(name, EOF_BYTE) {
      forall i | 0 <= i < |files|
        ensures Free(files[i].0, EOF_BYTE)
      {
        assert HasName(files, files[i].0);
      }
    }
  }

  /** Whether what a commit leaves can be read depends on the names of the directory; if it is empty, nothing changes. */
  lemma ReadsBackAfterCommitIff(history: seq<Commit>, dir: seq<Entry>, history': seq<Commit>)
    requires GoodRepository(history) && GoodDirectory(dir) && CommitsTo(history, dir, history')
    ensures ReadsBack(history') <==> EofFree(dir) && (ReadsBack(history) || dir != [])
  {
    var last := Recorded(history);
    RecordIsRead(history);
    ReadFilesAreGood(history, last);
    WritesIff(history, last, dir);
    if Writes(history == [], last, dir) {
      var c := history'[|history|];
      CommitWritesOverlay(history, last, dir, c);
      NamesAreEofFree(FilesOf(c.files), c.files);
      NamesAreEofFree(FilesOf(last.files), last.files);
      NamesAreEofFree(FilesOf(dir), dir);
    } else if dir != [] {
      assert dir[0] in last.files;
      forall i | 0 <= i < |dir|
        ensures Free(dir[i].0, EOF_BYTE)
      {
        assert dir[i] in last.files;
      }
    }
  }

  /** After a commit every file of the directory is read as it is, if anything is. */
  lemma CommittedFilesAreRead(history: seq<Commit>, dir: seq<Entry>, history': seq<Commit>, last': Last)
    requires GoodRepository(history) && GoodDirectory(dir) && CommitsTo(history, dir, history')
    requires GoodRepository(history') && IsRead(history', last')
    ensures dir != [] && EofFree(dir) ==> forall e :: e in dir ==> e in last'.files
    ensures !EofFree(dir) ==> last'.files == []
  {
    ReadsBackAfterCommitIff(history, dir, history');
    CommitTakesSnapshotIff(history, dir, history');
    if dir != [] && EofFree(dir) {
      ReadFilesAreGood(history', last');
      forall e | e in dir
        ensures e in last'.files
      {
        FilesOfHolds(dir, e.0, e.1);
        FilesOfHolds(last'.files, e.0, e.1);
      }
    }
  }

  /** A second commit of the same directory writes nothing, if and only if no name in it holds the byte. */
  lemma SecondCommitWritesNothingIff(history: seq<Commit>, dir: seq<Entry>, history': seq<Commit>)
    requires GoodRepository(history) && GoodDirectory(dir) && CommitsTo(history, dir, history')
    ensures !Writes(history' == [], Recorded(history'), dir) <==> EofFree(dir)
  {
    CommitsToKeepsGood(history, dir, history');
    RecordIsRead(history');
    WritesIff(history', Recorded(history'), dir);
    CommittedFilesAreRead(history, dir, history', Recorded(history'));
    if dir != [] {
      assert dir[0] in dir;
    }
  }

  /** What `status` lists: the new, the modified and the copied files with their sources. */
  ghost function StatusLists(first: bool, last: Last, dir: seq<Entry>):
      (seq<string>, seq<string>, seq<string>, seq<string>)
  {
    if first then (Names(dir), [], [], [])
    else
      var s := Classify(last.files, dir);
      (s.newFiles, s.modified, s.copied, s.copiedSrc)
  }

  /** Status straight after a commit lists nothing, if and only if no name in the directory holds the byte. */
  lemma StatusAfterCommitListsNothingIff(history: seq<Commit>, dir: seq<Entry>, history': seq<Commit>)
    requires GoodRepository(history) && GoodDirectory(dir) && CommitsTo(history, dir, history')
    ensures StatusLists(history' == [], Recorded(history'), dir) == ([], [], [], []) <==> EofFree(dir)
  {
    SecondCommitWritesNothingIff(history, dir, history');
    CommitsToKeepsGood(history, dir, history');
    RecordIsRead(history');
    var last := Recorded(history');
    ReadFilesAreGood(history', last);
    ClassifyIsByKind(last.files, dir);
    assert Names(dir) == [] <==> dir == [];
  }

  // ----- a name that is the byte alone -----

  lemma NothingBehindASum(head: string, sum: string, text: string, pos: nat)
    requires Checksum(sum) && text == head + ([EOF_BYTE] + " " + sum + "\n") && pos == |head|
    ensures ReadBlock(text, pos) == Last(0, [])
  {
    assert head + ([EOF_BYTE] + " " + sum + "\n") == head + [EOF_BYTE] + " " + (sum + "\n");
    assert Drop(text, pos + 2) == sum + "\n" && sum + "\n" == "" + sum + "\n";
    ReadWordOf("", sum, "\n");
    assert SkipSpace("\n") == SkipSpace("\n"[1..]);
  }

  lemma SolePair(files: seq<Entry>, sum: string)
    requires files == [([EOF_BYTE], sum)] && |sum| == 32
    ensures Pairs(files) == [EOF_BYTE] + " " + sum + "\n" && |Pairs(files)| == 35 && !EofFree(files)
  {
    assert files[1..] == [] && files[0].0[0] == EOF_BYTE;
  }

  lemma SoleByteIsLastStop(c: Commit, sum: string) returns (head: string)
    requires GoodCommit(c) && Checksum(sum) && c.files == [([EOF_BYTE], sum)]
    ensures Block(c) == head + ([EOF_BYTE] + " " + sum + "\n") && LastStop(Block(c), |Block(c)|) == |head|
  {
    SolePair(c.files, sum);
    var q := LastStopIsInPairs("", c);
    head := BlockHead(c);
    assert "" + Block(c) == Block(c);
  }

  lemma SoleByteIsMisread(c: Commit, sum: string)
    requires GoodCommit(c) && Checksum(sum) && c.files == [([EOF_BYTE], sum)]
    ensures ReadLast(Block(c)) == Last(0, [])
  {
    var head := SoleByteIsLastStop(c, sum);
    NothingBehindASum(head, sum, Block(c), |head|);
  }

  lemma FirstTwoDiffer(files: seq<Entry>)
    requires SortedEntries(files)
    ensures |files| > 1 ==> files[0].0 != files[1].0
  {
    assert |files| > 1 ==> Names(files)[0] != Names(files)[1];
  }

  lemma SoleByteEntries(files: seq<Entry>, sum: string)
    requires SortedEntries(files) && FilesOf(files) == FilesOf([([EOF_BYTE], sum)])
    ensures files == [([EOF_BYTE], sum)]
  {
    var dir := [([EOF_BYTE], sum)];
    assert Names(dir) == [[EOF_BYTE]] && dir[0] == ([EOF_BYTE], sum);
    forall i | 0 <= i < |files|
      ensures files[i] == dir[0]
    {
      var (name, s) := files[i];
      assert files[i] in files;
      FilesOfHolds(files, name, s);
      FilesOfHolds(dir, name, s);
    }
    FilesOfHolds(dir, dir[0].0, sum);
    FilesOfHolds(files, dir[0].0, sum);
    FirstTwoDiffer(files);
  }

  lemma SoleFileIsNew(dir: seq<Entry>)
    requires |dir| == 1
    ensures Classify([], dir).newFiles == [dir[0].0] && Classify([], dir).diff
  {
    assert dir[..0] == [];
  }

  /** A directory with this one file is committed again and again, every time as the first commit. */
  lemma ByteMakesCommitsRepeat(c: Commit, sum: string)
    requires Checksum(sum) && CommitsTo([], [([EOF_BYTE], sum)], [c])
    ensures var dir := [([EOF_BYTE], sum)];
      && GoodDirectory(dir)
      && Writes(false, Recorded([c]), dir)
      && forall c' :: CommitsTo([c], dir, [c, c']) ==> c'.number == 1 && c'.newFiles == [[EOF_BYTE]]
  {
    var dir := [([EOF_BYTE], sum)];
    assert FileName(dir[0].0) && Names(dir) == [[EOF_BYTE]];
    NextCommitIsGood([], Recorded([]), dir, c);
    SoleByteEntries(c.files, sum);
    assert [c][..0] == [];
    assert Render([c]) == "" + Block(c);
    assert "" + Block(c) == Block(c);
    SoleByteIsMisread(c, sum);
    SoleFileIsNew(dir);
    forall c' | CommitsTo([c], dir, [c, c'])
      ensures c'.number == 1 && c'.newFiles == [[EOF_BYTE]]
    {
      assert [c, c'][1] == c';
    }
  }

  // ----- what a block tells of the changes -----

  /** The first commit lists every file as new, in the order of the directory. */
  lemma FirstBlockListsAllAsNew(dir: seq<Entry>, history': seq<Commit>)
    requires GoodDirectory(dir) && CommitsTo([], dir, history')
    ensures if dir == [] then history' == []
            else
              && |history'| == 1 && history'[0].number == 1
              && |history'[0].newFiles| == |dir| && (forall i :: 0 <= i < |dir| ==> history'[0].newFiles[i] == dir[i].0)
              && history'[0].modified == [] && history'[0].copied == []
              && forall e :: e in history'[0].files <==> e in dir
  {
    if dir != [] {
      forall e: Entry
        ensures e in history'[0].files <==> e in dir
      {
        FilesOfHolds(history'[0].files, e.0, e.1);
        FilesOfHolds(dir, e.0, e.1);
      }
    }
  }

  /** A later commit, if it writes a block, lists each file of the directory by what could be read before: as new, as
      modified, as a copy, or not at all. */
  lemma BlockListsTheChanges(history: seq<Commit>, dir: seq<Entry>, history': seq<Commit>, j: nat)
    requires GoodRepository(history) && GoodDirectory(dir) && CommitsTo(history, dir, history')
    requires history != [] && history' != history && j < |dir|
    ensures |history'| == |history| + 1 && history'[..|history|] == history
    ensures var c, name, sum := history'[|history|], dir[j].0, dir[j].1;
      var recorded := if EofFree(history[|history| - 1].files) then history[|history| - 1].files else [];
      var named := exists e :: e in recorded && e.0 == name;
      var seen := (exists e :: e in recorded && e.1 == sum) || exists i :: 0 <= i < j && dir[i].1 == sum;
      && (name in c.newFiles <==> !named && !seen)
      && (name in c.modified <==> named && (name, sum) !in recorded)
      && ((exists k :: 0 <= k < |c.copied| && c.copied[k].1 == name) <==> !named && seen)
  {
    var last, name := Recorded(history), dir[j].0;
    RecordIsRead(history);
    ReadFilesAreGood(history, last);
    ListsIff(last.files, dir, j);
    var s, c := Classify(last.files, dir), history'[|history|];
    if name in s.copied {
      var k :| 0 <= k < |s.copied| && s.copied[k] == name;
      assert c.copied[k].1 == name;
    }
    if k :| 0 <= k < |c.copied| && c.copied[k].1 == name {
      assert s.copied[k] == name;
    }
  }

  /** What `status` lists is what a commit would write into its block, and something if and only if it would write one. */
  lemma StatusForetellsTheCommit(history: seq<Commit>, dir: seq<Entry>, history': seq<Commit>)
    requires GoodRepository(history) && GoodDirectory(dir) && CommitsTo(history, dir, history')
    ensures var (newFiles, modified, copied, copiedSrc) := StatusLists(history == [], Recorded(history), dir);
      && |copied| == |copiedSrc|
      && (history' == history <==> newFiles == [] && modified == [] && copied == [])
      && (history' != history ==>
            && |history'| == |history| + 1
            && history'[|history|].newFiles == newFiles && history'[|history|].modified == modified
            && |history'[|history|].copied| == |copied|
            && forall k :: 0 <= k < |copied| ==> history'[|history|].copied[k] == (copiedSrc[k], copied[k]))
  {
    var last := Recorded(history);
    RecordIsRead(history);
    ReadFilesAreGood(history, last);
    ClassifyIsByKind(last.files, dir);
    assert Names(dir) == [] <==> dir == [];
  }

  // ----- well-formedness -----

  lemma WrittenFilesAreGood(recorded: seq<Entry>, dir: seq<Entry>, files: seq<Entry>)
    requires SortedEntries(recorded) && GoodEntries(recorded) && GoodDirectory(dir) && SortedEntries(files)
    requires FilesOf(files) == FilesOf(recorded) + FilesOf(dir)
    ensures GoodEntries(files)
  {
    forall i | 0 <= i < |files|
      ensures FileName(files[i].0) && Checksum(files[i].1)
    {
      var (name, sum) := files[i];
      FilesOfHolds(files, name, sum);
      FilesOfHolds(recorded, name, sum);
      FilesOfHolds(dir, name, sum);
      assert files[i] in files;
      if name in FilesOf(dir) {
        var k :| 0 <= k < |dir| && dir[k] == (name, sum);
        assert FileName(dir[k].0) && Checksum(dir[k].1);
      } else {
        var k :| 0 <= k < |recorded| && recorded[k] == (name, sum);
        assert FileName(recorded[k].0) && Checksum(recorded[k].1);
      }
    }
  }

  /** A name of a file that the commit knows can be listed by it. */
  lemma KnownNameIsListed(files: seq<Entry>, entries: seq<Entry>, name: string)
    requires SortedEntries(files) && GoodEntries(files) && SortedEntries(entries) && HasName(entries, name)
    requires FilesOf(entries).Keys <= FilesOf(files).Keys
    ensures Listed(name, files)
  {
    FilesOfHolds(entries, name, "");
    FilesOfHolds(files, name, "");
    assert name in FilesOf(entries).Keys;
  }

  lemma SourceIsKnown(recorded: seq<Entry>, dir: seq<Entry>, name: string, src: string)
    requires CopiedFrom(recorded, dir, |dir|, name, src)
    ensures HasName(dir, name) && (HasName(recorded, src) || HasName(dir, src))
  {
    var j :| 0 <= j < |dir| && dir[j].0 == name && KindOf(recorded, dir, j) == Copied
      && IsSource(recorded, dir, j, dir[j].1, src);
    if HasSum(recorded, |recorded|, dir[j].1) {
      var k :| 0 <= k < |recorded| && recorded[k] == (src, dir[j].1);
      assert recorded[k].0 == src;
    } else {
      var i :| 0 <= i < j && dir[i] == (src, dir[j].1);
      assert dir[i].0 == src;
    }
  }

  lemma ListedNamesAreKnown(recorded: seq<Entry>, dir: seq<Entry>)
    requires SortedEntries(recorded) && SortedEntries(dir)
    ensures var s := Classify(recorded, dir);
      && (forall i :: 0 <= i < |s.newFiles| ==> HasName(dir, s.newFiles[i]))
      && (forall i :: 0 <= i < |s.modified| ==> HasName(dir, s.modified[i]))
      && |s.copied| == |s.copiedSrc|
      && forall i :: 0 <= i < |s.copied| ==>
           HasName(dir, s.copied[i]) && (HasName(recorded, s.copiedSrc[i]) || HasName(dir, s.copiedSrc[i]))
  {
    ClassifyIsByKind(recorded, dir);
    var s := Classify(recorded, dir);
    var names, kinds := Names(dir), KindsOf(recorded, dir);
    PickIsSorted(names, kinds, |dir|, New);
    PickIsSorted(names, kinds, |dir|, Modified);
    assert names[..|dir|] == names;
    forall name | name in names
      ensures HasName(dir, name)
    {
      var i :| 0 <= i < |names| && names[i] == name;
      assert dir[i].0 == name;
    }
    assert forall i :: 0 <= i < |s.newFiles| ==> s.newFiles[i] in s.newFiles;
    assert forall i :: 0 <= i < |s.modified| ==> s.modified[i] in s.modified;
    forall i | 0 <= i < |s.copied|
      ensures HasName(dir, s.copied[i]) && (HasName(recorded, s.copiedSrc[i]) || HasName(dir, s.copiedSrc[i]))
    {
      SourceIsKnown(recorded, dir, s.copied[i], s.copiedSrc[i]);
    }
  }

  lemma FirstCommitIsGood(dir: seq<Entry>, last: Last, c: Commit)
    requires GoodDirectory(dir) && CommitOf(true, last, dir, c)
    ensures GoodCommit(c)
  {
    assert Names([]) == [] && FilesOf([]) + FilesOf(dir) == FilesOf(dir);
    WrittenFilesAreGood([], dir, c.files);
    forall i | 0 <= i < |dir|
      ensures Listed(c.newFiles[i], c.files)
    {
      assert HasName(dir, dir[i].0);
      KnownNameIsListed(c.files, dir, dir[i].0);
    }
  }

  lemma LaterCommitIsGood(dir: seq<Entry>, last: Last, c: Commit)
    requires GoodDirectory(dir) && CommitOf(false, last, dir, c) && SortedEntries(last.files) && GoodEntries(last.files)
    ensures GoodCommit(c)
  {
    ClassifyIsByKind(last.files, dir);
    WrittenFilesAreGood(last.files, dir, c.files);
    ListedNamesAreKnown(last.files, dir);
    forall name | HasName(last.files, name) || HasName(dir, name)
      ensures Listed(name, c.files)
    {
      KnownNameIsListed(c.files, if HasName(dir, name) then dir else last.files, name);
    }
  }

  lemma NextCommitIsGood(history: seq<Commit>, last: Last, dir: seq<Entry>, c: Commit)
    requires GoodRepository(history) && GoodDirectory(dir) && IsRead(history, last)
    requires CommitOf(history == [], last, dir, c)
    ensures GoodCommit(c)
  {
    ReadFilesAreGood(history, last);
    if history == [] {
      FirstCommitIsGood(dir, last, c);
    } else {
      LaterCommitIsGood(dir, last, c);
    }
  }

  lemma GoodAppend(history: seq<Commit>, history': seq<Commit>)
    requires GoodRepository(history) && |history'| == |history| + 1 && history'[..|history|] == history
    requires GoodCommit(history'[|history|]) && SortedEntries(history'[|history|].files)
    ensures GoodRepository(history')
  {
    assert forall k :: 0 <= k < |history| ==> history'[k] == history[k];
  }

  lemma CommitsToKeepsGood(history: seq<Commit>, dir: seq<Entry>, history': seq<Commit>)
    requires GoodRepository(history) && GoodDirectory(dir) && CommitsTo(history, dir, history')
    ensures GoodRepository(history')
  {
    var last := Recorded(history);
    RecordIsRead(history);
    if Writes(history == [], last, dir) {
      NextCommitIsGood(history, last, dir, history'[|history|]);
      GoodAppend(history, history');
    }
  }

  // ----- any sequence of commits -----

  /** A history is what some directories lead to, one commit after another. */
  ghost predicate Evolves(dirs: seq<seq<Entry>>, histories: seq<seq<Commit>>) {
    && |histories| == |dirs| + 1
    && histories[0] == []
    && (forall i {:trigger dirs[i]} :: 0 <= i < |dirs| ==> GoodDirectory(dirs[i]))
    && forall i {:trigger dirs[i]} :: 0 <= i < |dirs| ==> CommitsTo(histories[i], dirs[i], histories[i + 1])
  }

  lemma {:induction false} HistoriesAreGood(dirs: seq<seq<Entry>>, histories: seq<seq<Commit>>, n: nat)
    requires Evolves(dirs, histories) && n <= |dirs|
    ensures GoodRepository(histories[n])
  {
    if n > 0 {
      HistoriesAreGood(dirs, histories, n - 1);
      CommitsToKeepsGood(histories[n - 1], dirs[n - 1], histories[n]);
    }
  }

  /** In every block of the record each known file is told once, in the order of the names' bytes. */
  lemma FilesAreToldInOrder(dirs: seq<seq<Entry>>, histories: seq<seq<Commit>>, n: nat, k: nat, i: nat, j: nat)
    requires Evolves(dirs, histories) && n <= |dirs| && k < |histories[n]| && i < j < |histories[n][k].files|
    ensures var files := histories[n][k].files;
      Precedes(files[i].0, files[j].0) && files[i].0 != files[j].0
  {
    HistoriesAreGood(dirs, histories, n);
    var files := histories[n][k].files;
    SortedByBytes(Names(files));
    assert Precedes(Names(files)[i], Names(files)[j]) && Names(files)[i] != Names(files)[j];
  }

  /** The last directory that was not empty has a name with the byte. */
  ghost predicate Lost(dirs: seq<seq<Entry>>) {
    if dirs == [] then false
    else
      var dir := dirs[|dirs| - 1];
      if dir == [] then Lost(dirs[..|dirs| - 1]) else !EofFree(dir)
  }

  /** Each directory over those before it, from the last one on that was committed when the record could not be read. */
  ghost function Overlay(dirs: seq<seq<Entry>>): Files {
    if dirs == [] then map[]
    else
      var init, dir := dirs[..|dirs| - 1], dirs[|dirs| - 1];
      if Lost(init) && dir != [] then FilesOf(dir) else Overlay(init) + FilesOf(dir)
  }

  /** For any sequence of directories, whether the record can be read, and what its last block tells: the overlay of the
      directories. */
  lemma {:induction false} RecordIsOverlay(dirs: seq<seq<Entry>>, histories: seq<seq<Commit>>)
    requires Evolves(dirs, histories)
    ensures ReadsBack(histories[|dirs|]) <==> !Lost(dirs)
    ensures Known(histories[|dirs|]) == Overlay(dirs)
  {
    if dirs != [] {
      var n := |dirs| - 1;
      RecordIsOverlay(dirs[..n], histories[..n + 1]);
      HistoriesAreGood(dirs, histories, n);
      ReadsBackAfterCommitIff(histories[n], dirs[n], histories[n + 1]);
      CommitTakesSnapshotIff(histories[n], dirs[n], histories[n + 1]);
    }
  }

  /** Each directory over all those before it. */
  function OverlayOfAll(dirs: seq<seq<Entry>>): Files {
    if dirs == [] then map[] else OverlayOfAll(dirs[..|dirs| - 1]) + FilesOf(dirs[|dirs| - 1])
  }

  ghost predicate Numbered(history: seq<Commit>) {
    forall k :: 0 <= k < |history| ==> history[k].number == k + 1
  }

  ghost predicate AllNamesEofFree(dirs: seq<seq<Entry>>) {
    forall i {:trigger dirs[i]} :: 0 <= i < |dirs| ==> EofFree(dirs[i])
  }

  lemma {:induction false} NothingIsLost(dirs: seq<seq<Entry>>)
    requires AllNamesEofFree(dirs)
    ensures !Lost(dirs) && Overlay(dirs) == OverlayOfAll(dirs)
  {
    if dirs != [] {
      NothingIsLost(dirs[..|dirs| - 1]);
    }
  }

  lemma CommitIsNumbered(history: seq<Commit>, last: Last, dir: seq<Entry>, history': seq<Commit>)
    requires IsRead(history, last) && ReadsBack(history) && Numbered(history) && CommitsAs(last, history, dir, history')
    ensures Numbered(history')
  {
    if Writes(history == [], last, dir) {
      assert forall k :: 0 <= k < |history| ==> history'[k] == history'[..|history|][k];
    }
  }

  /** Without the byte in any name the commits are numbered from 1, and the record tells the overlay of all directories:
      files that have been deleted are never forgotten. */
  lemma {:induction false} RecordIsOverlayOfAll(dirs: seq<seq<Entry>>, histories: seq<seq<Commit>>)
    requires Evolves(dirs, histories) && AllNamesEofFree(dirs)
    ensures Numbered(histories[|dirs|]) && Known(histories[|dirs|]) == OverlayOfAll(dirs)
  {
    RecordIsOverlay(dirs, histories);
    NothingIsLost(dirs);
    if dirs != [] {
      var n := |dirs| - 1;
      RecordIsOverlayOfAll(dirs[..n], histories[..n + 1]);
      RecordIsOverlay(dirs[..n], histories[..n + 1]);
      NothingIsLost(dirs[..n]);
      HistoriesAreGood(dirs, histories, n);
      RecordIsRead(histories[n]);
      CommitIsNumbered(histories[n], Recorded(histories[n]), dirs[n], histories[n + 1]);
    }
  }
}
