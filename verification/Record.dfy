/** The whole record: how far the scans of it go, and when the last commit is read back. */
module Record {
  import opened RecordText

  ghost predicate GoodHistory(history: seq<Commit>) {
    forall k :: 0 <= k < |history| ==> GoodCommit(history[k])
  }

  // ----- the scans, which stop at a '#' and also at the byte that looks like the end of the file -----

  predicate IsStop(c: char) {
    c == '#' || c == EOF_BYTE
  }

  /** The last stop among the first `n` characters, or `-1`. */
  function LastStop(text: string, n: nat): (k: int)
    requires n <= |text|
    ensures -1 <= k < n
    ensures k >= 0 ==> IsStop(text[k])
    ensures forall i :: k < i < n ==> !IsStop(text[i])
  {
    if n == 0 then -1 else if IsStop(text[n - 1]) then n - 1 else LastStop(text, n - 1)
  }

  /** The first stop from `from` on, or the end. */
  function NextStop(text: string, from: nat): (k: nat)
    requires from <= |text|
    ensures from <= k <= |text|
    ensures k < |text| ==> IsStop(text[k])
    ensures forall i :: from <= i < k ==> !IsStop(text[i])
    decreases |text| - from
  {
    if from == |text| || IsStop(text[from]) then from else NextStop(text, from + 1)
  }

  function ReadLast(text: string): Last {
    var pos := LastStop(text, |text|);
    if pos < 0 then Last(0, []) else ReadBlock(text, pos)
  }

  // ----- which characters a block holds -----

  lemma FreeConcat(a: string, b: string, x: char)
    ensures Free(a + b, x) <==> Free(a, x) && Free(b, x)
  {
    if Free(a + b, x) {
      assert forall i :: 0 <= i < |a| ==> a[i] == (a + b)[i];
      assert forall i :: 0 <= i < |b| ==> b[i] == (a + b)[|a| + i];
    }
  }

  lemma {:induction false} LinesAreFree(lines: seq<string>, x: char)
    requires x != '\n' && forall i :: 0 <= i < |lines| ==> Free(lines[i], x)
    ensures Free(Lines(lines), x)
  {
    if lines != [] {
      LinesAreFree(lines[1..], x);
    }
  }

  lemma {:induction false} PairsAreFree(files: seq<Entry>, x: char)
    requires x != ' ' && x != '\n' && forall i :: 0 <= i < |files| ==> Free(files[i].0, x) && Free(files[i].1, x)
    ensures Free(Pairs(files), x)
  {
    if files != [] {
      PairsAreFree(files[1..], x);
    }
  }

  lemma CopiedLinesAreFree(copied: seq<Entry>, x: char)
    requires x != ' ' && x != '=' && x != '>'
    requires forall i :: 0 <= i < |copied| ==> Free(copied[i].0, x) && Free(copied[i].1, x)
    ensures forall i :: 0 <= i < |copied| ==> Free(CopiedLines(copied)[i], x)
  {
  }

  /** Whether the character can occur in names only. */
  predicate NameChar(x: char) {
    x == '#' || x == EOF_BYTE
  }

  lemma ListingIsFree(c: Commit, x: char)
    requires GoodCommit(c) && NameChar(x) && forall i :: 0 <= i < |c.files| ==> Free(c.files[i].0, x)
    ensures Free(Lines(Listing(c.newFiles, c.modified, c.copied)), x)
  {
    forall name | Listed(name, c.files)
      ensures Free(name, x)
    {
      var i :| 0 <= i < |c.files| && c.files[i].0 == name;
    }
    CopiedLinesAreFree(c.copied, x);
    LinesAreFree(Listing(c.newFiles, c.modified, c.copied), x);
  }

  lemma DecimalIsFree(n: nat, x: char)
    requires !IsDigit(x)
    ensures Free(Decimal(n), x)
  {
    assert forall i :: 0 <= i < |Decimal(n)| ==> IsDigit(Decimal(n)[i]);
  }

  /** A block after its first character. */
  function Body(c: Commit): string {
    " commit " + Decimal(c.number) + "\n" + Lines(Listing(c.newFiles, c.modified, c.copied)) + MD5_LINE + "\n"
    + Pairs(c.files)
  }

  lemma BlockIsHashAndBody(c: Commit)
    ensures Block(c) == "#" + Body(c) && Body(c)[..4] == " com"
  {
    assert "# commit " == "#" + " commit ";
  }

  lemma BodyIsFree(c: Commit, x: char)
    requires GoodCommit(c) && NameChar(x) && forall i :: 0 <= i < |c.files| ==> Free(c.files[i].0, x)
    ensures Free(Body(c), x)
  {
    ListingIsFree(c, x);
    PairsAreFree(c.files, x);
    DecimalIsFree(c.number, x);
    var listing := Lines(Listing(c.newFiles, c.modified, c.copied));
    FreeConcat(" commit " + Decimal(c.number) + "\n", listing, x);
    FreeConcat(" commit " + Decimal(c.number) + "\n" + listing, MD5_LINE + "\n", x);
    assert " commit " + Decimal(c.number) + "\n" + listing + (MD5_LINE + "\n") ==
           " commit " + Decimal(c.number) + "\n" + listing + MD5_LINE + "\n";
    FreeConcat(" commit " + Decimal(c.number) + "\n" + listing + MD5_LINE + "\n", Pairs(c.files), x);
  }

  /** No file of the commit has the byte in its name. */
  ghost predicate EofFree(files: seq<Entry>) {
    forall i :: 0 <= i < |files| ==> Free(files[i].0, EOF_BYTE)
  }

  lemma BodyIsHashFree(c: Commit)
    requires GoodCommit(c)
    ensures Free(Body(c), '#')
  {
    BodyIsFree(c, '#');
  }

  // ----- the last byte of that kind in a block -----

  /** The byte at `q` is followed by the rest of a name, a space and a checksum; and wherever it stands, the two or three
      characters behind it are not those behind the `'#'` of a block. */
  ghost predicate InName(pairs: string, q: nat) {
    && q + 35 <= |pairs|
    && (pairs[q + 1] != ' ' || IsHex(pairs[q + 3]))
  }

  lemma PairHoldsItInName(name: string, sum: string, rest: string, q: nat)
    requires FileName(name) && Checksum(sum) && q < |name| && name[q] == EOF_BYTE
    ensures InName(name + " " + sum + "\n" + rest, q)
  {
    var s := name + " " + sum + "\n" + rest;
    if q + 1 < |name| {
      assert s[q + 1] == name[q + 1];
    } else {
      assert s[q + 3] == sum[1];
    }
  }

  lemma {:induction false} EofByteIsInName(files: seq<Entry>, q: nat)
    requires GoodEntries(files) && q < |Pairs(files)| && Pairs(files)[q] == EOF_BYTE
    ensures InName(Pairs(files), q)
  {
    var (name, sum) := files[0];
    var rest, front := Pairs(files[1..]), name + " " + sum + "\n";
    assert Pairs(files) == front + rest;
    forall i | |name| <= i < |front|
      ensures front[i] != EOF_BYTE
    {
      assert front[i] == ' ' || front[i] == '\n' || front[i] == sum[i - |name| - 1];
    }
    if q < |name| {
      PairHoldsItInName(name, sum, rest, q);
    } else {
      assert rest[q - |front|] == Pairs(files)[q];
      EofByteIsInName(files[1..], q - |front|);
    }
  }

  lemma {:induction false} PairsHoldNames(files: seq<Entry>, i: nat, x: char)
    requires i < |files| && Free(Pairs(files), x)
    ensures Free(files[i].0, x)
  {
    var front := files[0].0 + " " + files[0].1 + "\n";
    assert Pairs(files) == front + Pairs(files[1..]);
    FreeConcat(front, Pairs(files[1..]), x);
    if i > 0 {
      PairsHoldNames(files[1..], i - 1, x);
    } else {
      assert front == files[0].0 + (" " + files[0].1 + "\n");
      FreeConcat(files[0].0, " " + files[0].1 + "\n", x);
    }
  }

  /** If a name holds the byte, the last one of the block is in the part that tells the files. */
  lemma LastEofByte(c: Commit) returns (q: nat)
    requires GoodCommit(c) && !EofFree(c.files)
    ensures q < |Pairs(c.files)| && Pairs(c.files)[q] == EOF_BYTE && InName(Pairs(c.files), q)
    ensures forall i :: q < i < |Pairs(c.files)| ==> !IsStop(Pairs(c.files)[i])
  {
    var pairs := Pairs(c.files);
    var i :| 0 <= i < |c.files| && !Free(c.files[i].0, EOF_BYTE);
    if Free(pairs, EOF_BYTE) {
      PairsHoldNames(c.files, i, EOF_BYTE);
    }
    PairsAreFree(c.files, '#');
    var k := LastStop(pairs, |pairs|);
    assert k >= 0 by {
      var j :| 0 <= j < |pairs| && pairs[j] == EOF_BYTE;
      assert IsStop(pairs[j]);
    }
    q := k;
    EofByteIsInName(c.files, q);
  }

  // ----- reading the last commit -----

  /** No line of the text is the one before the checksums. */
  ghost predicate NoMd5Line(s: string) {
    forall i :: 0 < i < |s| && s[i] == '\n' ==> s[i - 1] != ')'
  }

  lemma NoMd5LineOfRest(s: string, k: nat)
    requires NoMd5Line(s) && k <= |s|
    ensures NoMd5Line(s[k..])
  {
    assert forall i :: 0 <= i < |s| - k ==> s[k..][i] == s[k + i];
  }

  lemma {:induction false} NothingAfterMd5Line(s: string)
    requires NoMd5Line(s)
    ensures AfterMd5Line(s) == ""
    decreases |s|
  {
    if s != "" {
      var line := LineOf(s);
      assert |line| == 6 ==> s[4] == line[4] && s[5] == line[5];
      assert line != MD5_LINE + "\n";
      NoMd5LineOfRest(s, |line|);
      NothingAfterMd5Line(s[|line|..]);
    }
  }

  lemma {:induction false} PairsHaveNoMd5Line(files: seq<Entry>)
    requires GoodEntries(files)
    ensures NoMd5Line(Pairs(files))
  {
    if files != [] {
      var (name, sum) := files[0];
      var front, rest := name + " " + sum + "\n", Pairs(files[1..]);
      PairsHaveNoMd5Line(files[1..]);
      assert Pairs(files) == front + rest;
      forall i | 0 < i < |Pairs(files)| && Pairs(files)[i] == '\n'
        ensures Pairs(files)[i - 1] != ')'
      {
        if i < |front| {
          assert i == |front| - 1 && front[i - 1] == sum[31];
        } else if i == |front| {
          assert front[i - 1] == '\n';
        } else {
          assert rest[i - |front|] == '\n' && rest[i - |front| - 1] == Pairs(files)[i - 1];
        }
      }
    }
  }

  lemma {:induction false} SkippedSpace(s: string) returns (k: nat)
    ensures k <= |s| && SkipSpace(s) == s[k..]
  {
    if s != "" && IsSpace(s[0]) {
      k := SkippedSpace(s[1..]);
      assert s[1..][k..] == s[k + 1..];
      k := k + 1;
    } else {
      k := 0;
    }
  }

  /** Reading on behind the byte in a name meets no line before the checksums, and so no files. */
  lemma NothingIsReadFromPairs(text: string, pos: nat)
    requires NoMd5Line(Drop(text, pos + 2))
    ensures ReadBlock(text, pos).files == []
  {
    var s := Drop(text, pos + 2);
    var k := SkippedSpace(s);
    NoMd5LineOfRest(s, k);
    var word := Token(s[k..]);
    NoMd5LineOfRest(s[k..], |word|);
    var s0 := s[k..][|word|..];
    var l := SkippedSpace(s0);
    NoMd5LineOfRest(s0, l);
    var s1 := s0[l..];
    NoMd5LineOfRest(s1, |DigitPrefix(s1)|);
    var s2 := s1[|DigitPrefix(s1)|..];
    var m := SkippedSpace(s2);
    NoMd5LineOfRest(s2, m);
    NothingAfterMd5Line(s2[m..]);
  }

  lemma LastStopIs(text: string, n: nat, k: nat)
    requires k < n <= |text| && IsStop(text[k]) && forall i :: k < i < n ==> !IsStop(text[i])
    ensures LastStop(text, n) == k
  {
  }

  lemma FreeOfStops(s: string, i: nat)
    requires i < |s| && Free(s, '#') && Free(s, EOF_BYTE)
    ensures !IsStop(s[i])
  {
  }

  lemma LastHashOpensLastBlock(front: string, c: Commit)
    requires GoodCommit(c) && EofFree(c.files)
    ensures LastStop(front + Block(c), |front + Block(c)|) == |front|
  {
    var text := front + Block(c);
    BlockIsHashAndBody(c);
    BodyIsFree(c, '#');
    BodyIsFree(c, EOF_BYTE);
    assert text == front + "#" + Body(c);
    forall i | |front| < i < |text|
      ensures !IsStop(text[i])
    {
      FreeOfStops(Body(c), i - |front| - 1);
    }
    LastStopIs(text, |text|, |front|);
  }

  lemma BlockHead(c: Commit) returns (head: string)
    ensures head != "" && Block(c) == head + Pairs(c.files)
  {
    head := "# commit " + Decimal(c.number) + "\n" + Lines(Listing(c.newFiles, c.modified, c.copied)) + MD5_LINE + "\n";
  }

  /** With the byte in a name, the scan stops there. */
  lemma LastStopIsInPairs(front: string, c: Commit) returns (q: nat)
    requires GoodCommit(c) && !EofFree(c.files)
    ensures q < |Pairs(c.files)| && InName(Pairs(c.files), q) && |Pairs(c.files)| <= |Block(c)|
    ensures LastStop(front + Block(c), |front + Block(c)|) == |front| + |Block(c)| - |Pairs(c.files)| + q
  {
    q := LastEofByte(c);
    var text, pairs := front + Block(c), Pairs(c.files);
    var head := front + Block(c)[..|Block(c)| - |pairs|];
    assert text == head + pairs;
    forall i | |head| + q < i < |text|
      ensures !IsStop(text[i])
    {
      assert text[i] == pairs[i - |head|];
    }
    LastStopIs(text, |text|, |head| + q);
  }

  /** Reading back the last commit, whatever was written before it: it is read back if and only if none of its names holds
      the byte; otherwise no files are read at all. */
  lemma ReadLastOfBlock(front: string, c: Commit)
    requires GoodCommit(c)
    ensures LastStop(front + Block(c), |front + Block(c)|) >= 0
    ensures ReadLast(front + Block(c)) == Last(c.number, c.files) <==> EofFree(c.files)
    ensures !EofFree(c.files) ==> ReadLast(front + Block(c)).files == []
  {
    var text, pairs := front + Block(c), Pairs(c.files);
    if EofFree(c.files) {
      LastHashOpensLastBlock(front, c);
      ReadBlockOfBlock(front, c);
    } else {
      var q := LastStopIsInPairs(front, c);
      var pos := |front| + |Block(c)| - |pairs| + q;
      assert Drop(text, pos + 2) == pairs[q + 2..];
      PairsHaveNoMd5Line(c.files);
      NoMd5LineOfRest(pairs, q + 2);
      NothingIsReadFromPairs(text, pos);
    }
  }

  lemma ReadLastOfRender(history: seq<Commit>)
    requires GoodHistory(history) && history != []
    ensures var c, text := history[|history| - 1], Render(history);
      && LastStop(text, |text|) >= 0
      && (ReadLast(text) == Last(c.number, c.files) <==> EofFree(c.files))
      && (!EofFree(c.files) ==> ReadLast(text).files == [])
  {
    ReadLastOfBlock(Before(history), history[|history| - 1]);
  }
}
