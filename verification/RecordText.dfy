/** The text of the commit record: how a commit is written and how the last one is read back. */
module RecordText {
  // ----- characters and words -----

  predicate IsSpace(c: char) {
    c == ' ' || c == '\t' || c == '\n' || c == '\r' || c as int == 11 || c as int == 12
  }

  /** A word that `%s` reads back whole and that cannot be taken for the start of a commit. */
  ghost predicate Word(w: string) {
    w != "" && forall i :: 0 <= i < |w| ==> !IsSpace(w[i]) && w[i] != '#'
  }

  predicate IsHex(c: char) {
    '0' <= c <= '9' || 'a' <= c <= 'f'
  }

  /** What `md5sum` yields. */
  ghost predicate Checksum(sum: string) {
    |sum| == 32 && forall i :: 0 <= i < |sum| ==> IsHex(sum[i])
  }

  /** The byte that, as a signed `char`, compares equal to `EOF`; a name can hold it. */
  const EOF_BYTE: char := 255 as char

  /** `x` does not occur in `s`. */
  ghost predicate Free(s: string, x: char) {
    forall i :: 0 <= i < |s| ==> s[i] != x
  }

  const MD5_LINE := "(MD5)"

  ghost predicate FileName(name: string) {
    Word(name) && name != MD5_LINE
  }

  /** Which names and checksums the results are about: every word of the sixteen digits, and every name but those with white
      space or `'#'` in them and `(MD5)`. */
  lemma AdmittedIff(name: string, sum: string)
    ensures FileName(name) <==>
            && name != "" && name != "(MD5)"
            && forall i :: 0 <= i < |name| ==> name[i] !in " \t\n\r#" && name[i] as int != 11 && name[i] as int != 12
    ensures Checksum(sum) <==> |sum| == 32 && forall i :: 0 <= i < 32 ==> sum[i] in "0123456789abcdef"
  {
    forall c: char
      ensures IsHex(c) <==> c in "0123456789abcdef"
    {
      IsHexIff(c);
    }
  }

  lemma IsHexIff(c: char)
    ensures IsHex(c) <==> c in "0123456789abcdef"
  {
    var digits := "0123456789abcdef";
    if IsHex(c) {
      var i := if c <= '9' then c as int - '0' as int else 10 + (c as int - 'a' as int);
      assert digits[i] as int == c as int;
      assert digits[i] == c;
    }
  }

  function SkipSpace(s: string): string {
    if s != "" && IsSpace(s[0]) then SkipSpace(s[1..]) else s
  }

  /** The longest prefix without white space. */
  function Token(s: string): (w: string)
    ensures w <= s
  {
    if s == "" || IsSpace(s[0]) then "" else [s[0]] + Token(s[1..])
  }

  function IsDigit(c: char): bool {
    '0' <= c <= '9'
  }

  function DigitPrefix(s: string): (w: string)
    ensures w <= s && forall i :: 0 <= i < |w| ==> IsDigit(w[i])
  {
    if s == "" || !IsDigit(s[0]) then "" else [s[0]] + DigitPrefix(s[1..])
  }

  function Value(digits: string): nat
    requires forall i :: 0 <= i < |digits| ==> IsDigit(digits[i])
  {
    if digits == "" then 0
    else
      assert IsDigit(digits[|digits| - 1]);
      10 * Value(digits[..|digits| - 1]) + (digits[|digits| - 1] as int - '0' as int)
  }

  function Decimal(n: nat): (s: string)
    ensures s != "" && forall i :: 0 <= i < |s| ==> IsDigit(s[i])
  {
    if n < 10 then ['0' + n as char] else Decimal(n / 10) + ['0' + (n % 10) as char]
  }

  lemma {:induction false} ValueOfDecimal(n: nat)
    ensures Value(Decimal(n)) == n
  {
    if n >= 10 {
      ValueOfDecimal(n / 10);
      assert Decimal(n)[..|Decimal(n)| - 1] == Decimal(n / 10);
    } else {
      assert Decimal(n)[..0] == "";
    }
  }

  lemma {:induction false} TokenOf(w: string, rest: string)
    requires forall i :: 0 <= i < |w| ==> !IsSpace(w[i])
    requires rest != "" ==> IsSpace(rest[0])
    ensures Token(w + rest) == w
  {
    if w != "" {
      assert (w + rest)[1..] == w[1..] + rest;
      TokenOf(w[1..], rest);
    } else {
      assert w + rest == rest;
    }
  }

  lemma {:induction false} DigitPrefixOf(w: string, rest: string)
    requires forall i :: 0 <= i < |w| ==> IsDigit(w[i])
    requires rest != "" ==> !IsDigit(rest[0])
    ensures DigitPrefix(w + rest) == w
  {
    if w != "" {
      assert (w + rest)[1..] == w[1..] + rest;
      DigitPrefixOf(w[1..], rest);
    } else {
      assert w + rest == rest;
    }
  }

  // ----- writing -----

  type Entry = (string, string)

  /** One block of the record.  `files` is every known file with its checksum, and `copied` pairs source and copy. */
  datatype Commit = Commit(number: nat, newFiles: seq<string>, modified: seq<string>, copied: seq<Entry>, files: seq<Entry>)

  function Lines(lines: seq<string>): string {
    if lines == [] then "" else lines[0] + "\n" + Lines(lines[1..])
  }

  function CopiedLines(copied: seq<Entry>): (lines: seq<string>)
    ensures |lines| == |copied|
    ensures forall i :: 0 <= i < |copied| ==> lines[i] == copied[i].0 + " => " + copied[i].1
  {
    seq(|copied|, i requires 0 <= i < |copied| => copied[i].0 + " => " + copied[i].1)
  }

  function Pairs(files: seq<Entry>): string {
    if files == [] then "" else files[0].0 + " " + files[0].1 + "\n" + Pairs(files[1..])
  }

  function Listing(newFiles: seq<string>, modified: seq<string>, copied: seq<Entry>): seq<string> {
    ["[new_file]"] + newFiles + ["[modified]"] + modified + ["[copied]"] + CopiedLines(copied)
  }

  function Block(c: Commit): string {
    "# commit " + Decimal(c.number) + "\n" + Lines(Listing(c.newFiles, c.modified, c.copied)) + MD5_LINE + "\n"
    + Pairs(c.files)
  }

  /** The record after some commits: every block but the first is preceded by an empty line. */
  function Render(history: seq<Commit>): string
    decreases |history|, 1
  {
    if history == [] then ""
    else Before(history) + Block(history[|history| - 1])
  }

  function Before(history: seq<Commit>): string
    requires history != []
    decreases |history|, 0
  {
    if |history| == 1 then "" else Render(history[..|history| - 1]) + "\n"
  }

  // ----- reading -----

  /** Drops lines up to and including the one that announces the checksums. */
  function AfterMd5Line(s: string): string {
    if s == "" then ""
    else
      var line := LineOf(s);
      if line == MD5_LINE + "\n" then s[|line|..] else AfterMd5Line(s[|line|..])
  }

  /** What `fgets` reads: up to and including the first newline. */
  function LineOf(s: string): (line: string)
    ensures line <= s && (s != "" ==> line != "")
  {
    if s == "" then "" else if s[0] == '\n' then "\n" else [s[0]] + LineOf(s[1..])
  }

  /** `%s`: the next word, which is empty at the end of the text, and what follows it. */
  function ReadWord(s: string): (r: (string, string))
    ensures |r.0| + |r.1| <= |s|
  {
    var s1 := SkipSpace(s);
    SkipSpaceShrinks(s);
    (Token(s1), s1[|Token(s1)|..])
  }

  /** Reads pairs of words while there are any. */
  function ReadPairs(s: string): (files: seq<Entry>)
    decreases |s|
  {
    var (a, s1) := ReadWord(s);
    if a == "" then []
    else
      var (b, s2) := ReadWord(s1);
      if b == "" then [] else [(a, b)] + ReadPairs(s2)
  }

  lemma SkipSpaceShrinks(s: string)
    ensures |SkipSpace(s)| <= |s|
  {
  }

  datatype Last = Last(number: nat, files: seq<Entry>)

  function Drop(s: string, k: nat): string {
    if k <= |s| then s[k..] else ""
  }

  /** Reads from the character at position `pos`, at which the backward scan has stopped, as the source does with `fseek`,
      `fscanf` and `fgets`. */
  function ReadBlock(text: string, pos: nat): Last {
    var s1 := SkipSpace(ReadWord(Drop(text, pos + 2)).1);
    var digits := DigitPrefix(s1);
    Last(Value(digits), ReadPairs(AfterMd5Line(SkipSpace(s1[|digits|..]))))
  }

  // ----- the text as it stands in the file -----

  lemma {:induction false} DecimalHasNoLeadingZero(n: nat)
    ensures |Decimal(n)| > 1 ==> Decimal(n)[0] != '0'
    ensures n > 0 ==> Decimal(n)[0] != '0'
  {
    if n >= 10 {
      DecimalHasNoLeadingZero(n / 10);
    }
  }

  lemma {:induction false} LinesConcat(a: seq<string>, b: seq<string>)
    ensures Lines(a + b) == Lines(a) + Lines(b)
  {
    if a == [] {
      assert a + b == b;
    } else {
      assert (a + b)[1..] == a[1..] + b;
      LinesConcat(a[1..], b);
    }
  }

  lemma LineAlone(line: string)
    ensures Lines([line]) == line + "\n"
  {
    assert [line][1..] == [];
  }

  lemma {:induction false} PairsAreLines(files: seq<Entry>, lines: seq<string>)
    requires |lines| == |files| && forall i :: 0 <= i < |files| ==> lines[i] == files[i].0 + " " + files[i].1
    ensures Pairs(files) == Lines(lines)
  {
    if files != [] {
      PairsAreLines(files[1..], lines[1..]);
    }
  }

  /** The lines of a block: its number, the three lists under their titles, and the files with their checksums. */
  lemma BlockIsItsLines(c: Commit, copies: seq<string>, sums: seq<string>)
    requires |copies| == |c.copied| && forall i :: 0 <= i < |copies| ==> copies[i] == c.copied[i].0 + " => " + c.copied[i].1
    requires |sums| == |c.files| && forall i :: 0 <= i < |sums| ==> sums[i] == c.files[i].0 + " " + c.files[i].1
    ensures Block(c) == Lines(["# commit " + Decimal(c.number)] + ["[new_file]"] + c.newFiles + ["[modified]"] + c.modified
                              + ["[copied]"] + copies + ["(MD5)"] + sums)
  {
    var number, listing := "# commit " + Decimal(c.number), Listing(c.newFiles, c.modified, c.copied);
    ListingIsItsLines(c, copies);
    assert [number] + ["[new_file]"] + c.newFiles + ["[modified]"] + c.modified + ["[copied]"] + copies
           == [number] + listing;
    LinesOfParts(number, listing, sums);
    PairsAreLines(c.files, sums);
  }

  lemma ListingIsItsLines(c: Commit, copies: seq<string>)
    requires |copies| == |c.copied| && forall i :: 0 <= i < |copies| ==> copies[i] == c.copied[i].0 + " => " + c.copied[i].1
    ensures Listing(c.newFiles, c.modified, c.copied) ==
            ["[new_file]"] + c.newFiles + ["[modified]"] + c.modified + ["[copied]"] + copies
  {
    assert CopiedLines(c.copied) == copies;
  }

  lemma LinesOfParts(number: string, listing: seq<string>, sums: seq<string>)
    ensures Lines([number] + listing + ["(MD5)"] + sums) == number + "\n" + Lines(listing) + "(MD5)" + "\n" + Lines(sums)
  {
    LinesConcat([number] + listing + ["(MD5)"], sums);
    LinesConcat([number] + listing, ["(MD5)"]);
    LinesConcat([number], listing);
    LineAlone(number);
    LineAlone("(MD5)");
    JoinedLines(number + "\n", Lines(listing), "(MD5)", Lines(sums));
  }

  lemma JoinedLines(a: string, b: string, c: string, d: string)
    ensures a + b + (c + "\n") + d == a + b + c + "\n" + d
  {
    assert a + b + (c + "\n") == a + b + c + "\n";
  }

  // ----- reading undoes writing -----

  ghost predicate GoodEntries(files: seq<Entry>) {
    forall i :: 0 <= i < |files| ==> FileName(files[i].0) && Checksum(files[i].1)
  }

  ghost predicate HasName(entries: seq<Entry>, name: string) {
    exists i :: 0 <= i < |entries| && entries[i].0 == name
  }

  /** A name that a commit lists is one of its files. */
  ghost predicate Listed(name: string, files: seq<Entry>) {
    FileName(name) && HasName(files, name)
  }

  ghost predicate GoodCommit(c: Commit) {
    && (forall i :: 0 <= i < |c.newFiles| ==> Listed(c.newFiles[i], c.files))
    && (forall i :: 0 <= i < |c.modified| ==> Listed(c.modified[i], c.files))
    && (forall i :: 0 <= i < |c.copied| ==> Listed(c.copied[i].0, c.files) && Listed(c.copied[i].1, c.files))
    && GoodEntries(c.files)
  }

  lemma SkipSpaceOfWord(s: string)
    requires s != "" && !IsSpace(s[0])
    ensures SkipSpace(s) == s && SkipSpace(" " + s) == s && SkipSpace("\n" + s) == s
  {
    assert (" " + s)[1..] == s && ("\n" + s)[1..] == s;
  }

  lemma ReadWordOf(front: string, w: string, rest: string)
    requires w != "" && (forall i :: 0 <= i < |w| ==> !IsSpace(w[i])) && (rest != "" ==> IsSpace(rest[0]))
    requires front == "" || front == " " || front == "\n"
    ensures ReadWord(front + w + rest) == (w, rest)
  {
    var s := w + rest;
    assert front + w + rest == front + s;
    assert "" + s == s;
    SkipSpaceOfWord(s);
    TokenOf(w, rest);
    assert s[|w|..] == rest;
  }

  lemma ReadOnePair(a: string, b: string, rest: string, front: string)
    requires Word(a) && Checksum(b) && (front == "" || front == "\n")
    ensures ReadPairs(front + (a + " " + b + "\n" + rest)) == [(a, b)] + ReadPairs("\n" + rest)
  {
    assert front + (a + " " + b + "\n" + rest) == front + a + (" " + b + ("\n" + rest));
    ReadWordOf(front, a, " " + b + ("\n" + rest));
    ReadWordOf(" ", b, "\n" + rest);
  }

  lemma {:induction false} ReadPairsOfPairs(files: seq<Entry>, front: string)
    requires GoodEntries(files) && (front == "" || front == "\n")
    ensures ReadPairs(front + Pairs(files)) == files
  {
    if files == [] {
      assert SkipSpace("") == "";
      assert SkipSpace("\n") == SkipSpace("\n"[1..]);
    } else {
      ReadOnePair(files[0].0, files[0].1, Pairs(files[1..]), front);
      ReadPairsOfPairs(files[1..], "\n");
    }
  }

  /** A name without a checksum behind it, at the end of the text, is not read. */
  lemma LoneWordIsNotRead(w: string)
    requires Word(w)
    ensures ReadPairs(w) == [] && ReadPairs(w + "\n") == []
  {
    assert w == "" + w + "" && w + "\n" == "" + w + "\n";
    ReadWordOf("", w, "");
    ReadWordOf("", w, "\n");
    assert SkipSpace("\n") == SkipSpace("\n"[1..]);
  }

  ghost predicate Line(line: string) {
    line != MD5_LINE && forall i :: 0 <= i < |line| ==> line[i] != '\n'
  }

  lemma {:induction false} LineOfLine(line: string, rest: string)
    requires forall i :: 0 <= i < |line| ==> line[i] != '\n'
    ensures LineOf(line + "\n" + rest) == line + "\n"
  {
    var s := line + "\n" + rest;
    if line == "" {
      assert s[0] == '\n';
    } else {
      assert s[1..] == line[1..] + "\n" + rest;
      LineOfLine(line[1..], rest);
    }
  }

  lemma {:induction false} AfterMd5LineOfLines(lines: seq<string>, rest: string)
    requires forall i :: 0 <= i < |lines| ==> Line(lines[i])
    ensures AfterMd5Line(Lines(lines) + MD5_LINE + "\n" + rest) == rest
  {
    var s := Lines(lines) + MD5_LINE + "\n" + rest;
    if lines == [] {
      assert s == MD5_LINE + "\n" + rest;
      LineOfLine(MD5_LINE, rest);
    } else {
      var tail := Lines(lines[1..]) + MD5_LINE + "\n" + rest;
      assert s == lines[0] + "\n" + tail;
      LineOfLine(lines[0], tail);
      var line := lines[0] + "\n";
      assert line != MD5_LINE + "\n" by {
        assert line[..|line| - 1] == lines[0] && (MD5_LINE + "\n")[..|MD5_LINE|] == MD5_LINE;
      }
      assert s[|line|..] == tail;
      AfterMd5LineOfLines(lines[1..], rest);
    }
  }

  lemma ListingIsLines(c: Commit)
    requires GoodCommit(c)
    ensures forall i :: 0 <= i < |Listing(c.newFiles, c.modified, c.copied)| ==>
              Line(Listing(c.newFiles, c.modified, c.copied)[i])
  {
    forall name | Listed(name, c.files)
      ensures Line(name)
    {
      assert forall i :: 0 <= i < |name| ==> !IsSpace(name[i]);
    }
    forall i | 0 <= i < |c.copied|
      ensures Line(CopiedLines(c.copied)[i])
    {
      var line, k := CopiedLines(c.copied)[i], |c.copied[i].0|;
      assert line[k] == ' ';
      assert forall j :: 0 <= j < |line| ==> line[j] != '\n';
    }
  }

  /** The number after a word, and then the text behind the following white space. */
  lemma ReadHeader(word: string, n: nat, listing: string)
    requires word != "" && (forall i :: 0 <= i < |word| ==> !IsSpace(word[i]))
    requires listing != "" && !IsSpace(listing[0])
    ensures var s1 := SkipSpace(ReadWord(word + " " + Decimal(n) + "\n" + listing).1);
      DigitPrefix(s1) == Decimal(n) && SkipSpace(s1[|Decimal(n)|..]) == listing
  {
    var tail := Decimal(n) + ("\n" + listing);
    assert word + " " + Decimal(n) + "\n" + listing == "" + word + (" " + tail);
    ReadWordOf("", word, " " + tail);
    SkipSpaceOfWord(tail);
    DigitPrefixOf(Decimal(n), "\n" + listing);
    assert tail[|Decimal(n)|..] == "\n" + listing;
    SkipSpaceOfWord(listing);
  }

  lemma ListingText(c: Commit)
    ensures var listing := Lines(Listing(c.newFiles, c.modified, c.copied)) + MD5_LINE + "\n" + Pairs(c.files);
      && listing != "" && listing[0] == '['
      && Block(c) == "# " + ("commit" + " " + Decimal(c.number) + "\n" + listing)
  {
    var lines := Listing(c.newFiles, c.modified, c.copied);
    assert lines[0] == "[new_file]";
    assert Lines(lines)[0] == '[';
    assert "# commit " == "# " + "commit" + " ";
  }

  lemma ReadListing(c: Commit)
    requires GoodCommit(c)
    ensures ReadPairs(AfterMd5Line(Lines(Listing(c.newFiles, c.modified, c.copied)) + MD5_LINE + "\n" + Pairs(c.files)))
            == c.files
  {
    ListingIsLines(c);
    AfterMd5LineOfLines(Listing(c.newFiles, c.modified, c.copied), Pairs(c.files));
    ReadPairsOfPairs(c.files, "");
    assert "" + Pairs(c.files) == Pairs(c.files);
  }

  /** Reading a block back gives the number and the files that were written. */
  lemma ReadBlockOfBlock(front: string, c: Commit)
    requires GoodCommit(c)
    ensures |front| + 2 <= |front + Block(c)|
    ensures ReadBlock(front + Block(c), |front|) == Last(c.number, c.files)
  {
    ListingText(c);
    var listing := Lines(Listing(c.newFiles, c.modified, c.copied)) + MD5_LINE + "\n" + Pairs(c.files);
    var s1 := "commit" + " " + Decimal(c.number) + "\n" + listing;
    assert Drop(front + Block(c), |front| + 2) == s1;
    ReadHeader("commit", c.number, listing);
    ValueOfDecimal(c.number);
    ReadListing(c);
  }
}
