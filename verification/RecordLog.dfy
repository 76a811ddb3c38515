/** `log`: listing the newest commits of a record. */
module RecordLog {
  import opened RecordText
  import opened Record

  // ----- `log` on any text -----

  function DropLast(s: string): string {
    if s == "" then "" else s[..|s| - 1]
  }

  /** A record that the scans of `log` stay within: it starts with `'#'`, ends with something else, and before each other
      `'#'` there is a character at which they do not stop. */
  ghost predicate Separated(text: string) {
    && text != "" && text[0] == '#' && !IsStop(text[|text| - 1])
    && forall i, j {:trigger text[i], text[j]} :: 0 <= i < j < |text| && j == i + 1 && IsStop(text[i]) ==> text[j] != '#'
  }

  /** `tag` is one more than the position of a `'#'` that is not the first, or than the end. */
  predicate IsTag(text: string, tag: nat) {
    2 <= tag <= |text| + 1 && (tag <= |text| ==> text[tag - 1] == '#')
  }

  lemma StopBeforeTag(text: string, tag: nat)
    requires Separated(text) && IsTag(text, tag)
    ensures var pos := LastStop(text, tag - 1);
      && 0 <= pos && pos + 1 < tag - 1 && NextStop(text, pos + 1) == tag - 1
      && (text[pos] == '#' && pos > 0 ==> IsTag(text, pos + 1))
  {
    assert IsStop(text[0]);
  }

  /** What is read on behind a stop, up to the next one or the end, without its last character. */
  function Between(text: string, pos: nat): string
    requires pos < |text|
  {
    DropLast(text[pos + 1..NextStop(text, pos + 1)])
  }

  /** One round of `log`: back to the last stop before the tag, and on from there to the next one. Only a `'#'` moves the
      tag, so at the other stop every further round finds the same again. */
  ghost function Round(text: string, tag: nat, first: bool): (r: (nat, string))
    requires Separated(text) && IsTag(text, tag)
    ensures r.0 == 1 || IsTag(text, r.0)
  {
    StopBeforeTag(text, tag);
    var pos := LastStop(text, tag - 1);
    (if text[pos] == '#' then pos + 1 else tag,
     "#" + Between(text, pos) + (if first then "\n" else ""))
  }

  /** What `log` prints from round `i` of `num` on. */
  ghost function LogFrom(text: string, tag: nat, i: nat, num: int): string
    requires Separated(text) && IsTag(text, tag)
    decreases num - i
  {
    if i >= num then ""
    else
      var (tag', printed) := Round(text, tag, i == 0);
      if tag' == 1 then printed
      else printed + ((if i != num - 1 then "\n" else "") + LogFrom(text, tag', i + 1, num))
  }

  ghost function LogText(text: string, num: int): string
    requires Separated(text)
  {
    LogFrom(text, |text| + 1, 0, num)
  }

  // ----- the source's loops -----

  /** Moves back from before `end` to the nearest stop. */
  method ScanBack(text: string, end: nat) returns (pos: nat)
    requires end <= |text| && LastStop(text, end) >= 0
    ensures pos == LastStop(text, end)
  {
    pos := end - 1;
    while text[pos] != '#' && text[pos] != EOF_BYTE
      invariant pos < end && LastStop(text, pos + 1) == LastStop(text, end)
      decreases pos
    {
      pos := pos - 1;
    }
  }

  /** Reads on behind `pos` to the next stop or the end, and drops the last character. */
  method ReadOn(text: string, pos: nat) returns (buffer: string)
    requires pos < |text| && pos + 1 < NextStop(text, pos + 1)
    ensures buffer == Between(text, pos)
  {
    buffer := "";
    var ptr := pos + 1;
    while ptr < |text| && text[ptr] != '#' && text[ptr] != EOF_BYTE
      invariant pos < ptr <= NextStop(text, pos + 1) && buffer == text[pos + 1..ptr]
    {
      buffer := buffer + [text[ptr]];
      ptr := ptr + 1;
    }
    buffer := buffer[..|buffer| - 1];
  }

  /** One round: back to the last stop before the tag, and on from there. */
  method LogRound(record: string, tag: nat, first: bool) returns (tag': nat, printed: string)
    requires Separated(record) && IsTag(record, tag)
    ensures (tag', printed) == Round(record, tag, first)
  {
    StopBeforeTag(record, tag);
    var pos := ScanBack(record, tag - 1);
    tag' := if record[pos] == '#' then pos + 1 else tag;
    var buffer := ReadOn(record, pos);
    printed := "#" + buffer + (if first then "\n" else "");
  }

  lemma Append3(a: string, b: string, c: string)
    ensures a + (b + c) == a + b + c && a + "" == a
  {
  }

  lemma PrintedSoFar(before: string, printed: string, line: string, more: string, all: string)
    requires before + (printed + (line + more)) == all
    ensures before + printed + line + more == all
  {
    Append3(before, printed, line + more);
    Append3(before + printed, line, more);
  }

  /** `log` on a record. */
  method Log(record: string, num: int) returns (out: string)
    requires Separated(record)
    ensures out == LogText(record, num)
  {
    out := "";
    var tag: nat, i: nat := |record| + 1, 0;
    while i < num
      invariant IsTag(record, tag) && out + LogFrom(record, tag, i, num) == LogText(record, num)
      decreases num - i
    {
      ghost var before := out;
      var printed;
      tag, printed := LogRound(record, tag, i == 0);
      out := out + printed;
      if tag == 1 {
        return;
      }
      PrintedSoFar(before, printed, if i != num - 1 then "\n" else "", LogFrom(record, tag, i + 1, num),
                   LogText(record, num));
      out := out + (if i != num - 1 then "\n" else "");
      i := i + 1;
    }
    Append3(out, "", "");
  }

  // ----- the rounds on a record that divides into blocks -----

  /** A round that starts at the end of this block finds it. */
  ghost predicate FindsBlock(text: string, start: nat, end: nat, block: string) {
    && start < end <= |text| && LastStop(text, end) == start && text[start] == '#'
    && "#" + DropLast(text[start + 1..end]) + (if end == |text| then "\n" else "") == block
  }

  /** A round that starts there stops elsewhere, and what it prints does not begin like a block. */
  ghost predicate GoesWrong(text: string, end: nat) {
    && end <= |text| && var pos := LastStop(text, end);
      0 <= pos && pos + 5 < end && text[pos] != '#' && (text[pos + 1] != ' ' || IsHex(text[pos + 3]))
  }

  predicate LikeBlock(block: string) {
    |block| >= 4 && block[1] == ' ' && !IsHex(block[3])
  }

  predicate MayBeginBlock(s: string) {
    |s| < 4 || LikeBlock(s)
  }

  /** Where a block stands in the record, and whether a round that starts at its end finds it or goes wrong. */
  ghost predicate LaidAt(text: string, block: string, start: nat, end: nat, first: bool, found: bool) {
    && IsTag(text, end + 1) && (end == |text| <==> first) && LikeBlock(block)
    && if found then FindsBlock(text, start, end, block) else GoesWrong(text, end)
  }

  /** The blocks, newest first, which of them are found, and where they open, with the end of the record in front. */
  ghost predicate Laid(text: string, blocks: seq<string>, found: seq<bool>, starts: seq<nat>) {
    && Separated(text) && |found| == |blocks| && |starts| == |blocks| + 1 && starts[0] == |text|
    && forall i {:trigger blocks[i]} :: 0 <= i < |blocks| ==>
         && LaidAt(text, blocks[i], starts[i + 1], starts[i], i == 0, found[i])
         && (starts[i + 1] == 0 <==> i + 1 == |blocks|)
  }

  /** How many of `n` commits are listed. */
  function Rounds(n: nat, num: int): (m: nat)
    ensures m <= n && (num < 0 ==> m == 0)
    ensures num >= 0 ==> m <= num && (m == num || m == n)
  {
    if num < 0 then 0 else if num < n then num else n
  }

  /** The blocks with an empty line between them. */
  function Join(blocks: seq<string>): string {
    if blocks == [] then "" else blocks[0] + JoinedBehind(blocks[1..])
  }

  function JoinedBehind(blocks: seq<string>): string {
    if blocks == [] then "" else "\n" + (blocks[0] + JoinedBehind(blocks[1..]))
  }

  lemma Cancel(a: string, b: string, c: string)
    ensures a + b == a + c <==> b == c
  {
    if a + b == a + c {
      assert b == (a + b)[|a|..] && c == (a + c)[|a|..];
    }
  }

  lemma GoodRound(text: string, start: nat, end: nat, block: string)
    requires Separated(text) && IsTag(text, end + 1) && FindsBlock(text, start, end, block)
    ensures Round(text, end + 1, end == |text|) == (start + 1, block)
  {
    StopBeforeTag(text, end + 1);
  }

  lemma NotLikeBlock(text: string, start: nat, end: nat, rest: string)
    requires start + 4 < end <= |text| && (text[start] != ' ' || IsHex(text[start + 2]))
    ensures !MayBeginBlock("#" + DropLast(text[start..end]) + rest)
  {
    var buffer := DropLast(text[start..end]);
    assert buffer[0] == text[start] && buffer[2] == text[start + 2];
    var line := "#" + buffer + rest;
    assert line[1] == buffer[0] && line[3] == buffer[2];
  }

  lemma BadRound(text: string, end: nat, first: bool)
    requires Separated(text) && IsTag(text, end + 1) && GoesWrong(text, end)
    ensures Round(text, end + 1, first).0 != 1
    ensures !MayBeginBlock(Round(text, end + 1, first).1)
  {
    StopBeforeTag(text, end + 1);
    NotLikeBlock(text, LastStop(text, end) + 1, end, if first then "\n" else "");
  }

  lemma UnlikeBlock(printed: string, more: string, block: string)
    requires !MayBeginBlock(printed) && LikeBlock(block)
    ensures !(block <= printed + more) && !(block <= printed)
  {
    assert (printed + more)[1] == printed[1] && (printed + more)[3] == printed[3];
  }

  /** What is printed from some round on: if the round finds its block, that and what later rounds print, and otherwise
      something that does not begin like it. */
  ghost predicate PrintsRound(out: string, block: string, found: bool, last: bool, more: string) {
    && (found ==> out == block + (if last then "" else "\n" + more))
    && (!found ==> !(block <= out))
  }

  /** What is printed from round `i` on, with the tag behind `end`. */
  ghost function Output(text: string, end: nat, i: nat, num: int): string {
    if Separated(text) && IsTag(text, end + 1) then LogFrom(text, end + 1, i, num) else ""
  }

  lemma LaidRound(text: string, start: nat, end: nat, block: string, found: bool, i: nat, num: int, last: bool)
    requires Separated(text) && LaidAt(text, block, start, end, i == 0, found) && i < num
    requires last <==> start == 0 || i + 1 == num
    ensures PrintsRound(Output(text, end, i, num), block, found, last, Output(text, start, i + 1, num))
  {
    if found {
      GoodRound(text, start, end, block);
      Append3(block, "", "");
    } else {
      BadRound(text, end, i == 0);
      var (tag, printed) := Round(text, end + 1, i == 0);
      UnlikeBlock(printed, (if i != num - 1 then "\n" else "") + LogFrom(text, tag, i + 1, num), block);
    }
  }

  ghost function Outputs(text: string, starts: seq<nat>, m: nat, num: int): (outs: seq<string>)
    requires m <= |starts|
    ensures |outs| == m
    ensures forall i {:trigger outs[i]} :: 0 <= i < m ==> outs[i] == Output(text, starts[i], i, num)
  {
    seq(m, i requires 0 <= i < m => Output(text, starts[i], i, num))
  }

  ghost predicate AllPrint(outs: seq<string>, blocks: seq<string>, found: seq<bool>) {
    && |outs| == |blocks| == |found|
    && forall i {:trigger blocks[i]} :: 0 <= i < |blocks| ==>
         PrintsRound(outs[i], blocks[i], found[i], i + 1 == |blocks|, if i + 1 < |blocks| then outs[i + 1] else "")
  }

  predicate AllOf(found: seq<bool>) {
    forall i :: 0 <= i < |found| ==> found[i]
  }

  /** The output is what it should be if and only if every round finds its block. */
  lemma {:induction false} RoundsPrintIff(outs: seq<string>, blocks: seq<string>, found: seq<bool>)
    requires AllPrint(outs, blocks, found) && blocks != []
    ensures outs[0] == Join(blocks) <==> AllOf(found)
  {
    var rest := blocks[1..];
    assert PrintsRound(outs[0], blocks[0], found[0], rest == [], if rest != [] then outs[1] else "");
    assert AllOf(found) <==> found[0] && AllOf(found[1..]) by {
      assert found == [found[0]] + found[1..];
    }
    if rest == [] {
      Append3(blocks[0], "", "");
    } else {
      assert AllPrint(outs[1..], rest, found[1..]) by {
        assert forall i :: 0 <= i < |rest| ==> rest[i] == blocks[i + 1];
      }
      RoundsPrintIff(outs[1..], rest, found[1..]);
      TailsAgreeIff(blocks[0], rest, outs[1]);
    }
  }

  lemma TailsAgreeIff(block: string, rest: seq<string>, more: string)
    requires rest != []
    ensures block + ("\n" + more) == block + JoinedBehind(rest) <==> more == Join(rest)
  {
    Cancel(block, "\n" + more, JoinedBehind(rest));
    Cancel("\n", more, rest[0] + JoinedBehind(rest[1..]));
  }

  lemma NothingBehindTheLast(out: string, block: string, found: bool, more: string, more': string)
    requires PrintsRound(out, block, found, true, more)
    ensures PrintsRound(out, block, found, true, more')
  {
  }

  lemma LaidRoundsPrint(text: string, blocks: seq<string>, found: seq<bool>, starts: seq<nat>, num: int)
    requires Laid(text, blocks, found, starts)
    ensures var m := Rounds(|blocks|, num);
      AllPrint(Outputs(text, starts, m, num), blocks[..m], found[..m])
  {
    var m := Rounds(|blocks|, num);
    var outs, front, fronts := Outputs(text, starts, m, num), blocks[..m], found[..m];
    forall i {:trigger front[i]} | 0 <= i < m
      ensures PrintsRound(outs[i], front[i], fronts[i], i + 1 == m, if i + 1 < m then outs[i + 1] else "")
    {
      var start, end, block := starts[i + 1], starts[i], blocks[i];
      LaidRound(text, start, end, block, found[i], i, num, i + 1 == m);
      if i + 1 == m {
        NothingBehindTheLast(outs[i], block, found[i], Output(text, start, i + 1, num), "");
      }
    }
  }

  lemma LogOfBlocksIff(text: string, blocks: seq<string>, found: seq<bool>, starts: seq<nat>, num: int)
    requires Laid(text, blocks, found, starts) && blocks != []
    ensures var m := Rounds(|blocks|, num);
      LogText(text, num) == Join(blocks[..m]) <==> AllOf(found[..m])
  {
    var m := Rounds(|blocks|, num);
    if m > 0 {
      LaidRoundsPrint(text, blocks, found, starts, num);
      assert Outputs(text, starts, m, num)[0] == Output(text, starts[0], 0, num);
      RoundsPrintIff(Outputs(text, starts, m, num), blocks[..m], found[..m]);
    }
  }

  // ----- prefixes of the record -----

  lemma {:induction false} RenderPrefix(history: seq<Commit>, k: nat)
    requires k <= |history|
    ensures Render(history[..k]) <= Render(history)
    decreases |history|
  {
    var n := |history|;
    if k == n {
      assert history[..k] == history;
    } else {
      RenderPrefix(history[..n - 1], k);
      assert history[..n - 1][..k] == history[..k];
      assert Render(history[..n - 1]) <= Before(history) <= Render(history) by {
        if n == 1 {
          assert history[..0] == [];
        }
      }
    }
  }

  /** The position of the `'#'` that opens commit `k`, or the end of the record. */
  function Opens(history: seq<Commit>, k: nat): nat
    requires k <= |history|
  {
    if k == |history| then |Render(history)| else |Before(history[..k + 1])|
  }

  /** A commit's block ends where the next one's empty line begins, or at the end. */
  lemma BlockEnds(history: seq<Commit>, k: nat)
    requires k < |history|
    ensures var upTo := history[..k + 1];
      && Render(upTo) == Before(upTo) + Block(history[k])
      && Opens(history, k + 1) == |Render(upTo)| + (if k + 1 == |history| then 0 else 1)
      && Render(upTo) + (if k + 1 == |history| then "" else "\n") <= Render(history)
  {
    var upTo := history[..k + 1];
    if k + 1 == |history| {
      assert upTo == history;
    } else {
      var next := history[..k + 2];
      assert next[..k + 1] == upTo;
      RenderPrefix(history, k + 2);
      assert Before(next) <= Render(next) <= Render(history);
    }
  }

  /** `text[start..end]` is the block, with an empty line behind it unless it is the last one. */
  ghost predicate Holds(text: string, start: nat, end: nat, block: string) {
    && start < end <= |text| && text[start..end] == block + (if end == |text| then "" else "\n")
  }

  lemma HoldsBehind(text: string, front: string, block: string, line: string, start: nat, end: nat)
    requires front + block + line <= text && block != "" && start == |front| && end == |front + block + line|
    requires line == if end == |text| then "" else "\n"
    ensures Holds(text, start, end, block)
  {
    assert text[..end] == front + block + line;
  }

  lemma LastEndsAtEnd(history: seq<Commit>, k: nat)
    requires k < |history|
    ensures Opens(history, k + 1) <= |Render(history)|
    ensures Opens(history, k + 1) == |Render(history)| <==> k + 1 == |history|
  {
    if k + 1 < |history| {
      BlockEnds(history, k + 1);
      BlockIsHashAndBody(history[k + 1]);
    }
  }

  /** The text between the openings of two consecutive commits. */
  lemma BlockBetween(history: seq<Commit>, k: nat, start: nat, end: nat)
    requires k < |history| && start == Opens(history, k) && end == Opens(history, k + 1)
    ensures Holds(Render(history), start, end, Block(history[k])) && (end == |Render(history)| <==> k + 1 == |history|)
  {
    BlockIsHashAndBody(history[k]);
    BlockEnds(history, k);
    LastEndsAtEnd(history, k);
    HoldsBehind(Render(history), Before(history[..k + 1]), Block(history[k]), if k + 1 == |history| then "" else "\n",
                start, end);
  }

  lemma FirstOpensAtZero(history: seq<Commit>, k: nat)
    requires k < |history|
    ensures Opens(history, k) == 0 <==> k == 0
  {
    var upTo := history[..k + 1];
    if k > 0 {
      assert Before(upTo) == Render(upTo[..k]) + "\n";
    }
  }

  /** The last `count` commits, newest first. */
  function Newest(history: seq<Commit>, count: nat): (newest: seq<Commit>)
    requires count <= |history|
    ensures |newest| == count
    ensures forall i :: 0 <= i < count ==> newest[i] == history[|history| - 1 - i]
  {
    seq(count, i requires 0 <= i < count => history[|history| - 1 - i])
  }

  // ----- the record of a history divides into its blocks -----

  lemma {:induction false} PairsEndInNewline(files: seq<Entry>)
    ensures files != [] ==> Pairs(files) != "" && Pairs(files)[|Pairs(files)| - 1] == '\n'
    ensures files == [] ==> Pairs(files) == ""
  {
    if files != [] {
      PairsEndInNewline(files[1..]);
    }
  }

  /** What `log` needs to know of the text of a block. */
  ghost predicate BlockText(block: string) {
    && LikeBlock(block) && block[0] == '#' && block[|block| - 1] == '\n'
    && forall i :: 0 < i < |block| ==> block[i] != '#'
  }

  lemma BlockIsBlockText(c: Commit)
    requires GoodCommit(c)
    ensures BlockText(Block(c))
  {
    BlockIsHashAndBody(c);
    BodyIsHashFree(c);
    PairsEndInNewline(c.files);
    var block, body := Block(c), Body(c);
    assert block[1] == body[..4][0] && block[3] == body[..4][2];
    assert forall i :: 0 < i < |block| ==> block[i] == body[i - 1];
  }

  lemma BlockIsSeparated(block: string)
    requires BlockText(block)
    ensures Separated(block)
  {
  }

  lemma SeparatedAppend(front: string, block: string)
    requires BlockText(block) && Separated(front)
    ensures Separated(front + "\n" + block)
  {
    var start := front + "\n";
    var text := start + block;
    assert forall k :: |start| < k < |text| ==> text[k] == block[k - |start|] && text[k] != '#';
    assert forall k :: 0 <= k < |start| ==> text[k] == start[k];
    assert forall k :: 0 <= k < |front| ==> start[k] == front[k];
  }

  lemma EmptyFront(s: string)
    ensures "" + s == s
  {
  }

  lemma RenderSplits(history: seq<Commit>)
    requires history != []
    ensures var n := |history| - 1;
      Render(history) == if n == 0 then Block(history[0]) else Render(history[..n]) + "\n" + Block(history[n])
  {
    EmptyFront(Block(history[0]));
  }

  lemma {:induction false} RenderIsSeparated(history: seq<Commit>)
    requires GoodHistory(history) && history != []
    ensures Separated(Render(history))
    decreases |history|
  {
    var n := |history| - 1;
    var block := Block(history[n]);
    BlockIsBlockText(history[n]);
    RenderSplits(history);
    if n == 0 {
      BlockIsSeparated(block);
    } else {
      RenderIsSeparated(history[..n]);
      SeparatedAppend(Render(history[..n]), block);
    }
  }

  lemma StopInPiece(text: string, start: nat, end: nat, k: nat)
    requires start <= k < end <= |text| && IsStop(text[start..end][k - start])
    requires forall i :: k - start < i < end - start ==> !IsStop(text[start..end][i])
    ensures LastStop(text, end) == k
  {
    forall i | start <= i < end
      ensures text[i] == text[start..end][i - start]
    {
    }
    LastStopIs(text, end, k);
  }

  lemma BlockIsFound(text: string, start: nat, end: nat, block: string)
    requires Holds(text, start, end, block) && BlockText(block) && Free(block, EOF_BYTE)
    ensures FindsBlock(text, start, end, block)
  {
    var piece := text[start..end];
    StopInPiece(text, start, end, start);
    assert text[start + 1..end] == piece[1..] && text[start] == piece[0];
    if end == |text| {
      assert block == "#" + DropLast(piece[1..]) + "\n";
    } else {
      assert DropLast(piece[1..]) == block[1..];
      assert block == "#" + block[1..] + "";
    }
  }

  lemma BlockIsMissed(text: string, start: nat, end: nat, head: string, pairs: string, q: nat)
    requires Holds(text, start, end, head + pairs) && head != "" && InName(pairs, q) && pairs[q] == EOF_BYTE
    requires forall i :: q < i < |pairs| ==> !IsStop(pairs[i])
    ensures GoesWrong(text, end)
  {
    var piece, k := text[start..end], |head| + q;
    forall i | |head| <= i < |piece|
      ensures piece[i] == if i < |head| + |pairs| then pairs[i - |head|] else '\n'
    {
    }
    StopInPiece(text, start, end, start + k);
    assert text[start + k] == piece[k] && text[start + k + 1] == piece[k + 1] && text[start + k + 3] == piece[k + 3];
  }

  lemma BlockIsLaid(text: string, start: nat, end: nat, c: Commit, last: bool)
    requires GoodCommit(c) && Holds(text, start, end, Block(c)) && IsTag(text, end + 1) && (end == |text| <==> last)
    ensures LaidAt(text, Block(c), start, end, last, EofFree(c.files))
  {
    BlockIsBlockText(c);
    if EofFree(c.files) {
      BlockIsEofFree(c);
      BlockIsFound(text, start, end, Block(c));
    } else {
      var q := LastEofByte(c);
      var head := BlockHead(c);
      BlockIsMissed(text, start, end, head, Pairs(c.files), q);
    }
  }

  lemma BlockIsEofFree(c: Commit)
    requires GoodCommit(c) && EofFree(c.files)
    ensures Free(Block(c), EOF_BYTE)
  {
    BlockIsHashAndBody(c);
    BodyIsFree(c, EOF_BYTE);
    FreeConcat("#", Body(c), EOF_BYTE);
  }

  lemma OpensWithHash(history: seq<Commit>, k: nat, start: nat)
    requires k < |history| && start == Opens(history, k)
    ensures start < |Render(history)| && Render(history)[start] == '#'
  {
    var end := Opens(history, k + 1);
    BlockBetween(history, k, start, end);
    BlockIsHashAndBody(history[k]);
    assert Render(history)[start] == Render(history)[start..end][0];
  }

  lemma CommitIsHeld(history: seq<Commit>, k: nat, start: nat, end: nat)
    requires GoodHistory(history) && k < |history| && start == Opens(history, k) && end == Opens(history, k + 1)
    ensures Holds(Render(history), start, end, Block(history[k])) && IsTag(Render(history), end + 1)
    ensures (end == |Render(history)| <==> k + 1 == |history|) && (start == 0 <==> k == 0)
  {
    BlockBetween(history, k, start, end);
    if k + 1 < |history| {
      OpensWithHash(history, k + 1, end);
    }
    FirstOpensAtZero(history, k);
  }

  lemma CommitIsLaid(history: seq<Commit>, k: nat, start: nat, end: nat, last: bool)
    requires GoodHistory(history) && k < |history| && start == Opens(history, k) && end == Opens(history, k + 1)
    requires last <==> k + 1 == |history|
    ensures LaidAt(Render(history), Block(history[k]), start, end, last, EofFree(history[k].files))
    ensures start == 0 <==> k == 0
  {
    CommitIsHeld(history, k, start, end);
    BlockIsLaid(Render(history), start, end, history[k], last);
  }

  function BlocksOf(commits: seq<Commit>): (blocks: seq<string>)
    ensures |blocks| == |commits| && forall i :: 0 <= i < |commits| ==> blocks[i] == Block(commits[i])
  {
    seq(|commits|, i requires 0 <= i < |commits| => Block(commits[i]))
  }

  /** Where the commits open, newest first, with the end of the record in front. */
  ghost function StartsOf(history: seq<Commit>): (starts: seq<nat>)
    ensures |starts| == |history| + 1
    ensures forall i :: 0 <= i <= |history| ==> starts[i] == Opens(history, |history| - i)
  {
    seq(|history| + 1, i requires 0 <= i <= |history| => Opens(history, |history| - i))
  }

  ghost function Founds(commits: seq<Commit>): (found: seq<bool>)
    ensures |found| == |commits|
    ensures forall i {:trigger found[i]} :: 0 <= i < |commits| ==> (found[i] <==> EofFree(commits[i].files))
  {
    seq(|commits|, i requires 0 <= i < |commits| => EofFree(commits[i].files))
  }

  lemma NewestAt(history: seq<Commit>, k: nat, i: nat)
    requires k + i + 1 == |history|
    ensures StartsOf(history)[i + 1] == Opens(history, k) && StartsOf(history)[i] == Opens(history, k + 1)
    ensures Newest(history, |history|)[i] == history[k]
  {
    assert |history| - (i + 1) == k && |history| - i == k + 1;
  }

  lemma HistoryIsLaid(history: seq<Commit>) returns (starts: seq<nat>)
    requires GoodHistory(history) && history != []
    ensures var commits := Newest(history, |history|);
      Laid(Render(history), BlocksOf(commits), Founds(commits), starts)
  {
    var commits := Newest(history, |history|);
    var blocks, found := BlocksOf(commits), Founds(commits);
    starts := StartsOf(history);
    RenderIsSeparated(history);
    forall i {:trigger blocks[i]} | 0 <= i < |history|
      ensures LaidAt(Render(history), blocks[i], starts[i + 1], starts[i], i == 0, found[i])
      ensures starts[i + 1] == 0 <==> i + 1 == |history|
    {
      var k, start, end, first := |history| - 1 - i, starts[i + 1], starts[i], i == 0;
      NewestAt(history, k, i);
      CommitIsLaid(history, k, start, end, first);
    }
  }

  lemma {:induction false} JoinedAppend(blocks: seq<string>, last: string)
    ensures JoinedBehind(blocks + [last]) == JoinedBehind(blocks) + ("\n" + last)
  {
    if blocks == [] {
      assert [last][1..] == [] && last + "" == last;
      assert [] + [last] == [last];
    } else {
      TailAppend(blocks, last);
      JoinedAppend(blocks[1..], last);
      var behind := JoinedBehind(blocks[1..]);
      Append3(blocks[0], behind, "\n" + last);
      Append3("\n", blocks[0] + behind, "\n" + last);
    }
  }

  lemma TailAppend(blocks: seq<string>, last: string)
    requires blocks != []
    ensures (blocks + [last])[1..] == blocks[1..] + [last]
  {
  }

  lemma JoinAppend(blocks: seq<string>, last: string)
    ensures Join(blocks + [last]) == if blocks == [] then last else Join(blocks) + "\n" + last
  {
    if blocks == [] {
      assert ([] + [last])[1..] == [] && last + "" == last;
    } else {
      TailAppend(blocks, last);
      JoinedAppend(blocks[1..], last);
      Append3(blocks[0], JoinedBehind(blocks[1..]), "\n" + last);
      Append3(Join(blocks), "\n", last);
    }
  }

  lemma JoinSplits(blocks: seq<string>, init: seq<string>, last: string, text: string)
    requires |blocks| == |init| + 1 && blocks[|init|] == last && forall i :: 0 <= i < |init| ==> blocks[i] == init[i]
    requires text == if init == [] then last else Join(init) + "\n" + last
    ensures Join(blocks) == text
  {
    assert blocks == init + [last];
    JoinAppend(init, last);
  }

  lemma {:induction false} JoinOfBlocks(commits: seq<Commit>)
    ensures Join(BlocksOf(commits)) == Render(commits)
    decreases |commits|
  {
    if commits != [] {
      var n := |commits| - 1;
      JoinOfBlocks(commits[..n]);
      RenderSplits(commits);
      JoinSplits(BlocksOf(commits), BlocksOf(commits[..n]), Block(commits[n]), Render(commits));
    }
  }

  ghost predicate AllEofFree(commits: seq<Commit>) {
    forall i :: 0 <= i < |commits| ==> EofFree(commits[i].files)
  }

  lemma NewestBlocks(history: seq<Commit>, m: nat)
    requires m <= |history|
    ensures var commits := Newest(history, |history|);
      && Join(BlocksOf(commits)[..m]) == Render(Newest(history, m))
      && (AllOf(Founds(commits)[..m]) <==> AllEofFree(Newest(history, m)))
  {
    var commits, newest := Newest(history, |history|), Newest(history, m);
    assert newest == commits[..m];
    JoinOfBlocks(newest);
    assert BlocksOf(newest) == BlocksOf(commits)[..m];
    var found := Founds(newest);
    assert found == Founds(commits)[..m];
    if AllOf(found) {
      forall i | 0 <= i < m
        ensures EofFree(newest[i].files)
      {
        assert found[i];
      }
    }
  }

  /** `log n` prints the newest min(n, N) commits, exactly as a record of them newest first would read, if and only if none
      of them has the byte in a name. */
  lemma LogOfRenderIff(history: seq<Commit>, num: int)
    requires GoodHistory(history) && history != []
    ensures Separated(Render(history))
    ensures var newest := Newest(history, if num < 0 then 0 else if num < |history| then num else |history|);
      LogText(Render(history), num) == Render(newest) <==> AllEofFree(newest)
  {
    var starts := HistoryIsLaid(history);
    var commits, text := Newest(history, |history|), Render(history);
    LogOfBlocksIff(text, BlocksOf(commits), Founds(commits), starts, num);
    NewestBlocks(history, Rounds(|history|, num));
  }
}
