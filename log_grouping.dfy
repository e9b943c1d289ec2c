/** The entry-grouping loop of `InputHandler.read_log_file`: the lines of a log
    file are stripped, blank ones dropped, and the rest gathered into entries,
    an entry being closed when a `{` has been seen in it and the running count
    of `{` minus `}` is back at zero. Opening and reading the file are not
    modelled: the operation takes the file's lines (`content.splitlines()`). */
module LogGrouping {
  import opened Text

  // ---------------------------------------------------------------------------
  // Counting braces
  // ---------------------------------------------------------------------------

  /** What one character adds to the brace count: only `{` and `}` count. */
  function BraceStep(c: char): int {
    if c == '{' then 1 else if c == '}' then -1 else 0
  }

  /** The number of `{` minus the number of `}` in a line. */
  function BraceDelta(s: string): int {
    if s == [] then 0 else BraceDelta(s[..|s| - 1]) + BraceStep(s[|s| - 1])
  }

  /** Only braces are counted: a line without `{` and `}`, whatever square
      brackets it holds, leaves the count unchanged. */
  lemma {:induction false} OnlyBracesCount(s: string)
    requires '{' !in s && '}' !in s
    ensures BraceDelta(s) == 0
  {
    if s != [] {
      var n := |s| - 1;
      assert s[n] in s;
      assert forall c :: c in s[..n] ==> c in s;
      OnlyBracesCount(s[..n]);
    }
  }

  /** The brace count over several lines. */
  function LinesDelta(ls: seq<string>): int {
    if ls == [] then 0 else LinesDelta(ls[..|ls| - 1]) + BraceDelta(ls[|ls| - 1])
  }

  /** Some line contains a `{`. */
  predicate HasOpenBrace(ls: seq<string>) {
    ls != [] && (HasOpenBrace(ls[..|ls| - 1]) || '{' in ls[|ls| - 1])
  }

  /** The lines, stripped, without the blank ones, in their order. */
  function NonBlank(lines: seq<string>): seq<string> {
    if lines == [] then []
    else
      var t := Strip(lines[|lines| - 1]);
      NonBlank(lines[..|lines| - 1]) + (if t == "" then [] else [t])
  }

  /** All lines of several blocks, in order. */
  function Flatten(blocks: seq<seq<string>>): seq<string> {
    if blocks == [] then [] else Flatten(blocks[..|blocks| - 1]) + blocks[|blocks| - 1]
  }

  function JoinAll(blocks: seq<seq<string>>): (r: seq<string>)
    ensures |r| == |blocks| && forall j :: 0 <= j < |blocks| ==> r[j] == JoinLines(blocks[j])
  {
    if blocks == [] then [] else JoinAll(blocks[..|blocks| - 1]) + [JoinLines(blocks[|blocks| - 1])]
  }

  lemma JoinAllSnoc(blocks: seq<seq<string>>, b: seq<string>)
    ensures JoinAll(blocks + [b]) == JoinAll(blocks) + [JoinLines(b)]
  {
    assert (blocks + [b])[..|blocks|] == blocks;
  }

  // ---------------------------------------------------------------------------
  // The grouping as a state machine over lines
  // ---------------------------------------------------------------------------

  /** The variables of the loop: the entries closed so far (as their lines),
      the lines of the current block, the running brace count and whether a `{`
      has been seen since the last flush. */
  datatype Grouping = Grouping(closed: seq<seq<string>>, block: seq<string>, braceCount: int, inJsonBlock: bool)

  /** One line of the loop, given stripped. A blank line flushes the block when
      a `{` has been seen and the count is zero, and is otherwise skipped. Any
      other line is counted and appended, and the block is flushed when a `{`
      has been seen and the count is zero. The count is never reset. */
  function FeedStripped(g: Grouping, t: string): Grouping {
    if t == "" then
      if g.inJsonBlock && g.braceCount == 0 && g.block != [] then Grouping(g.closed + [g.block], [], g.braceCount, false)
      else g
    else
      var count := g.braceCount + BraceDelta(t);
      var inJson := g.inJsonBlock || '{' in t;
      if inJson && count == 0 then Grouping(g.closed + [g.block + [t]], [], count, false)
      else Grouping(g.closed, g.block + [t], count, inJson)
  }

  /** One line of the loop: the line is stripped first. */
  function FeedLine(g: Grouping, line: string): Grouping {
    FeedStripped(g, Strip(line))
  }

  /** The state after the first `n` lines. */
  function FeedLines(lines: seq<string>, n: nat): Grouping
    requires n <= |lines|
  {
    if n == 0 then Grouping([], [], 0, false) else FeedLine(FeedLines(lines, n - 1), lines[n - 1])
  }

  /** The blocks of lines that become entries: those closed in the loop, then
      the leftover block if it is not empty. */
  function GroupBlocks(lines: seq<string>): seq<seq<string>> {
    BlocksOf(FeedLines(lines, |lines|))
  }

  /** The closed blocks of a state, then its current block if not empty. */
  function BlocksOf(g: Grouping): seq<seq<string>> {
    g.closed + (if g.block != [] then [g.block] else [])
  }

  /** What `read_log_file` returns for a file with these lines: the joined
      blocks, or, when there are none, the stripped non-blank lines read again. */
  function LogEntries(lines: seq<string>): seq<string> {
    var entries := JoinAll(GroupBlocks(lines));
    if entries != [] then entries else NonBlank(lines)
  }

  /** The loop of `read_log_file`, with its variables; the inner loop counts the
      braces of one stripped line. The fallback re-reads the file line by line;
      here it reads the same lines. */
  method ReadLogFile(lines: seq<string>) returns (entries: seq<string>)
    ensures entries == LogEntries(lines)
  {
    var potentialJsonEntries: seq<string> := [];
    var currentJsonBlock: seq<string> := [];
    var braceCount := 0;
    var inJsonBlock := false;
    ghost var g := Grouping([], [], 0, false);
    for i := 0 to |lines|
      invariant g == FeedLines(lines, i)
      invariant currentJsonBlock == g.block && braceCount == g.braceCount && inJsonBlock == g.inJsonBlock
      invariant potentialJsonEntries == JoinAll(g.closed)
    {
      assert g == Grouping(g.closed, currentJsonBlock, braceCount, inJsonBlock);
      potentialJsonEntries, currentJsonBlock, braceCount, inJsonBlock :=
        ReadLine(g.closed, potentialJsonEntries, currentJsonBlock, braceCount, inJsonBlock, lines[i]);
      g := FeedLine(g, lines[i]);
    }
    if currentJsonBlock != [] {
      var entry := JoinLines(currentJsonBlock);
      JoinAllSnoc(g.closed, currentJsonBlock);
      potentialJsonEntries := potentialJsonEntries + [entry];
    }
    if potentialJsonEntries != [] {
      return potentialJsonEntries;
    }
    entries := StrippedNonBlankLines(lines);
  }

  /** One pass of the loop of `read_log_file`: the line is stripped, and the
      variables after it are those of the grouping state after it. */
  method ReadLine(ghost closed: seq<seq<string>>, potentialJsonEntries: seq<string>,
                  currentJsonBlock: seq<string>, braceCount: int, inJsonBlock: bool, line: string)
    returns (entries': seq<string>, block': seq<string>, count': int, inJson': bool)
    requires potentialJsonEntries == JoinAll(closed)
    ensures var g' := FeedLine(Grouping(closed, currentJsonBlock, braceCount, inJsonBlock), line);
      entries' == JoinAll(g'.closed) && block' == g'.block && count' == g'.braceCount && inJson' == g'.inJsonBlock
  {
    var strippedLine := Strip(line);
    entries', block', count', inJson' := potentialJsonEntries, currentJsonBlock, braceCount, inJsonBlock;
    if strippedLine == "" {
      if inJson' && count' == 0 && block' != [] {
        JoinAllSnoc(closed, block');
        entries' := entries' + [JoinLines(block')];
        block' := [];
        inJson' := false;
      }
      return;
    }
    count', inJson' := CountBraces(strippedLine, count', inJson');
    block' := block' + [strippedLine];
    if inJson' && count' == 0 && block' != [] {
      JoinAllSnoc(closed, block');
      entries' := entries' + [JoinLines(block')];
      block' := [];
      inJson' := false;
    }
  }

  /** The character loop over one stripped line: `{` adds one to the count and
      marks the block as JSON, `}` takes one off. */
  method CountBraces(line: string, count: int, inJson: bool) returns (count': int, inJson': bool)
    ensures count' == count + BraceDelta(line)
    ensures inJson' == (inJson || '{' in line)
  {
    count', inJson' := count, inJson;
    for j := 0 to |line|
      invariant count' == count + BraceDelta(line[..j])
      invariant inJson' == (inJson || '{' in line[..j])
    {
      var c := line[j];
      assert line[..j + 1] == line[..j] + [c];
      if c == '{' {
        count' := count' + 1;
        inJson' := true;
      } else if c == '}' {
        count' := count' - 1;
      }
    }
    assert line[..|line|] == line;
  }

  /** The fallback `[line.strip() for line in f if line.strip()]`. */
  method StrippedNonBlankLines(lines: seq<string>) returns (r: seq<string>)
    ensures r == NonBlank(lines)
  {
    r := [];
    for i := 0 to |lines|
      invariant r == NonBlank(lines[..i])
    {
      assert lines[..i + 1][..i] == lines[..i];
      var t := Strip(lines[i]);
      if t != "" {
        r := r + [t];
      }
    }
    assert lines[..|lines|] == lines;
  }

  // ---------------------------------------------------------------------------
  // What the grouping does
  // ---------------------------------------------------------------------------

  lemma LinesDeltaSnoc(ls: seq<string>, t: string)
    ensures LinesDelta(ls + [t]) == LinesDelta(ls) + BraceDelta(t)
  {
    assert (ls + [t])[..|ls|] == ls;
  }

  lemma FlattenSnoc(blocks: seq<seq<string>>, b: seq<string>)
    ensures Flatten(blocks + [b]) == Flatten(blocks) + b
  {
    assert (blocks + [b])[..|blocks|] == blocks;
  }

  lemma HasOpenBraceSnoc(ls: seq<string>, t: string)
    ensures HasOpenBrace(ls + [t]) <==> HasOpenBrace(ls) || '{' in t
  {
    assert (ls + [t])[..|ls|] == ls;
  }

  /** The first `m` lines of `part`, read after the lines `before`, close an
      entry: they hold a `{` and bring the running count of all lines so far
      to zero. */
  predicate ClosesAfter(before: seq<string>, part: seq<string>, m: nat)
    requires m <= |part|
  {
    HasOpenBrace(part[..m]) && LinesDelta(before + part[..m]) == 0
  }

  /** No proper prefix of `part`, read after `before`, closes. */
  predicate NoEarlyClose(before: seq<string>, part: seq<string>) {
    forall m :: 0 < m < |part| ==> !ClosesAfter(before, part, m)
  }

  /** Closed block `k` is not empty, closes, and closes at its first chance. */
  predicate ClosedBlockOk(closed: seq<seq<string>>, k: nat)
    requires k < |closed|
  {
    && closed[k] != []
    && ClosesAfter(Flatten(closed[..k]), closed[k], |closed[k]|)
    && NoEarlyClose(Flatten(closed[..k]), closed[k])
  }

  /** The state after some lines whose stripped non-blank lines are `seen`:
      the closed blocks and the current block are `seen` cut into pieces; the
      count is that of all of `seen`; the flag says whether the current block
      holds a `{`; every closed block closed at its first chance; no prefix of
      the current block closes. */
  predicate GroupingOk(g: Grouping, seen: seq<string>) {
    && Flatten(g.closed) + g.block == seen
    && g.braceCount == LinesDelta(seen)
    && g.inJsonBlock == HasOpenBrace(g.block)
    && (forall k :: 0 <= k < |g.closed| ==> ClosedBlockOk(g.closed, k))
    && (forall m :: 0 < m <= |g.block| ==> !ClosesAfter(Flatten(g.closed), g.block, m))
  }

  /** In a well-formed state the flag is never set while the count is zero. */
  lemma NoPendingFlush(g: Grouping, seen: seq<string>)
    requires GroupingOk(g, seen)
    ensures !(g.inJsonBlock && g.braceCount == 0)
  {
    if g.block != [] {
      assert !ClosesAfter(Flatten(g.closed), g.block, |g.block|);
      assert g.block[..|g.block|] == g.block;
    }
  }

  /** So the flush on a blank line never happens: blank lines are skipped. */
  lemma BlankLineIsSkipped(g: Grouping, seen: seq<string>)
    requires GroupingOk(g, seen)
    ensures FeedStripped(g, "") == g
  {
    NoPendingFlush(g, seen);
  }

  /** A non-blank line keeps the state well formed, with the line added to
      what has been seen. */
  lemma FeedStrippedOk(g: Grouping, seen: seq<string>, t: string)
    requires GroupingOk(g, seen) && t != ""
    ensures GroupingOk(FeedStripped(g, t), seen + [t])
  {
    var b := g.block + [t];
    LinesDeltaSnoc(seen, t);
    HasOpenBraceSnoc(g.block, t);
    if HasOpenBrace(b) && LinesDelta(seen + [t]) == 0 {
      FlushOk(g, seen, t);
    } else {
      AppendOk(g, seen, t);
    }
  }

  /** Prefixes of the block with `t` appended are prefixes of the block. */
  lemma ExtendedPrefixes(before: seq<string>, block: seq<string>, t: string)
    ensures forall m :: 0 < m <= |block| ==> ClosesAfter(before, block + [t], m) == ClosesAfter(before, block, m)
  {
    forall m | 0 < m <= |block|
      ensures ClosesAfter(before, block + [t], m) == ClosesAfter(before, block, m)
    {
      assert (block + [t])[..m] == block[..m];
    }
  }

  lemma FlushOk(g: Grouping, seen: seq<string>, t: string)
    requires GroupingOk(g, seen) && t != ""
    requires HasOpenBrace(g.block + [t]) && LinesDelta(seen + [t]) == 0
    requires LinesDelta(seen + [t]) == g.braceCount + BraceDelta(t)
    requires HasOpenBrace(g.block + [t]) == (g.inJsonBlock || '{' in t)
    ensures GroupingOk(FeedStripped(g, t), seen + [t])
  {
    var b := g.block + [t];
    var closed' := g.closed + [b];
    assert FeedStripped(g, t) == Grouping(closed', [], 0, false);
    ExtendedPrefixes(Flatten(g.closed), g.block, t);
    assert b[..|b|] == b;
    FlattenSnoc(g.closed, b);
    forall k | 0 <= k < |closed'| ensures ClosedBlockOk(closed', k) {
      if k < |g.closed| {
        assert closed'[..k] == g.closed[..k] && closed'[k] == g.closed[k];
        assert ClosedBlockOk(g.closed, k);
      } else {
        assert closed'[..k] == g.closed && closed'[k] == b;
        assert Flatten(g.closed) + b == seen + [t];
        assert ClosesAfter(Flatten(g.closed), b, |b|);
      }
    }
  }

  lemma AppendOk(g: Grouping, seen: seq<string>, t: string)
    requires GroupingOk(g, seen) && t != ""
    requires !(HasOpenBrace(g.block + [t]) && LinesDelta(seen + [t]) == 0)
    requires LinesDelta(seen + [t]) == g.braceCount + BraceDelta(t)
    requires HasOpenBrace(g.block + [t]) == (g.inJsonBlock || '{' in t)
    ensures GroupingOk(FeedStripped(g, t), seen + [t])
  {
    var b := g.block + [t];
    assert FeedStripped(g, t) == Grouping(g.closed, b, LinesDelta(seen + [t]), HasOpenBrace(b));
    ExtendedPrefixes(Flatten(g.closed), g.block, t);
    assert b[..|b|] == b;
  }

  /** Any stripped line keeps the state well formed. */
  lemma FeedStrippedKeepsOk(g: Grouping, seen: seq<string>, t: string)
    requires GroupingOk(g, seen)
    ensures GroupingOk(FeedStripped(g, t), seen + (if t == "" then [] else [t]))
  {
    if t == "" {
      BlankLineIsSkipped(g, seen);
      assert seen + [] == seen;
    } else {
      FeedStrippedOk(g, seen, t);
    }
  }

  /** One more line: one more step of the machine, and one more stripped
      line seen unless it is blank. */
  lemma FeedLinesStep(lines: seq<string>, n: nat)
    requires 0 < n <= |lines|
    ensures var t := Strip(lines[n - 1]);
      && FeedLines(lines, n) == FeedStripped(FeedLines(lines, n - 1), t)
      && NonBlank(lines[..n]) == NonBlank(lines[..n - 1]) + (if t == "" then [] else [t])
  {
    assert lines[..n][..n - 1] == lines[..n - 1];
  }

  lemma {:induction false} FeedLinesOk(lines: seq<string>, n: nat)
    requires n <= |lines|
    ensures GroupingOk(FeedLines(lines, n), NonBlank(lines[..n]))
  {
    if n > 0 {
      FeedLinesOk(lines, n - 1);
      FeedLinesStep(lines, n);
      FeedStrippedKeepsOk(FeedLines(lines, n - 1), NonBlank(lines[..n - 1]), Strip(lines[n - 1]));
    }
  }

  /** The blocks of a well-formed state cut what it has seen into non-empty
      pieces, every piece but the last closing at its first chance, the last
      one not closing early. */
  predicate BlocksOk(blocks: seq<seq<string>>, seen: seq<string>) {
    && Flatten(blocks) == seen
    && (forall k :: 0 <= k < |blocks| ==> blocks[k] != [])
    && (forall k :: 0 <= k < |blocks| - 1 ==> ClosedBlockOk(blocks, k))
    && (|blocks| > 0 ==> NoEarlyClose(Flatten(blocks[..|blocks| - 1]), blocks[|blocks| - 1]))
  }

  lemma BlocksOfOkClosed(g: Grouping, seen: seq<string>)
    requires GroupingOk(g, seen) && g.block == []
    ensures BlocksOk(BlocksOf(g), seen)
  {
    var blocks := BlocksOf(g);
    assert blocks == g.closed;
    assert Flatten(g.closed) + [] == Flatten(g.closed);
    forall k | 0 <= k < |blocks| ensures blocks[k] != [] {
      assert ClosedBlockOk(g.closed, k);
    }
    if |blocks| > 0 {
      assert ClosedBlockOk(g.closed, |blocks| - 1);
    }
  }

  lemma BlocksOfOkOpen(g: Grouping, seen: seq<string>)
    requires GroupingOk(g, seen) && g.block != []
    ensures BlocksOk(BlocksOf(g), seen)
  {
    var blocks := BlocksOf(g);
    assert blocks == g.closed + [g.block];
    FlattenSnoc(g.closed, g.block);
    assert blocks[..|g.closed|] == g.closed;
    forall k | 0 <= k < |blocks| ensures blocks[k] != [] && (k < |g.closed| ==> ClosedBlockOk(blocks, k)) {
      if k < |g.closed| {
        assert ClosedBlockOk(g.closed, k);
        assert blocks[..k] == g.closed[..k];
      }
    }
    forall m | 0 < m < |g.block| ensures !ClosesAfter(Flatten(g.closed), g.block, m) {
    }
  }

  /** The entries, as blocks of stripped lines: together they are exactly the
      non-blank lines in order, none is empty, every entry but the last
      closes (holds a `{` and brings the running count to zero) at the first
      line where it can, and no proper prefix of the last one closes. */
  lemma GroupBlocksCloseAtFirstBalance(lines: seq<string>)
    ensures BlocksOk(GroupBlocks(lines), NonBlank(lines))
  {
    var g := FeedLines(lines, |lines|);
    FeedLinesOk(lines, |lines|);
    assert lines[..|lines|] == lines;
    if g.block == [] {
      BlocksOfOkClosed(g, NonBlank(lines));
    } else {
      BlocksOfOkOpen(g, NonBlank(lines));
    }
  }

  /** Non-empty blocks flatten to nothing only when there are none. */
  lemma FlattenNonEmpty(blocks: seq<seq<string>>)
    requires forall k :: 0 <= k < |blocks| ==> blocks[k] != []
    ensures Flatten(blocks) == [] <==> blocks == []
  {
    if blocks != [] {
      assert blocks[|blocks| - 1] != [];
    }
  }

  /** The fallback re-read only happens when the file has no non-blank line,
      and then it gives nothing either: the result is always the joined blocks. */
  lemma FallbackIsEmpty(lines: seq<string>)
    ensures LogEntries(lines) == JoinAll(GroupBlocks(lines))
    ensures GroupBlocks(lines) == [] <==> NonBlank(lines) == []
  {
    var blocks := GroupBlocks(lines);
    GroupBlocksCloseAtFirstBalance(lines);
    FlattenNonEmpty(blocks);
    assert LogEntries(lines) == if JoinAll(blocks) != [] then JoinAll(blocks) else NonBlank(lines);
  }

  /** A character of a line's stripped form is in the line. */
  lemma InStrip(line: string, c: char)
    requires c in Strip(line)
    ensures c in line
  {
    var r := Strip(line);
    var i :| OccursAt(line, i, r);
    var j :| 0 <= j < |r| && r[j] == c;
    assert line[i..i + |r|][j] == line[i + j];
  }

  /** Without any `{`, nothing ever closes: the lines form one block. */
  lemma {:induction false} NoOpenBraceOneBlock(lines: seq<string>, n: nat)
    requires n <= |lines|
    requires forall k :: 0 <= k < |lines| ==> '{' !in lines[k]
    ensures var g := FeedLines(lines, n); g.closed == [] && g.block == NonBlank(lines[..n]) && !g.inJsonBlock
  {
    if n > 0 {
      NoOpenBraceOneBlock(lines, n - 1);
      FeedLinesStep(lines, n);
      NoOpenBraceAppends(FeedLines(lines, n - 1), lines[n - 1]);
    }
  }

  /** A line without `{`, fed while no `{` has been seen and nothing is
      closed, is appended (unless blank) and nothing closes. */
  lemma NoOpenBraceAppends(g: Grouping, line: string)
    requires g.closed == [] && !g.inJsonBlock && '{' !in line
    ensures var t := Strip(line); var g' := FeedStripped(g, t);
      g'.closed == [] && g'.block == g.block + (if t == "" then [] else [t]) && !g'.inJsonBlock
  {
    var t := Strip(line);
    if '{' in t {
      InStrip(line, '{');
      assert false;
    }
    if t == "" {
      assert g.block + [] == g.block;
    }
  }

  /** A file without any `{` gives one entry holding all its non-blank lines
      (or nothing when it has none). */
  lemma NoOpenBraceOneEntry(lines: seq<string>)
    requires forall k :: 0 <= k < |lines| ==> '{' !in lines[k]
    ensures LogEntries(lines) == if NonBlank(lines) == [] then [] else [JoinLines(NonBlank(lines))]
  {
    NoOpenBraceOneBlock(lines, |lines|);
    assert lines[..|lines|] == lines;
  }

  /** A line of a block is a line of the flattened blocks. */
  lemma {:induction false} InFlatten(blocks: seq<seq<string>>, k: nat, j: nat)
    requires k < |blocks| && j < |blocks[k]|
    ensures blocks[k][j] in Flatten(blocks)
  {
    var n := |blocks| - 1;
    if k < n {
      InFlatten(blocks[..n], k, j);
    } else {
      assert Flatten(blocks) == Flatten(blocks[..n]) + blocks[n];
      assert Flatten(blocks)[|Flatten(blocks[..n])| + j] == blocks[k][j];
    }
  }

  /** Stripping cannot add a newline. */
  lemma StripNoNewline(line: string)
    requires NoNewline(line)
    ensures NoNewline(Strip(line))
  {
    if '\n' in Strip(line) {
      InStrip(line, '\n');
    }
  }

  lemma {:induction false} NonBlankNoNewline(lines: seq<string>)
    requires forall k :: 0 <= k < |lines| ==> NoNewline(lines[k])
    ensures forall x :: x in NonBlank(lines) ==> NoNewline(x)
  {
    if lines != [] {
      var n := |lines| - 1;
      NonBlankNoNewline(lines[..n]);
      StripNoNewline(lines[n]);
    }
  }

  /** When the lines hold no newline (as the lines of a file do), splitting
      an entry at its newlines gives back the stripped lines of its block. */
  lemma EntriesSplitBack(lines: seq<string>)
    requires forall k :: 0 <= k < |lines| ==> NoNewline(lines[k])
    ensures |LogEntries(lines)| == |GroupBlocks(lines)|
    ensures forall k :: 0 <= k < |GroupBlocks(lines)| ==> SplitLines(LogEntries(lines)[k]) == GroupBlocks(lines)[k]
  {
    var blocks := GroupBlocks(lines);
    FallbackIsEmpty(lines);
    GroupBlocksCloseAtFirstBalance(lines);
    NonBlankNoNewline(lines);
    forall k | 0 <= k < |blocks| ensures SplitLines(LogEntries(lines)[k]) == blocks[k] {
      forall j | 0 <= j < |blocks[k]| ensures NoNewline(blocks[k][j]) {
        InFlatten(blocks, k, j);
      }
      SplitJoin(blocks[k]);
    }
  }

  /** A `}` before any `{` drives the count below zero, and the entry holding
      the next `{` closes early, taking the stray `}` with it: lines that
      strip to `}`, `{`, `}` give the entries `"}\n{"` and `"}"`. */
  lemma StrayCloserExample(a: string, b: string, c: string)
    requires Strip(a) == "}" && Strip(b) == "{" && Strip(c) == "}"
    ensures LogEntries([a, b, c]) == ["}\n{", "}"]
  {
    var lines := [a, b, c];
    var g1 := Grouping([], ["}"], -1, false);
    var g2 := Grouping([["}", "{"]], [], 0, false);
    var g3 := Grouping([["}", "{"]], ["}"], -1, false);
    assert FeedLines(lines, 1) == g1 by {
      FeedLinesStep(lines, 1);
      StrayCloserSteps();
    }
    assert FeedLines(lines, 2) == g2 by {
      FeedLinesStep(lines, 2);
      StrayCloserSteps();
    }
    assert FeedLines(lines, 3) == g3 by {
      FeedLinesStep(lines, 3);
      StrayCloserSteps();
    }
    assert GroupBlocks(lines) == [["}", "{"], ["}"]];
    StrayCloserSteps();
  }

  /** The three steps of the example above. */
  lemma StrayCloserSteps()
    ensures FeedStripped(Grouping([], [], 0, false), "}") == Grouping([], ["}"], -1, false)
    ensures FeedStripped(Grouping([], ["}"], -1, false), "{") == Grouping([["}", "{"]], [], 0, false)
    ensures FeedStripped(Grouping([["}", "{"]], [], 0, false), "}") == Grouping([["}", "{"]], ["}"], -1, false)
    ensures JoinAll([["}", "{"], ["}"]]) == ["}\n{", "}"]
  {
    assert BraceDelta("}") == -1 && BraceDelta("{") == 1 && "{"[0] == '{';
    assert ["}"] + ["{"] == ["}", "{"];
    assert JoinLines(["}", "{"]) == "}" + "\n" + JoinLines(["{"]) == "}\n{";
  }
}
