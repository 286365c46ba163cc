/** Rewriting `match` blocks of a file in place, last block first. */
module BlockRewrite {
  import opened Names
  import opened Text

  datatype Header = Header(indent: string, expr: string)

  /** The lines `start` to `end`, a `match` header and its closing line included. */
  datatype Block = Block(start: nat, end: nat, header: Header)

  // ----- finding the blocks -----

  function LineBalance(line: string): int {
    if line == [] then 0
    else (if line[0] == '{' then 1 else if line[0] == '}' then -1 else 0) + LineBalance(line[1..])
  }

  lemma {:induction false} BalanceCountsBraces(line: string)
    ensures LineBalance(line) == CountChar(line, '{') - CountChar(line, '}')
  {
    if line != [] { BalanceCountsBraces(line[1..]); }
  }

  /** The line at whose end the depth is back to zero; a line that takes the depth below zero ends the
      search at the line after it. */
  function CloseLine(lines: seq<string>, j: nat, depth: int): (r: nat)
    requires j <= |lines|
    ensures j <= r <= |lines|
    decreases |lines| - j
  {
    if j == |lines| || depth <= 0 then j
    else
      var after := depth + LineBalance(lines[j]);
      if after == 0 then j else CloseLine(lines, j + 1, after)
  }

  /** The blocks from line `i` on; `isHeader` recognises the first line of a block. */
  function BlocksFrom(lines: seq<string>, i: nat, isHeader: string -> Option<Header>): seq<Block>
    requires i <= |lines|
    decreases |lines| - i
  {
    if i == |lines| then []
    else
      var j := CloseLine(lines, i + 1, 1);
      if isHeader(lines[i]).Some? && j < |lines| then
        [Block(i, j, isHeader(lines[i]).value)] + BlocksFrom(lines, j + 1, isHeader)
      else BlocksFrom(lines, i + 1, isHeader)
  }

  method LineDepth(line: string, start: int) returns (depth: int)
    ensures depth == start + LineBalance(line)
  {
    depth := start;
    var k := 0;
    while k < |line|
      invariant 0 <= k <= |line|
      invariant start + LineBalance(line) == depth + LineBalance(line[k..])
    {
      assert line[k..][1..] == line[k + 1..];
      if line[k] == '{' {
        depth := depth + 1;
      } else if line[k] == '}' {
        depth := depth - 1;
      }
      k := k + 1;
    }
  }

  method FindCloseLine(lines: seq<string>, start: nat) returns (j: nat)
    requires start <= |lines|
    ensures j == CloseLine(lines, start, 1)
  {
    var depth: int := 1;
    j := start;
    while j < |lines| && depth > 0
      invariant start <= j <= |lines|
      invariant CloseLine(lines, start, 1) == CloseLine(lines, j, depth)
    {
      depth := LineDepth(lines[j], depth);
      if depth == 0 { return; }
      j := j + 1;
    }
  }

  method FindMatchBlocks(lines: seq<string>, isHeader: string -> Option<Header>) returns (blocks: seq<Block>)
    ensures blocks == BlocksFrom(lines, 0, isHeader) && Ordered(blocks, |lines|)
  {
    hide CloseLine, Ordered;
    blocks := [];
    var i := 0;
    while i < |lines|
      invariant 0 <= i <= |lines|
      invariant BlocksFrom(lines, 0, isHeader) == blocks + BlocksFrom(lines, i, isHeader)
    {
      var m := isHeader(lines[i]);
      if m.Some? {
        var j := FindCloseLine(lines, i + 1);
        if j < |lines| {
          blocks := blocks + [Block(i, j, m.value)];
          i := j + 1;
          continue;
        }
      }
      i := i + 1;
    }
    BlocksAreOrdered(lines, 0, isHeader);
  }

  /** The blocks lie within the file, one after the other, without overlap. */
  ghost predicate Ordered(blocks: seq<Block>, n: nat) {
    && (forall k :: 0 <= k < |blocks| ==> blocks[k].start < blocks[k].end < n)
    && (forall k, l :: 0 <= k < l < |blocks| ==> blocks[k].end < blocks[l].start)
  }

  /** All blocks start at line `i` or later. */
  ghost predicate StartFrom(blocks: seq<Block>, i: nat) {
    forall k :: 0 <= k < |blocks| ==> i <= blocks[k].start
  }

  lemma OrderedCons(b: Block, rest: seq<Block>, n: nat)
    requires Ordered(rest, n) && b.start < b.end < n && StartFrom(rest, b.end + 1)
    ensures Ordered([b] + rest, n) && StartFrom([b] + rest, b.start)
  {
  }

  lemma NoBlocks(n: nat, i: nat)
    ensures Ordered([], n) && StartFrom([], i)
  {
  }

  lemma StartEarlier(blocks: seq<Block>, i: nat)
    requires StartFrom(blocks, i + 1)
    ensures StartFrom(blocks, i)
  {
  }

  lemma {:induction false} BlocksAreOrdered(lines: seq<string>, i: nat, isHeader: string -> Option<Header>)
    requires i <= |lines|
    ensures Ordered(BlocksFrom(lines, i, isHeader), |lines|) && StartFrom(BlocksFrom(lines, i, isHeader), i)
    decreases |lines| - i
  {
    hide CloseLine, Ordered, StartFrom;
    if i == |lines| {
      NoBlocks(|lines|, i);
    } else {
      var j := CloseLine(lines, i + 1, 1);
      if isHeader(lines[i]).Some? && j < |lines| {
        BlocksAreOrdered(lines, j + 1, isHeader);
        OrderedCons(Block(i, j, isHeader(lines[i]).value), BlocksFrom(lines, j + 1, isHeader), |lines|);
      } else {
        BlocksAreOrdered(lines, i + 1, isHeader);
        StartEarlier(BlocksFrom(lines, i + 1, isHeader), i);
      }
    }
  }

  /** A block starts at a header line, with that header, and ends at its close line. */
  lemma {:induction false} BlocksStartAtHeaders(lines: seq<string>, i: nat, isHeader: string -> Option<Header>,
      b: Block)
    requires i <= |lines| && b in BlocksFrom(lines, i, isHeader)
    ensures i <= b.start < b.end < |lines|
    ensures isHeader(lines[b.start]) == Some(b.header) && b.end == CloseLine(lines, b.start + 1, 1)
    decreases |lines| - i
  {
    var j := CloseLine(lines, i + 1, 1);
    if isHeader(lines[i]).Some? && j < |lines| {
      if b != Block(i, j, isHeader(lines[i]).value) {
        BlocksStartAtHeaders(lines, j + 1, isHeader, b);
      }
    } else {
      BlocksStartAtHeaders(lines, i + 1, isHeader, b);
    }
  }

  ghost predicate Covered(blocks: seq<Block>, h: nat) {
    exists b :: b in blocks && b.start <= h <= b.end
  }

  /** No closed block is missed: a header whose braces close lies in some block. */
  lemma {:induction false} HeadersAreCovered(lines: seq<string>, i: nat, isHeader: string -> Option<Header>, h: nat)
    requires i <= h < |lines| && isHeader(lines[h]).Some? && CloseLine(lines, h + 1, 1) < |lines|
    ensures Covered(BlocksFrom(lines, i, isHeader), h)
    decreases |lines| - i
  {
    var j := CloseLine(lines, i + 1, 1);
    var blocks := BlocksFrom(lines, i, isHeader);
    if isHeader(lines[i]).Some? && j < |lines| {
      if h <= j {
        assert blocks[0].start <= h <= blocks[0].end;
      } else {
        HeadersAreCovered(lines, j + 1, isHeader, h);
        var b :| b in BlocksFrom(lines, j + 1, isHeader) && b.start <= h <= b.end;
        assert b in blocks;
      }
    } else {
      HeadersAreCovered(lines, i + 1, isHeader, h);
    }
  }

  /** The brace depth at the end of line `j` of a block that starts at `start`. */
  function DepthAfter(lines: seq<string>, start: nat, j: nat): int
    requires start < j + 1 <= |lines|
  {
    if j == start then 1 else DepthAfter(lines, start, j - 1) + LineBalance(lines[j])
  }

  function Flat(lines: seq<string>): string {
    if lines == [] then "" else Flat(lines[..|lines| - 1]) + lines[|lines| - 1]
  }

  /** The depth is one for the header plus the opening minus the closing braces of the text since. */
  lemma {:induction false} DepthCountsBraces(lines: seq<string>, start: nat, j: nat)
    requires start <= j < |lines|
    ensures
      var text := Flat(lines[start + 1..j + 1]);
      DepthAfter(lines, start, j) == 1 + CountChar(text, '{') - CountChar(text, '}')
  {
    if j > start {
      DepthCountsBraces(lines, start, j - 1);
      BalanceCountsBraces(lines[j]);
      var since, text := lines[start + 1..j + 1], Flat(lines[start + 1..j]);
      assert since[..|since| - 1] == lines[start + 1..j];
      CountConcat(text, lines[j], '{');
      CountConcat(text, lines[j], '}');
    }
  }

  /** A block ends at the first line at which its braces are balanced, provided that no line before it
      takes the depth below zero; if one does, the block ends at the line after the first such line. */
  lemma {:induction false} CloseLineIsFirstBalanced(lines: seq<string>, start: nat, j: nat)
    requires start < j <= |lines|
    requires forall k :: start <= k < j ==> DepthAfter(lines, start, k) > 0
    ensures
      var e := CloseLine(lines, j, DepthAfter(lines, start, j - 1));
      && (forall k :: start <= k < e - 1 ==> DepthAfter(lines, start, k) > 0)
      && (e < |lines| ==>
            || (DepthAfter(lines, start, e - 1) > 0 && DepthAfter(lines, start, e) == 0)
            || DepthAfter(lines, start, e - 1) < 0)
      && (e == |lines| ==> DepthAfter(lines, start, e - 1) != 0)
    decreases |lines| - j
  {
    if j < |lines| {
      var after := DepthAfter(lines, start, j);
      if after > 0 {
        CloseLineIsFirstBalanced(lines, start, j + 1);
      }
    }
  }

  /** Line `e` closes the brace of the header at `start`. */
  ghost predicate ClosesAt(lines: seq<string>, start: nat, e: nat)
    requires start < e < |lines|
  {
    DepthAfter(lines, start, e - 1) > 0 && DepthAfter(lines, start, e) == 0
  }

  /** A header whose brace closes at the end of line `e`, and not below zero before, lies in some block. */
  lemma ClosedHeaderIsCovered(lines: seq<string>, isHeader: string -> Option<Header>, h: nat, e: nat)
    requires h < e < |lines| && isHeader(lines[h]).Some? && DepthAfter(lines, h, e) == 0
    requires forall k :: h <= k < e ==> DepthAfter(lines, h, k) > 0
    ensures Covered(BlocksFrom(lines, 0, isHeader), h) && CloseLine(lines, h + 1, 1) == e
  {
    hide BlocksFrom, CloseLine, LineBalance, Covered;
    CloseLineIsFirstBalanced(lines, h, h + 1);
    HeadersAreCovered(lines, 0, isHeader, h);
  }

  /** A block ends where its header's brace closes if and only if no line before takes the depth below
      zero. */
  lemma EndsWhereClosedIff(lines: seq<string>, isHeader: string -> Option<Header>, b: Block)
    requires b in BlocksFrom(lines, 0, isHeader)
    ensures b.start < b.end < |lines|
    ensures ClosesAt(lines, b.start, b.end) <==>
            forall k :: b.start <= k < b.end ==> DepthAfter(lines, b.start, k) >= 0
  {
    hide BlocksFrom, CloseLine, LineBalance;
    BlocksStartAtHeaders(lines, 0, isHeader, b);
    CloseLineIsFirstBalanced(lines, b.start, b.start + 1);
  }

  /** It need not be so: after a header and a line of two closing braces the block ends at the line
      below, whatever that line holds. */
  lemma EndsTooLate(lines: seq<string>, isHeader: string -> Option<Header>)
    requires |lines| == 3 && isHeader(lines[0]).Some? && lines[1] == "}}"
    ensures BlocksFrom(lines, 0, isHeader) == [Block(0, 2, isHeader(lines[0]).value)]
    ensures !ClosesAt(lines, 0, 2)
  {
    assert lines[1][1..] == "}" && lines[1][1..][1..] == "";
    assert LineBalance("}") == -1 && LineBalance(lines[1]) == -2;
    assert CloseLine(lines, 1, 1) == CloseLine(lines, 2, -1) == 2;
    assert DepthAfter(lines, 0, 1) == -1;
  }

  // ----- rewriting -----

  predicate PanicAt(line: string, i: nat) {
    i + 6 <= |line| && line[i..i + 6] == "panic!"
  }

  predicate Panics(line: string) {
    exists i :: 0 <= i < |line| && PanicAt(line, i)
  }

  /** What a block becomes: the rewritten lines if the rewriter applies and leaves no panic behind,
      and otherwise the block itself. */
  type Rewriter = (seq<string>, Header) -> Option<seq<string>>

  function Accepted(rewrite: Rewriter, inner: seq<string>, header: Header): Option<seq<string>> {
    var r := rewrite(inner, header);
    if r.Some? && forall l :: l in r.value ==> !Panics(l) then r else None
  }

  function Inner(lines: seq<string>, b: Block): seq<string>
    requires b.start < b.end < |lines|
  {
    lines[b.start + 1..b.end]
  }

  function Piece(lines: seq<string>, b: Block, rewrite: Rewriter): seq<string>
    requires b.start < b.end < |lines|
  {
    var r := Accepted(rewrite, Inner(lines, b), b.header);
    if r.Some? then r.value else lines[b.start..b.end + 1]
  }

  /** Simultaneous replacement from line `from` on: the lines between blocks as they are, every block
      replaced by what its original lines become. */
  function Replaced(lines: seq<string>, blocks: seq<Block>, from: nat, rewrite: Rewriter): seq<string>
    requires Ordered(blocks, |lines|) && from <= |lines|
    requires blocks != [] ==> from <= blocks[0].start
    decreases |blocks|, 1
  {
    if blocks == [] then lines[from..]
    else lines[from..blocks[0].start] + FromBlock(lines, blocks, rewrite)
  }

  /** The replacement from the first block on. */
  function FromBlock(lines: seq<string>, blocks: seq<Block>, rewrite: Rewriter): seq<string>
    requires Ordered(blocks, |lines|) && blocks != []
    decreases |blocks|, 0
  {
    Piece(lines, blocks[0], rewrite) + Replaced(lines, blocks[1..], blocks[0].end + 1, rewrite)
  }

  /** Rewriting never brings a panic in: a line of the result that panics is a line of the original. */
  lemma {:induction false} PanicsAreOld(lines: seq<string>, blocks: seq<Block>, from: nat, rewrite: Rewriter, l: string)
    requires Ordered(blocks, |lines|) && from <= |lines| && (blocks != [] ==> from <= blocks[0].start)
    requires l in Replaced(lines, blocks, from, rewrite) && Panics(l)
    ensures l in lines
    decreases |blocks|
  {
    if blocks != [] && l !in lines[from..blocks[0].start] {
      PieceHasNoNewPanic(lines, blocks[0], rewrite, l);
      if l !in Piece(lines, blocks[0], rewrite) {
        PanicsAreOld(lines, blocks[1..], blocks[0].end + 1, rewrite, l);
      }
    }
  }

  lemma PieceHasNoNewPanic(lines: seq<string>, b: Block, rewrite: Rewriter, l: string)
    requires b.start < b.end < |lines| && Panics(l)
    ensures l in Piece(lines, b, rewrite) ==> l in lines
  {
    hide Panics;
  }

  function CountAccepted(lines: seq<string>, blocks: seq<Block>, rewrite: Rewriter): nat
    requires Ordered(blocks, |lines|)
  {
    if blocks == [] then 0
    else (if Accepted(rewrite, Inner(lines, blocks[0]), blocks[0].header).Some? then 1 else 0)
         + CountAccepted(lines, blocks[1..], rewrite)
  }

  lemma OrderedTail(blocks: seq<Block>, k: nat, n: nat)
    requires Ordered(blocks, n) && k <= |blocks|
    ensures Ordered(blocks[k..], n)
  {
  }

  /** Lines before the first block are kept. */
  lemma ReplacedKeepsPrefix(lines: seq<string>, blocks: seq<Block>, to: nat, rewrite: Rewriter)
    requires Ordered(blocks, |lines|) && to <= |lines| && (blocks != [] ==> to <= blocks[0].start)
    ensures Replaced(lines, blocks, 0, rewrite) == lines[..to] + Replaced(lines, blocks, to, rewrite)
  {
    hide FromBlock;
    if blocks == [] {
      assert lines[0..] == lines[..to] + lines[to..];
    } else {
      SplitPrefix(lines, to, blocks[0].start, FromBlock(lines, blocks, rewrite));
    }
  }

  lemma SplitPrefix(s: seq<string>, to: nat, n: nat, rest: seq<string>)
    requires to <= n <= |s|
    ensures s[0..n] + rest == s[..to] + (s[to..n] + rest)
  {
  }

  lemma SplitAtEnd(s: seq<string>, from: nat, to: nat, rest: seq<string>)
    requires from < to < |s|
    ensures
      var t := s[..to + 1] + rest;
      && to < |t| && t[..from] == s[0..from] && t[from..to + 1] == s[from..to + 1]
      && t[from + 1..to] == s[from + 1..to] && t[to + 1..] == rest
  {
  }

  /** With the later blocks replaced, block `b` still stands where it stood, and replacing it there
      completes the replacement from `b` on. */
  lemma SpliceStep(lines: seq<string>, blocks: seq<Block>, rewrite: Rewriter)
    requires Ordered(blocks, |lines|) && blocks != [] && Ordered(blocks[1..], |lines|)
    ensures
      var b := blocks[0];
      var current := Replaced(lines, blocks[1..], 0, rewrite);
      && b.end < |current| && current[b.start..b.end + 1] == lines[b.start..b.end + 1]
      && Inner(current, b) == Inner(lines, b)
      && Replaced(lines, blocks, 0, rewrite) == current[..b.start] + Piece(lines, b, rewrite) + current[b.end + 1..]
  {
    hide Piece;
    var b := blocks[0];
    var current := Replaced(lines, blocks[1..], 0, rewrite);
    var rest := Replaced(lines, blocks[1..], b.end + 1, rewrite);
    ReplacedKeepsPrefix(lines, blocks[1..], b.end + 1, rewrite);
    SplitAtEnd(lines, b.start, b.end, rest);
    var piece := Piece(lines, b, rewrite);
    Associate(lines[0..b.start], piece, rest);
  }

  /** One turn of the rewriting from the back. */
  lemma RewriteStep(lines: seq<string>, blocks: seq<Block>, rewrite: Rewriter)
    requires Ordered(blocks, |lines|) && blocks != [] && Ordered(blocks[1..], |lines|)
    ensures
      var b, later := blocks[0], blocks[1..];
      var current := Replaced(lines, later, 0, rewrite);
      && b.start < b.end < |current|
      && var now := Accepted(rewrite, Inner(current, b), b.header);
         && Replaced(lines, blocks, 0, rewrite) == (if now.Some? then current[..b.start] + now.value + current[b.end + 1..] else current)
         && CountAccepted(lines, blocks, rewrite) == CountAccepted(lines, later, rewrite) + if now.Some? then 1 else 0
  {
    hide Replaced, Accepted;
    SpliceStep(lines, blocks, rewrite);
    SameLines(Replaced(lines, blocks[1..], 0, rewrite), blocks[0]);
  }

  lemma NothingReplaced(lines: seq<string>, rewrite: Rewriter)
    ensures Ordered([], |lines|) && Replaced(lines, [], 0, rewrite) == lines && CountAccepted(lines, [], rewrite) == 0
  {
  }

  /** Rewrites a file in place, last block first. The result is the simultaneous replacement of all
      blocks in the original file, and every block is counted once. */
  method ProcessFile(original: seq<string>, isHeader: string -> Option<Header>, rewrite: Rewriter)
    returns (lines: seq<string>, rewritten: nat, skipped: nat)
    ensures
      var blocks := BlocksFrom(original, 0, isHeader);
      && Ordered(blocks, |original|)
      && lines == Replaced(original, blocks, 0, rewrite)
      && rewritten == CountAccepted(original, blocks, rewrite)
      && rewritten + skipped == |blocks|
    ensures rewritten == 0 ==> lines == original
  {
    hide Replaced, CountAccepted, Accepted, BlocksFrom, Inner;
    var blocks := FindMatchBlocks(original, isHeader);
    lines, rewritten, skipped := original, 0, 0;
    var k := |blocks|;
    NothingReplaced(original, rewrite);
    while k > 0
      invariant 0 <= k <= |blocks| && Ordered(blocks[k..], |original|)
      invariant lines == Replaced(original, blocks[k..], 0, rewrite)
      invariant rewritten == CountAccepted(original, blocks[k..], rewrite)
      invariant rewritten + skipped == |blocks| - k
      invariant rewritten == 0 ==> lines == original
    {
      ghost var later := blocks[k..];
      k := k - 1;
      OrderedTail(blocks, k, |original|);
      assert blocks[k..][1..] == later;
      RewriteStep(original, blocks[k..], rewrite);
      var b := blocks[k];
      var newBlock := Accepted(rewrite, Inner(lines, b), b.header);
      if newBlock.Some? {
        lines := lines[..b.start] + newBlock.value + lines[b.end + 1..];
        rewritten := rewritten + 1;
      } else {
        skipped := skipped + 1;
      }
    }
    assert blocks[0..] == blocks;
  }

  lemma SameLines(lines: seq<string>, b: Block)
    requires b.start < b.end < |lines|
    ensures lines[..b.start] + lines[b.start..b.end + 1] + lines[b.end + 1..] == lines
  {
  }

  // ----- the rewritten file, piece by piece -----

  ghost predicate Mentions(line: string, word: string) {
    exists a, b :: line == a + word + b
  }

  lemma PanicsIff(line: string)
    ensures Panics(line) <==> Mentions(line, "panic!")
  {
    if Panics(line) {
      var i :| 0 <= i < |line| && PanicAt(line, i);
      assert line == line[..i] + "panic!" + line[i + 6..];
    }
    if Mentions(line, "panic!") {
      var a, b :| line == a + "panic!" + b;
      assert line[|a|..|a| + 6] == "panic!";
      assert PanicAt(line, |a|);
    }
  }

  /** The rewriter, given the lines between the first and the last one, applies without a panic. */
  ghost predicate Rewrites(rewrite: Rewriter, was: seq<string>, header: Header)
    requires |was| >= 2
  {
    var r := rewrite(was[1..|was| - 1], header);
    r.Some? && forall l :: l in r.value ==> !Mentions(l, "panic!")
  }

  /** What stands in place of the lines `was` afterwards. */
  ghost predicate Becomes(rewrite: Rewriter, was: seq<string>, header: Header, now: seq<string>)
    requires |was| >= 2
  {
    now == if Rewrites(rewrite, was, header) then rewrite(was[1..|was| - 1], header).value else was
  }

  lemma PieceBecomes(lines: seq<string>, b: Block, rewrite: Rewriter)
    requires b.start < b.end < |lines|
    ensures
      var was := lines[b.start..b.end + 1];
      && Becomes(rewrite, was, b.header, Piece(lines, b, rewrite))
      && (Accepted(rewrite, Inner(lines, b), b.header).Some? <==> Rewrites(rewrite, was, b.header))
  {
    hide Panics, Mentions;
    InnerOf(lines, b.start, b.end);
    forall l: string ensures Panics(l) <==> Mentions(l, "panic!") { PanicsIff(l); }
  }

  lemma InnerOf(lines: seq<string>, start: nat, end: nat)
    requires start < end < |lines|
    ensures
      var was := lines[start..end + 1];
      was[1..|was| - 1] == lines[start + 1..end]
  {
    var was, inner := lines[start..end + 1], lines[start + 1..end];
    forall k | 0 <= k < |inner| ensures was[1..|was| - 1][k] == inner[k] {
      assert was[k + 1] == lines[start + k + 1];
    }
  }

  /** `parts` with a gap before, between and after them. */
  function Interleave(gaps: seq<seq<string>>, parts: seq<seq<string>>): seq<string>
    requires |gaps| == |parts| + 1
  {
    if parts == [] then gaps[0] else gaps[0] + parts[0] + Interleave(gaps[1..], parts[1..])
  }

  /** The blocks of a file before and after it was rewritten. */
  ghost predicate BlockParts(lines: seq<string>, blocks: seq<Block>, rewrite: Rewriter, olds: seq<seq<string>>, news: seq<seq<string>>) {
    && |olds| == |news| == |blocks|
    && forall k :: 0 <= k < |blocks| ==>
         && blocks[k].start < blocks[k].end < |lines|
         && olds[k] == lines[blocks[k].start..blocks[k].end + 1]
         && Becomes(rewrite, olds[k], blocks[k].header, news[k])
  }

  lemma PartsCons(lines: seq<string>, blocks: seq<Block>, rewrite: Rewriter, olds: seq<seq<string>>, news: seq<seq<string>>)
    requires Ordered(blocks, |lines|) && blocks != [] && BlockParts(lines, blocks[1..], rewrite, olds, news)
    ensures
      var b := blocks[0];
      BlockParts(lines, blocks, rewrite, [lines[b.start..b.end + 1]] + olds, [Piece(lines, b, rewrite)] + news)
  {
    hide Becomes, Piece;
    PieceBecomes(lines, blocks[0], rewrite);
    assert forall k :: 0 < k < |blocks| ==> blocks[1..][k - 1] == blocks[k];
  }

  lemma InterleaveCons(gap: seq<string>, part: seq<string>, gaps: seq<seq<string>>, parts: seq<seq<string>>)
    requires |gaps| == |parts| + 1
    ensures Interleave([gap] + gaps, [part] + parts) == gap + part + Interleave(gaps, parts)
  {
    assert ([gap] + gaps)[1..] == gaps && ([part] + parts)[1..] == parts;
  }

  lemma CutAt(s: seq<string>, from: nat, start: nat, end: nat)
    requires from <= start <= end <= |s|
    ensures s[from..] == s[from..start] + s[start..end] + s[end..]
  {
  }

  /** The rewritten file is the original with each block exchanged for what it becomes and nothing else
      changed: the same lines stand before, between and after the blocks. */
  lemma {:induction false} OnlyBlocksChange(lines: seq<string>, blocks: seq<Block>, from: nat, rewrite: Rewriter)
    returns (gaps: seq<seq<string>>, olds: seq<seq<string>>, news: seq<seq<string>>)
    requires Ordered(blocks, |lines|) && from <= |lines| && (blocks != [] ==> from <= blocks[0].start)
    ensures |gaps| == |blocks| + 1 && BlockParts(lines, blocks, rewrite, olds, news)
    ensures lines[from..] == Interleave(gaps, olds)
    ensures Replaced(lines, blocks, from, rewrite) == Interleave(gaps, news)
    decreases |blocks|
  {
    hide *;
    if blocks == [] {
      gaps, olds, news := [lines[from..]], [], [];
      NothingChanges(lines, from, rewrite);
    } else {
      var b := blocks[0];
      OrderedHead(blocks, |lines|);
      var moreGaps, moreOlds, moreNews := OnlyBlocksChange(lines, blocks[1..], b.end + 1, rewrite);
      PartsAsMany(lines, blocks[1..], rewrite, moreOlds, moreNews);
      PartsCons(lines, blocks, rewrite, moreOlds, moreNews);
      var gap, was, now := lines[from..b.start], lines[b.start..b.end + 1], Piece(lines, b, rewrite);
      gaps, olds, news := [gap] + moreGaps, [was] + moreOlds, [now] + moreNews;
      InterleaveCons(gap, was, moreGaps, moreOlds);
      InterleaveCons(gap, now, moreGaps, moreNews);
      CutAt(lines, from, b.start, b.end + 1);
      ReplacedFirst(lines, blocks, from, rewrite);
    }
  }

  lemma NothingChanges(lines: seq<string>, from: nat, rewrite: Rewriter)
    requires from <= |lines|
    ensures BlockParts(lines, [], rewrite, [], []) && Interleave([lines[from..]], []) == lines[from..]
    ensures Ordered([], |lines|) && Replaced(lines, [], from, rewrite) == lines[from..]
  {
  }

  lemma OrderedHead(blocks: seq<Block>, n: nat)
    requires Ordered(blocks, n) && blocks != []
    ensures blocks[0].start < blocks[0].end < n && Ordered(blocks[1..], n)
    ensures blocks[1..] != [] ==> blocks[0].end + 1 <= blocks[1..][0].start
  {
  }

  lemma ReplacedFirst(lines: seq<string>, blocks: seq<Block>, from: nat, rewrite: Rewriter)
    requires Ordered(blocks, |lines|) && blocks != [] && Ordered(blocks[1..], |lines|) && from <= blocks[0].start
    ensures
      var b := blocks[0];
      Replaced(lines, blocks, from, rewrite)
      == lines[from..b.start] + Piece(lines, b, rewrite) + Replaced(lines, blocks[1..], b.end + 1, rewrite)
  {
    hide Piece;
    var b := blocks[0];
    Associate(lines[from..b.start], Piece(lines, b, rewrite), Replaced(lines, blocks[1..], b.end + 1, rewrite));
  }

  lemma PartsAsMany(lines: seq<string>, blocks: seq<Block>, rewrite: Rewriter, olds: seq<seq<string>>, news: seq<seq<string>>)
    requires BlockParts(lines, blocks, rewrite, olds, news)
    ensures |olds| == |news| == |blocks|
  {
  }

  ghost predicate IsRewritten(lines: seq<string>, b: Block, rewrite: Rewriter)
    requires b.start < b.end < |lines|
  {
    Rewrites(rewrite, lines[b.start..b.end + 1], b.header)
  }

  /** The positions of the blocks that are rewritten. */
  ghost predicate RewrittenAt(lines: seq<string>, blocks: seq<Block>, rewrite: Rewriter, at: seq<nat>)
    requires Ordered(blocks, |lines|)
  {
    && (forall i, j :: 0 <= i < j < |at| ==> at[i] < at[j])
    && (forall i :: 0 <= i < |at| ==> at[i] < |blocks|)
    && (forall k :: 0 <= k < |blocks| ==> (IsRewritten(lines, blocks[k], rewrite) <==> k in at))
  }

  function Shifted(at: seq<nat>): (r: seq<nat>)
    ensures |r| == |at| && forall i :: 0 <= i < |at| ==> r[i] == at[i] + 1
  {
    seq(|at|, i requires 0 <= i < |at| => at[i] + 1)
  }

  lemma RewrittenCons(lines: seq<string>, blocks: seq<Block>, rewrite: Rewriter, at: seq<nat>)
    requires Ordered(blocks, |lines|) && blocks != [] && Ordered(blocks[1..], |lines|)
    requires RewrittenAt(lines, blocks[1..], rewrite, at)
    ensures
      var first: seq<nat> := if IsRewritten(lines, blocks[0], rewrite) then [0] else [];
      RewrittenAt(lines, blocks, rewrite, first + Shifted(at))
  {
    hide IsRewritten;
    var first: seq<nat> := if IsRewritten(lines, blocks[0], rewrite) then [0] else [];
    forall k | 0 < k < |blocks| ensures IsRewritten(lines, blocks[k], rewrite) <==> k in first + Shifted(at) {
      assert blocks[1..][k - 1] == blocks[k];
      ShiftedHas(at, k - 1);
    }
  }

  lemma ShiftedHas(at: seq<nat>, k: nat)
    ensures k in at <==> k + 1 in Shifted(at)
  {
    if k in at {
      var i :| 0 <= i < |at| && at[i] == k;
      assert Shifted(at)[i] == k + 1;
    }
  }

  /** The blocks that count as rewritten are those to which the rewriter applies without a panic. */
  lemma {:induction false} CountsRewritten(lines: seq<string>, blocks: seq<Block>, rewrite: Rewriter)
    returns (at: seq<nat>)
    requires Ordered(blocks, |lines|)
    ensures RewrittenAt(lines, blocks, rewrite, at) && |at| == CountAccepted(lines, blocks, rewrite)
  {
    at := [];
    if blocks != [] {
      hide RewrittenAt, Rewrites, Accepted;
      var b := blocks[0];
      OrderedTail(blocks, 1, |lines|);
      var more := CountsRewritten(lines, blocks[1..], rewrite);
      RewrittenCons(lines, blocks, rewrite, more);
      PieceBecomes(lines, b, rewrite);
      at := (if IsRewritten(lines, b, rewrite) then [0] else []) + Shifted(more);
    }
  }
}
