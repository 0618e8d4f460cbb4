/** `markdownProseLines` of scripts/markdown.ts: which lines are kept as prose. */
module MarkdownProse {
  import opened Prelude
  import opened Text
  import opened Sorting
  import opened MarkdownMask

  /** A code block's first and last line, counted from one. */
  datatype CodeBlock = CodeBlock(first: nat, last: nat)

  datatype ProseLine = ProseLine(index: nat, raw: string)

  // ---- Trimming ----

  function TrimEnd(s: string): string {
    if s != "" && IsSpace(s[|s| - 1]) then TrimEnd(s[..|s| - 1]) else s
  }

  function Trim(s: string): string {
    TrimEnd(s[SkipWhile(s, IsSpace)..])
  }

  predicate HasInk(s: string) {
    exists i | 0 <= i < |s| :: !IsSpace(s[i])
  }

  lemma {:induction false} TrimEndKeepsInk(s: string)
    requires HasInk(s)
    ensures TrimEnd(s) != ""
  {
    if IsSpace(s[|s| - 1]) {
      var i :| 0 <= i < |s| && !IsSpace(s[i]);
      assert s[..|s| - 1][i] == s[i];
      TrimEndKeepsInk(s[..|s| - 1]);
    }
  }

  /** A trimmed text is non-empty exactly when it has a character other than white space. */
  lemma TrimLeavesInk(s: string)
    ensures Trim(s) != "" <==> HasInk(s)
  {
    var n := SkipWhile(s, IsSpace);
    if n < |s| {
      assert s[n..][0] == s[n];
      TrimEndKeepsInk(s[n..]);
    }
  }

  // ---- One line ----

  function HasRenderedTextOutsideComments(raw: string, ranges: Option<seq<Range>>): bool
    requires ranges.Some? ==> Fits(ranges.value, |raw|)
  {
    match ranges
    case None => true
    case Some(unsorted) => SortKeepsFit(unsorted, |raw|); Trim(Visible(raw, Sort(unsorted, ByStart()), 0)) != ""
  }

  lemma SortKeepsFit(ranges: seq<Range>, length: nat)
    requires Fits(ranges, length)
    ensures Fits(Sort(ranges, ByStart()), length)
  {
    SortPermutes(ranges, ByStart());
    SameMembers(ranges, Sort(ranges, ByStart()));
  }

  /** A column outside the ranges that holds a character other than white space. */
  predicate Shows(raw: string, ranges: seq<Range>, j: nat) {
    j < |raw| && !Covered(ranges, j) && !IsSpace(raw[j])
  }

  ghost predicate ShowsFrom(raw: string, ranges: seq<Range>, k: nat) {
    exists j {:trigger Shows(raw, ranges, j)} | k <= j < |raw| :: Shows(raw, ranges, j)
  }

  lemma ShowsHereOrLater(raw: string, ranges: seq<Range>, k: nat)
    requires k < |raw|
    ensures ShowsFrom(raw, ranges, k) <==> Shows(raw, ranges, k) || ShowsFrom(raw, ranges, k + 1)
  {
  }

  lemma {:induction false} OutsideHasInk(raw: string, ranges: seq<Range>, k: nat)
    ensures HasInk(Outside(raw, ranges, k)) <==> ShowsFrom(raw, ranges, k)
    decreases |raw| - k
  {
    if k < |raw| {
      var rest := Outside(raw, ranges, k + 1);
      OutsideHasInk(raw, ranges, k + 1);
      ShowsHereOrLater(raw, ranges, k);
      if Covered(ranges, k) {
        assert "" + rest == rest;
      } else {
        InkOfConcat([raw[k]], rest);
        InkOfOne(raw[k]);
      }
    }
  }

  lemma InkOfOne(c: char)
    ensures HasInk([c]) <==> !IsSpace(c)
  {
    assert [c][0] == c;
  }

  lemma InkOfConcat(a: string, b: string)
    ensures HasInk(a + b) <==> HasInk(a) || HasInk(b)
  {
    if i :| 0 <= i < |a| && !IsSpace(a[i]) { assert !IsSpace((a + b)[i]); }
    if i :| 0 <= i < |b| && !IsSpace(b[i]) { assert !IsSpace((a + b)[|a| + i]); }
  }

  ghost predicate InkOutside(raw: string, ranges: seq<Range>) {
    ShowsFrom(raw, ranges, 0)
  }

  /** Some absolute offset of a stretch of source, outside every comment, holds such a character. */
  predicate InkInSource(source: string, comments: seq<Range>, offset: nat, length: nat)
    requires offset + length <= |source|
  {
    exists k | offset <= k < offset + length :: !Covered(comments, k) && !IsSpace(source[k])
  }

  /** The order of the ranges, and whether they overlap, does not matter. */
  lemma RenderedTextIsUncovered(raw: string, ranges: seq<Range>)
    requires Fits(ranges, |raw|)
    ensures HasRenderedTextOutsideComments(raw, Some(ranges)) <==> InkOutside(raw, ranges)
  {
    var sorted := Sort(ranges, ByStart());
    SortSorts(ranges, ByStart());
    SortPermutes(ranges, ByStart());
    SameMembers(ranges, sorted);
    SortKeepsFit(ranges, |raw|);
    VisibleIsOutside(raw, sorted, 0);
    TrimLeavesInk(Visible(raw, sorted, 0));
    OutsideHasInk(raw, sorted, 0);
    forall j: nat ensures Shows(raw, sorted, j) == Shows(raw, ranges, j) { SameCover(sorted, ranges, j); }
  }

  lemma SameCover(a: seq<Range>, b: seq<Range>, k: int)
    requires forall r :: r in a <==> r in b
    ensures Covered(a, k) == Covered(b, k)
  {
  }

  // ---- Lines and offsets ----

  ghost predicate StandsAt(source: string, offset: nat, line: string) {
    offset + |line| <= |source| && source[offset..offset + |line|] == line
  }

  lemma StandsLater(head: string, rest: string, offset: nat, line: string)
    requires StandsAt(rest, offset, line)
    ensures StandsAt(head + rest, |head| + offset, line)
  {
    var source := head + rest;
    assert source[|head| + offset..|head| + offset + |line|] == rest[offset..offset + |line|];
  }

  /** Line `i` stands in the source at its offset. */
  lemma {:induction false} LineStandsAt(source: string, i: nat)
    requires i < |SplitLines(source)|
    ensures StandsAt(source, LineOffset(SplitLines(source), i), SplitLines(source)[i])
    decreases |source|
  {
    var e := SkipWhile(source, Not('\n'));
    if e < |source| && i > 0 {
      var head, rest := source[..e + 1], source[e + 1..];
      assert source == head + rest;
      LineStandsAt(rest, i - 1);
      OffsetInRest(source[..e], SplitLines(rest), i);
      StandsLater(head, rest, LineOffset(SplitLines(rest), i - 1), SplitLines(rest)[i - 1]);
    }
  }

  lemma {:induction false} OffsetInRest(first: string, rest: seq<string>, i: nat)
    requires 0 < i <= |rest|
    ensures LineOffset([first] + rest, i) == |first| + 1 + LineOffset(rest, i - 1)
  {
    if i > 1 { OffsetInRest(first, rest, i - 1); }
  }

  // ---- Kept lines ----

  predicate InCode(blocks: seq<CodeBlock>, line: nat) {
    exists b | b in blocks :: b.first <= line <= b.last
  }

  /** The columns recorded for a line, absent when no comment meets it. */
  function RangesOfLine(comments: seq<Range>, offset: nat, length: nat): Option<seq<Range>> {
    var ranges := LineRanges(comments, offset, length);
    if ranges == [] then None else Some(ranges)
  }

  /** The loop's test for line `i`, counted from zero. */
  predicate Keeps(lines: seq<string>, comments: seq<Range>, blocks: seq<CodeBlock>, i: nat) {
    && i < |lines|
    && !InCode(blocks, i + 1)
    && (LineRangesFit(comments, LineOffset(lines, i), |lines[i]|);
        HasRenderedTextOutsideComments(lines[i], RangesOfLine(comments, LineOffset(lines, i), |lines[i]|)))
  }

  lemma LineRangesShow(raw: string, comments: seq<Range>, offset: nat)
    ensures Fits(LineRanges(comments, offset, |raw|), |raw|)
    ensures HasRenderedTextOutsideComments(raw, RangesOfLine(comments, offset, |raw|))
            <==> !Touched(comments, offset, |raw|) || InkOutside(raw, LineRanges(comments, offset, |raw|))
  {
    LineRangesFit(comments, offset, |raw|);
    RenderedTextIsUncovered(raw, LineRanges(comments, offset, |raw|));
  }

  lemma InkAtOffset(source: string, raw: string, comments: seq<Range>, offset: nat)
    requires StandsAt(source, offset, raw)
    ensures InkOutside(raw, LineRanges(comments, offset, |raw|)) <==> InkInSource(source, comments, offset, |raw|)
  {
    var ranges := LineRanges(comments, offset, |raw|);
    forall j | 0 <= j < |raw|
      ensures source[offset + j] == raw[j] && (Covered(ranges, j) <==> Covered(comments, offset + j))
    {
      assert source[offset..offset + |raw|][j] == raw[j];
      LineRangesCover(comments, offset, |raw|, j);
    }
    if j: nat :| j < |raw| && Shows(raw, ranges, j) {
      assert !Covered(comments, offset + j) && !IsSpace(source[offset + j]);
    }
    if k :| offset <= k < offset + |raw| && !Covered(comments, k) && !IsSpace(source[k]) {
      assert source[offset + (k - offset)] == raw[k - offset];
      assert Shows(raw, ranges, k - offset);
    }
  }

  /**
   * A line outside code is kept exactly when no comment meets it or one of its
   * characters, not white space, has an absolute offset outside every comment.
   */
  lemma KeptExactlyWhenVisible(source: string, comments: seq<Range>, blocks: seq<CodeBlock>, i: nat)
    requires i < |SplitLines(source)|
    ensures var lines := SplitLines(source);
            var offset, length := LineOffset(lines, i), |lines[i]|;
            && offset + length <= |source|
            && (Keeps(lines, comments, blocks, i) <==>
                  !InCode(blocks, i + 1) && (!Touched(comments, offset, length) || InkInSource(source, comments, offset, length)))
  {
    var lines := SplitLines(source);
    LineStandsAt(source, i);
    LineRangesShow(lines[i], comments, LineOffset(lines, i));
    InkAtOffset(source, lines[i], comments, LineOffset(lines, i));
  }

  function KeepTest(lines: seq<string>, comments: seq<Range>, blocks: seq<CodeBlock>): nat -> bool {
    (i: nat) => Keeps(lines, comments, blocks, i)
  }

  function KeptFrom(lines: seq<string>, keep: nat -> bool, i: nat): seq<ProseLine>
    requires i <= |lines|
    decreases |lines| - i
  {
    if i == |lines| then []
    else (if keep(i) then [ProseLine(i + 1, lines[i])] else []) + KeptFrom(lines, keep, i + 1)
  }

  ghost predicate IsKept(lines: seq<string>, keep: nat -> bool, from: nat, p: ProseLine) {
    from < p.index <= |lines| && p.raw == lines[p.index - 1] && keep(p.index - 1)
  }

  /** The result lists the kept lines with their numbers and nothing else. */
  lemma {:induction false} KeptLists(lines: seq<string>, keep: nat -> bool, i: nat, p: ProseLine)
    requires i <= |lines|
    ensures p in KeptFrom(lines, keep, i) <==> IsKept(lines, keep, i, p)
    decreases |lines| - i
  {
    if i < |lines| { KeptLists(lines, keep, i + 1, p); }
  }

  ghost predicate Increasing(kept: seq<ProseLine>) {
    forall m, n | 0 <= m < n < |kept| :: kept[m].index < kept[n].index
  }

  lemma IncreasingCons(p: ProseLine, rest: seq<ProseLine>)
    requires Increasing(rest) && forall q | q in rest :: p.index < q.index
    ensures Increasing([p] + rest)
  {
  }

  /** They come in source order. */
  lemma {:induction false} KeptInOrder(lines: seq<string>, keep: nat -> bool, i: nat)
    requires i <= |lines|
    ensures Increasing(KeptFrom(lines, keep, i))
    decreases |lines| - i
  {
    if i < |lines| {
      KeptInOrder(lines, keep, i + 1);
      var rest := KeptFrom(lines, keep, i + 1);
      forall q | q in rest ensures i + 1 < q.index { KeptLists(lines, keep, i + 1, q); }
      IncreasingCons(ProseLine(i + 1, lines[i]), rest);
      assert [] + rest == rest;
    }
  }

  // ---- The loops ----

  /** The comments of one HTML node, pushed at their offsets in the source. */
  method CollectComments(node: HtmlNode, before: seq<Range>) returns (comments: seq<Range>)
    ensures comments == before + Shift(Comments(node.value, 0), node.offset)
  {
    comments := before;
    var cursor := 0;
    ghost var rest := Comments(node.value, cursor);
    ghost var all := before + Shift(rest, node.offset);
    while true
      invariant rest == Comments(node.value, cursor) && comments + Shift(rest, node.offset) == all
      decreases |node.value| - cursor
    {
      var start := IndexOf(node.value, OPEN, cursor);
      if start.None? {
        assert comments + [] == comments;
        return;
      }
      var end := CommentEnd(node.value, start.value);
      rest := Comments(node.value, end);
      NextComment(comments, start.value, end, rest, node.offset);
      comments := comments + [Range(node.offset + start.value, node.offset + end)];
      cursor := end;
    }
  }

  lemma NextComment(before: seq<Range>, start: nat, end: nat, rest: seq<Range>, offset: nat)
    ensures before + Shift([Range(start, end)] + rest, offset) == before + [Range(offset + start, offset + end)] + Shift(rest, offset)
  {
    assert ([Range(start, end)] + rest)[1..] == rest;
  }

  method LineColumns(comments: seq<Range>, offset: nat, raw: string) returns (ranges: Option<seq<Range>>)
    ensures ranges == RangesOfLine(comments, offset, |raw|)
  {
    ranges := None;
    for j := 0 to |comments|
      invariant ranges == RangesOfLine(comments[..j], offset, |raw|)
    {
      assert comments[..j + 1][..j] == comments[..j];
      var c := comments[j];
      if Touches(c, offset, |raw|) {
        ranges := Some((if ranges.None? then [] else ranges.value) + [Columns(c, offset, |raw|)]);
      }
    }
    assert comments[..|comments|] == comments;
  }

  function RecordedAt(ranges: map<nat, seq<Range>>, line: nat): Option<seq<Range>> {
    if line in ranges then Some(ranges[line]) else None
  }

  /** What is recorded for line `i`, counted from zero. */
  ghost predicate Recorded(ranges: map<nat, seq<Range>>, comments: seq<Range>, lines: seq<string>, i: nat) {
    i < |lines| && RecordedAt(ranges, i + 1) == RangesOfLine(comments, LineOffset(lines, i), |lines[i]|)
  }

  method AllComments(nodes: seq<HtmlNode>) returns (comments: seq<Range>)
    ensures comments == SourceComments(nodes)
  {
    comments := [];
    for n := 0 to |nodes|
      invariant comments == SourceComments(nodes[..n])
    {
      assert nodes[..n + 1][..n] == nodes[..n];
      comments := CollectComments(nodes[n], comments);
    }
    assert nodes[..|nodes|] == nodes;
  }

  /** `htmlCommentRanges`: the columns under comments of every line that a comment meets, keyed by line number. */
  method HtmlCommentRanges(nodes: seq<HtmlNode>, lines: seq<string>) returns (ranges: map<nat, seq<Range>>)
    ensures forall i {:trigger Recorded(ranges, SourceComments(nodes), lines, i)} | 0 <= i < |lines| ::
              Recorded(ranges, SourceComments(nodes), lines, i)
  {
    var comments := AllComments(nodes);
    ranges := map[];
    var lineOffset := 0;
    for index := 0 to |lines|
      invariant lineOffset == LineOffset(lines, index)
      invariant forall k | k in ranges :: 0 < k <= index
      invariant forall i {:trigger Recorded(ranges, comments, lines, i)} | 0 <= i < index :: Recorded(ranges, comments, lines, i)
    {
      var columns := LineColumns(comments, lineOffset, lines[index]);
      ghost var before := ranges;
      if columns.Some? {
        ranges := ranges[index + 1 := columns.value];
      }
      lineOffset := lineOffset + |lines[index]| + 1;
      forall i {:trigger Recorded(ranges, comments, lines, i)} | 0 <= i < index + 1 ensures Recorded(ranges, comments, lines, i) {
        assert i < index ==> Recorded(before, comments, lines, i);
      }
    }
  }

  function VisibleAfter(raw: string, sorted: seq<Range>, j: nat, cursor: nat): string
    requires j <= |sorted| && Fits(sorted, |raw|)
  {
    Visible(raw, sorted[j..], cursor)
  }

  lemma VisibleStep(raw: string, sorted: seq<Range>, j: nat, cursor: nat, visible: string)
    requires j < |sorted| && Fits(sorted, |raw|)
    ensures visible + VisibleAfter(raw, sorted, j, cursor)
            == visible + Slice(raw, cursor, sorted[j].start) + VisibleAfter(raw, sorted, j + 1, Max(cursor, sorted[j].end))
  {
    assert sorted[j..][1..] == sorted[j + 1..];
  }

  /** `hasRenderedTextOutsideComments`: the walk with a cursor over the sorted ranges. */
  method HasRenderedText(raw: string, ranges: Option<seq<Range>>) returns (r: bool)
    requires ranges.Some? ==> Fits(ranges.value, |raw|)
    ensures r == HasRenderedTextOutsideComments(raw, ranges)
  {
    if ranges.None? {
      return true;
    }
    SortKeepsFit(ranges.value, |raw|);
    var sorted := Sort(ranges.value, ByStart());
    var cursor: nat, visible := 0, "";
    assert sorted[0..] == sorted;
    ghost var all := VisibleAfter(raw, sorted, 0, 0);
    for j := 0 to |sorted|
      invariant visible + VisibleAfter(raw, sorted, j, cursor) == all
    {
      VisibleStep(raw, sorted, j, cursor, visible);
      visible := visible + Slice(raw, cursor, sorted[j].start);
      cursor := Max(cursor, sorted[j].end);
    }
    visible := visible + Slice(raw, cursor, |raw|);
    r := Trim(visible) != "";
  }

  lemma KeptStep(lines: seq<string>, keep: nat -> bool, i: nat, kept: seq<ProseLine>)
    requires i < |lines|
    ensures kept + KeptFrom(lines, keep, i)
            == (if keep(i) then kept + [ProseLine(i + 1, lines[i])] else kept) + KeptFrom(lines, keep, i + 1)
  {
  }

  /** `markdownProseLines`, for a source whose HTML nodes and code blocks are given. */
  method MarkdownProseLines(source: string, nodes: seq<HtmlNode>, blocks: seq<CodeBlock>) returns (kept: seq<ProseLine>)
    ensures kept == KeptFrom(SplitLines(source), KeepTest(SplitLines(source), SourceComments(nodes), blocks), 0)
  {
    var lines := SplitLines(source);
    var ranges := HtmlCommentRanges(nodes, lines);
    ghost var comments := SourceComments(nodes);
    ghost var keep := KeepTest(lines, comments, blocks);
    kept := [];
    for i := 0 to |lines|
      invariant kept + KeptFrom(lines, keep, i) == KeptFrom(lines, keep, 0)
    {
      KeptStep(lines, keep, i, kept);
      assert Recorded(ranges, comments, lines, i);
      LineRangesShow(lines[i], comments, LineOffset(lines, i));
      if !InCode(blocks, i + 1) {
        var visible := HasRenderedText(lines[i], RecordedAt(ranges, i + 1));
        if visible {
          kept := kept + [ProseLine(i + 1, lines[i])];
        }
      }
    }
  }
}
