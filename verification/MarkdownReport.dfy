/** What `markdownProseLines` returns, on the characters of the source alone. */
module MarkdownReport {
  import opened Prelude
  import opened Text
  import opened MarkdownMask
  import opened MarkdownProse

  // ---- Comments, character by character ----

  ghost predicate Opens(value: string, i: int) {
    0 <= i && i + 4 <= |value| && value[i..i + 4] == "<!--"
  }

  ghost predicate Closes(value: string, i: int) {
    0 <= i && i + 3 <= |value| && value[i..i + 3] == "-->"
  }

  /** From an opener to the first closer behind it, or to the end when none follows. */
  ghost predicate Spans(value: string, r: Range) {
    && Opens(value, r.start) && r.start + 4 <= r.end <= |value|
    && (forall i | r.start + 4 <= i < r.end - 3 :: !Closes(value, i))
    && ((r.start + 7 <= r.end && Closes(value, r.end - 3))
        || (r.end == |value| && forall i | r.start + 4 <= i :: !Closes(value, i)))
  }

  ghost predicate InOne(found: seq<Range>, i: int) {
    exists j :: 0 <= j < |found| && found[j].start <= i < found[j].end
  }

  /** The comments of a node: in order, disjoint, and no opener is left outside them. This leaves one list. */
  ghost predicate AreComments(value: string, found: seq<Range>) {
    && (forall j | 0 <= j < |found| :: Spans(value, found[j]))
    && (forall j, k | 0 <= j < k < |found| :: found[j].end <= found[k].start)
    && (forall i {:trigger InOne(found, i)} | Opens(value, i) :: InOne(found, i))
  }

  lemma OpensIs(value: string, i: int)
    ensures Opens(value, i) <==> OccursAt(value, OPEN, i)
    ensures Closes(value, i) <==> OccursAt(value, CLOSE, i)
  {
  }

  lemma SpansIs(value: string, r: Range)
    requires IsComment(value, r)
    ensures Spans(value, r)
  {
    OpensIs(value, r.start);
    forall i ensures Closes(value, i) <==> OccursAt(value, CLOSE, i) { OpensIs(value, i); }
  }

  lemma FoundSpans(value: string, j: nat)
    requires j < |Comments(value, 0)|
    ensures Spans(value, Comments(value, 0)[j])
  {
    CommentsInOrder(value, 0);
    assert Comments(value, 0)[j] in Comments(value, 0);
    SpansIs(value, Comments(value, 0)[j]);
  }

  lemma OpenerIsFound(value: string, i: int)
    requires Opens(value, i)
    ensures InOne(Comments(value, 0), i)
  {
    var found := Comments(value, 0);
    OpensIs(value, i);
    CommentsAreMaximal(value, 0, i);
    var r :| r in found && Within(r, i);
    var j :| 0 <= j < |found| && found[j] == r;
  }

  /** The scan finds the comments. */
  lemma CommentsAreTold(value: string)
    ensures AreComments(value, Comments(value, 0))
  {
    var found := Comments(value, 0);
    CommentsInOrder(value, 0);
    forall j | 0 <= j < |found| ensures Spans(value, found[j]) { FoundSpans(value, j); }
    forall i | Opens(value, i) ensures InOne(found, i) { OpenerIsFound(value, i); }
  }

  /** The conditions leave no second list. */
  lemma {:induction false} CommentsAreUnique(value: string, a: seq<Range>, b: seq<Range>, k: nat)
    requires AreComments(value, a) && AreComments(value, b) && k <= |a|
    ensures k <= |b| && a[..k] == b[..k]
  {
    if k > 0 {
      CommentsAreUnique(value, a, b, k - 1);
      NoneBefore(value, a, b, k - 1);
      NoneBefore(value, b, a, k - 1);
      SameEnd(value, a[k - 1], b[k - 1]);
      TakeOneMore(a, k - 1);
      TakeOneMore(b, k - 1);
    }
  }

  /** After equal beginnings the next comment of one list has one in the other that starts no later. */
  lemma NoneBefore(value: string, a: seq<Range>, b: seq<Range>, k: nat)
    requires AreComments(value, a) && AreComments(value, b) && k < |a| && k <= |b| && a[..k] == b[..k]
    ensures k < |b| && b[k].start <= a[k].start
  {
    assert Spans(value, a[k]);
    assert InOne(b, a[k].start);
    var m :| 0 <= m < |b| && b[m].start <= a[k].start < b[m].end;
    SameBefore(a, b, k);
    assert k < m ==> b[k].end <= b[m].start && Spans(value, b[k]);
  }

  lemma SameBefore<T>(a: seq<T>, b: seq<T>, k: nat)
    requires k <= |a| && k <= |b| && a[..k] == b[..k]
    ensures forall j | 0 <= j < k :: a[j] == b[j]
  {
    assert forall j | 0 <= j < k :: a[..k][j] == a[j] && b[..k][j] == b[j];
  }

  lemma SameEnd(value: string, a: Range, b: Range)
    requires Spans(value, a) && Spans(value, b) && a.start == b.start
    ensures a == b
  {
  }

  // ---- Lines, offset by offset ----

  ghost predicate IsFeed(c: char) {
    c == '\n'
  }

  /** Line `i`, counted from zero, with the offset where it starts. */
  ghost predicate LineAt(source: string, i: nat, start: nat, raw: string) {
    var end := start + |raw|;
    && end <= |source| && source[start..end] == raw && '\n' !in raw
    && (start == 0 || source[start - 1] == '\n') && (end == |source| || source[end] == '\n')
    && Count(source[..start], IsFeed) == i
  }

  lemma {:induction false} NoFeeds(s: string)
    requires '\n' !in s
    ensures Count(s, IsFeed) == 0
  {
    if s != "" { NoFeeds(s[1..]); }
  }

  lemma FeedsOfHead(head: string, rest: string)
    requires '\n' !in head
    ensures Count(head + "\n" + rest, IsFeed) == 1 + Count(rest, IsFeed)
  {
    NoFeeds(head);
    CountConcat(head + "\n", rest, IsFeed);
    CountConcat(head, "\n", IsFeed);
    assert "\n"[1..] == "";
  }

  lemma LineLater(head: string, rest: string, i: nat, start: nat, raw: string)
    requires '\n' !in head && LineAt(rest, i, start, raw)
    ensures LineAt(head + "\n" + rest, i + 1, |head| + 1 + start, raw)
  {
    var cut := head + "\n";
    FeedsOfHead(head, rest[..start]);
    SliceBehind(cut, rest, start, start + |raw|);
    assert (cut + rest)[|cut| + start - 1] == if start == 0 then '\n' else rest[start - 1];
  }

  lemma SliceBehind(cut: string, rest: string, start: nat, end: nat)
    requires start <= end <= |rest|
    ensures (cut + rest)[..|cut| + start] == cut + rest[..start]
    ensures (cut + rest)[|cut| + start..|cut| + end] == rest[start..end]
    ensures end < |rest| ==> (cut + rest)[|cut| + end] == rest[end]
  {
  }

  /** A text without a line feed is one line, and any other is its first line and the lines of the rest. */
  lemma FirstFeed(source: string) returns (head: string, rest: string)
    ensures '\n' !in head && SplitLines(source)[0] == head
    ensures |SplitLines(source)| == 1 ==> source == head
    ensures |SplitLines(source)| > 1 ==> source == head + "\n" + rest && SplitLines(source) == [head] + SplitLines(rest)
  {
    var e := SkipWhile(source, Not('\n'));
    head, rest := source[..e], "";
    if e < |source| {
      rest := source[e + 1..];
      assert source == head + [source[e]] + rest;
    }
  }

  lemma FirstLine(source: string, head: string, rest: string)
    requires '\n' !in head && (source == head || source == head + "\n" + rest)
    ensures LineAt(source, 0, 0, head)
  {
    assert source[0..|head|] == head && source[..0] == "";
  }

  lemma {:induction false} LineIsTold(source: string, i: nat)
    requires i < |SplitLines(source)|
    ensures LineAt(source, i, LineOffset(SplitLines(source), i), SplitLines(source)[i])
  {
    var head, rest := FirstFeed(source);
    if i == 0 {
      FirstLine(source, head, rest);
    } else {
      LineIsTold(rest, i - 1);
      LineOfRest(source, head, rest, i, SplitLines(source), SplitLines(rest));
    }
  }

  lemma LineOfRest(source: string, head: string, rest: string, i: nat, lines: seq<string>, later: seq<string>)
    requires '\n' !in head && source == head + "\n" + rest && lines == [head] + later && 0 < i < |lines|
    requires LineAt(rest, i - 1, LineOffset(later, i - 1), later[i - 1])
    ensures LineAt(source, i, LineOffset(lines, i), lines[i])
  {
    OffsetInRest(head, later, i);
    LineLater(head, rest, i - 1, LineOffset(later, i - 1), later[i - 1]);
  }

  lemma {:induction false} LinesAreCounted(source: string)
    ensures |SplitLines(source)| == Count(source, IsFeed) + 1
  {
    var head, rest := FirstFeed(source);
    if |SplitLines(source)| == 1 {
      NoFeeds(source);
    } else {
      FeedsOfHead(head, rest);
      LinesAreCounted(rest);
    }
  }

  // ---- Kept lines ----

  /** Where comment `j` of node `n` stands in the source. */
  ghost predicate Hides(nodes: seq<HtmlNode>, found: seq<seq<Range>>, n: nat, j: nat, k: int) {
    && n < |nodes| && n < |found| && j < |found[n]|
    && nodes[n].offset + found[n][j].start <= k < nodes[n].offset + found[n][j].end
  }

  ghost predicate Hidden(nodes: seq<HtmlNode>, found: seq<seq<Range>>, k: int) {
    exists n: nat, j: nat :: Hides(nodes, found, n, j, k)
  }

  /** The offsets of a line: its characters or, if it has none, its line feed. */
  ghost predicate OnLine(start: nat, length: nat, k: int) {
    start <= k && (k < start + length || (length == 0 && k == start))
  }

  /** Some comment goes over a character of the line or, if the line is empty, over its line feed. */
  ghost predicate Met(nodes: seq<HtmlNode>, found: seq<seq<Range>>, start: nat, length: nat) {
    exists k :: OnLine(start, length, k) && Hidden(nodes, found, k)
  }

  /** A line is kept outside code blocks if no comment meets it, or some character is neither hidden nor white space. */
  ghost predicate Stays(
    source: string, nodes: seq<HtmlNode>, found: seq<seq<Range>>, blocks: seq<CodeBlock>, i: nat, start: nat, length: nat
  )
    requires start + length <= |source|
  {
    && (forall b | 0 <= b < |blocks| :: !(blocks[b].first <= i + 1 && i + 1 <= blocks[b].last))
    && (Met(nodes, found, start, length)
        ==> exists k :: start <= k < start + length && !Hidden(nodes, found, k) && !IsSpace(source[k]))
  }

  ghost function Found(nodes: seq<HtmlNode>): seq<seq<Range>> {
    seq(|nodes|, n requires 0 <= n < |nodes| => Comments(nodes[n].value, 0))
  }

  lemma HiddenIs(nodes: seq<HtmlNode>, k: int)
    ensures Hidden(nodes, Found(nodes), k) <==> Covered(SourceComments(nodes), k)
  {
    SourceCommentsCover(nodes, k);
    if n: nat, j: nat :| Hides(nodes, Found(nodes), n, j, k) {
      assert Within(Comments(nodes[n].value, 0)[j], k - nodes[n].offset);
      assert InNode(nodes[n], k);
    }
    if node :| node in nodes && InNode(node, k) {
      var n :| 0 <= n < |nodes| && nodes[n] == node;
      var r :| r in Comments(node.value, 0) && Within(r, k - node.offset);
      var j :| 0 <= j < |Comments(node.value, 0)| && Comments(node.value, 0)[j] == r;
      assert Hides(nodes, Found(nodes), n, j, k);
    }
  }

  lemma {:induction false} ShiftIsLong(ranges: seq<Range>, offset: nat)
    requires forall r | r in ranges :: r.start < r.end
    ensures forall r | r in Shift(ranges, offset) :: r.start < r.end
  {
    if ranges != [] {
      assert ranges[0] in ranges;
      ShiftIsLong(ranges[1..], offset);
    }
  }

  lemma {:induction false} CommentsAreLong(nodes: seq<HtmlNode>)
    ensures forall c | c in SourceComments(nodes) :: c.start < c.end
  {
    if nodes != [] {
      CommentsAreLong(nodes[..|nodes| - 1]);
      CommentsInOrder(nodes[|nodes| - 1].value, 0);
      ShiftIsLong(Comments(nodes[|nodes| - 1].value, 0), nodes[|nodes| - 1].offset);
    }
  }

  lemma TouchesIs(c: Range, start: nat, length: nat)
    requires c.start < c.end
    ensures Touches(c, start, length)
            <==> exists k :: OnLine(start, length, k) && Within(c, k)
  {
    if Touches(c, start, length) {
      assert Within(c, if c.start < start then start else c.start);
    }
  }

  lemma MetIs(nodes: seq<HtmlNode>, start: nat, length: nat)
    ensures Met(nodes, Found(nodes), start, length) <==> Touched(SourceComments(nodes), start, length)
  {
    CommentsAreLong(nodes);
    if k :| OnLine(start, length, k) && Hidden(nodes, Found(nodes), k) {
      HiddenIs(nodes, k);
      var c :| c in SourceComments(nodes) && Within(c, k);
      TouchesIs(c, start, length);
    }
    if c :| c in SourceComments(nodes) && Touches(c, start, length) {
      TouchesIs(c, start, length);
      var k :| OnLine(start, length, k) && Within(c, k);
      HiddenIs(nodes, k);
    }
  }

  lemma StaysIs(source: string, nodes: seq<HtmlNode>, blocks: seq<CodeBlock>, i: nat)
    requires i < |SplitLines(source)|
    ensures var lines := SplitLines(source);
            && LineOffset(lines, i) + |lines[i]| <= |source|
            && (Keeps(lines, SourceComments(nodes), blocks, i)
                <==> Stays(source, nodes, Found(nodes), blocks, i, LineOffset(lines, i), |lines[i]|))
  {
    var lines, comments := SplitLines(source), SourceComments(nodes);
    var start, length := LineOffset(lines, i), |lines[i]|;
    KeptExactlyWhenVisible(source, comments, blocks, i);
    MetIs(nodes, start, length);
    forall k ensures Hidden(nodes, Found(nodes), k) <==> Covered(comments, k) { HiddenIs(nodes, k); }
    assert InCode(blocks, i + 1) <==> exists b :: 0 <= b < |blocks| && blocks[b].first <= i + 1 <= blocks[b].last;
  }

  /** The lines between line feeds, with the offsets where they start. */
  ghost predicate AreLines(source: string, lines: seq<string>, starts: seq<nat>) {
    && |lines| == |starts| == Count(source, IsFeed) + 1
    && forall i | 0 <= i < |lines| :: LineAt(source, i, starts[i], lines[i])
  }

  lemma LinesAreTold(source: string) returns (starts: seq<nat>)
    ensures AreLines(source, SplitLines(source), starts)
    ensures forall i | 0 <= i < |starts| :: starts[i] == LineOffset(SplitLines(source), i)
  {
    var lines := SplitLines(source);
    LinesAreCounted(source);
    starts := seq(|lines|, i requires 0 <= i < |lines| => LineOffset(lines, i));
    forall i | 0 <= i < |lines| ensures LineAt(source, i, starts[i], lines[i]) { LineIsTold(source, i); }
  }

  /** Line `i` is listed under its number exactly when it stays. */
  ghost predicate ListedIfStays(
    source: string, nodes: seq<HtmlNode>, found: seq<seq<Range>>, blocks: seq<CodeBlock>, kept: seq<ProseLine>,
    i: nat, start: nat, raw: string
  ) {
    && start + |raw| <= |source|
    && (ProseLine(i + 1, raw) in kept <==> Stays(source, nodes, found, blocks, i, start, |raw|))
  }

  /** A listed line has a number and the text of that line. */
  ghost predicate IsListed(lines: seq<string>, p: ProseLine) {
    0 < p.index <= |lines| && p.raw == lines[p.index - 1]
  }

  /**
   * What is returned: the lines are those between line feeds, `found` holds the
   * comments of each node, and exactly the lines that stay are listed, under
   * their numbers and in order.
   */
  ghost predicate ProseReport(
    source: string, nodes: seq<HtmlNode>, blocks: seq<CodeBlock>, kept: seq<ProseLine>,
    lines: seq<string>, starts: seq<nat>, found: seq<seq<Range>>
  ) {
    && AreLines(source, lines, starts)
    && |found| == |nodes| && (forall n | 0 <= n < |nodes| :: AreComments(nodes[n].value, found[n]))
    && (forall m, n | 0 <= m < n < |kept| :: kept[m].index < kept[n].index)
    && (forall n | 0 <= n < |kept| :: IsListed(lines, kept[n]))
    && (forall i | 0 <= i < |lines| :: ListedIfStays(source, nodes, found, blocks, kept, i, starts[i], lines[i]))
  }

  lemma ListedIsKept(lines: seq<string>, keep: nat -> bool, i: nat)
    requires i < |lines|
    ensures ProseLine(i + 1, lines[i]) in KeptFrom(lines, keep, 0) <==> keep(i)
  {
    KeptLists(lines, keep, 0, ProseLine(i + 1, lines[i]));
  }

  lemma StayingIsListed(source: string, nodes: seq<HtmlNode>, blocks: seq<CodeBlock>, lines: seq<string>, kept: seq<ProseLine>, i: nat)
    requires lines == SplitLines(source) && i < |lines|
    requires ProseLine(i + 1, lines[i]) in kept <==> Keeps(lines, SourceComments(nodes), blocks, i)
    ensures ListedIfStays(source, nodes, Found(nodes), blocks, kept, i, LineOffset(lines, i), lines[i])
  {
    StaysIs(source, nodes, blocks, i);
  }

  /** The kept lines are the ones this tells. */
  lemma ProseIsTold(source: string, nodes: seq<HtmlNode>, blocks: seq<CodeBlock>, kept: seq<ProseLine>)
    returns (starts: seq<nat>, found: seq<seq<Range>>)
    requires kept == KeptFrom(SplitLines(source), KeepTest(SplitLines(source), SourceComments(nodes), blocks), 0)
    ensures ProseReport(source, nodes, blocks, kept, SplitLines(source), starts, found)
  {
    found := Found(nodes);
    starts := LinesAreTold(source);
    var lines := SplitLines(source);
    var keep := KeepTest(lines, SourceComments(nodes), blocks);
    KeptInOrder(lines, keep, 0);
    forall n | 0 <= n < |nodes| ensures AreComments(nodes[n].value, found[n]) { CommentsAreTold(nodes[n].value); }
    forall n | 0 <= n < |kept| ensures IsListed(lines, kept[n]) { KeptLists(lines, keep, 0, kept[n]); }
    forall i | 0 <= i < |lines|
      ensures ListedIfStays(source, nodes, found, blocks, kept, i, starts[i], lines[i])
    {
      ListedIsKept(lines, keep, i);
      StayingIsListed(source, nodes, blocks, lines, kept, i);
    }
  }
}
