/**
 * The comment mask of scripts/markdown.ts: HTML comment ranges of a source, cut
 * into columns of each line, and the text of a line they leave visible. The
 * parsed HTML nodes are an input.
 */
module MarkdownMask {
  import opened Prelude
  import opened Sorting

  /** A parsed HTML node and where its text starts in the source. */
  datatype HtmlNode = HtmlNode(offset: nat, value: string)

  /** From `start` up to, not including, `end`. */
  datatype Range = Range(start: nat, end: nat)

  predicate Within(r: Range, k: int) {
    r.start <= k < r.end
  }

  predicate Covered(ranges: seq<Range>, k: int) {
    exists r | r in ranges :: Within(r, k)
  }

  // ---- Comments of one node ----

  predicate OccursAt(s: string, pattern: string, i: int) {
    0 <= i && i + |pattern| <= |s| && s[i..i + |pattern|] == pattern
  }

  /** `indexOf`: the first occurrence at or after a position. */
  function IndexOf(s: string, pattern: string, from: nat): (r: Option<nat>)
    ensures r.Some? ==> from <= r.value && OccursAt(s, pattern, r.value)
    ensures r.Some? ==> forall i | from <= i < r.value :: !OccursAt(s, pattern, i)
    ensures r.None? ==> forall i | from <= i :: !OccursAt(s, pattern, i)
    decreases |s| - from
  {
    if OccursAt(s, pattern, from) then Some(from)
    else if from >= |s| then None
    else IndexOf(s, pattern, from + 1)
  }

  const OPEN := "<!--"
  const CLOSE := "-->"

  function CommentEnd(value: string, start: nat): nat {
    match IndexOf(value, CLOSE, start + |OPEN|)
    case None => |value|
    case Some(close) => close + |CLOSE|
  }

  function Comments(value: string, cursor: nat): seq<Range>
    decreases |value| - cursor
  {
    match IndexOf(value, OPEN, cursor)
    case None => []
    case Some(start) => [Range(start, CommentEnd(value, start))] + Comments(value, CommentEnd(value, start))
  }

  /** A comment runs from an opener to the first closer after it, or to the end of the node. */
  ghost predicate IsComment(value: string, r: Range) {
    && OccursAt(value, OPEN, r.start) && r.start + |OPEN| <= r.end <= |value|
    && (forall i | r.start + |OPEN| <= i < r.end - |CLOSE| :: !OccursAt(value, CLOSE, i))
    && ((r.start + |OPEN| <= r.end - |CLOSE| && OccursAt(value, CLOSE, r.end - |CLOSE|))
        || (r.end == |value| && forall i | r.start + |OPEN| <= i :: !OccursAt(value, CLOSE, i)))
  }

  lemma FoundIsComment(value: string, start: nat)
    requires OccursAt(value, OPEN, start)
    ensures IsComment(value, Range(start, CommentEnd(value, start)))
  {
  }

  /** The scan finds comments in order and without overlap. */
  lemma {:induction false} CommentsInOrder(value: string, cursor: nat)
    ensures forall r | r in Comments(value, cursor) :: IsComment(value, r) && r.start >= cursor
    ensures forall i, j | 0 <= i < j < |Comments(value, cursor)| ::
              Comments(value, cursor)[i].end <= Comments(value, cursor)[j].start
    decreases |value| - cursor
  {
    var found := IndexOf(value, OPEN, cursor);
    if found.Some? {
      FoundIsComment(value, found.value);
      var end := CommentEnd(value, found.value);
      CommentsInOrder(value, end);
      var rest := Comments(value, end);
      forall j | 0 <= j < |rest| ensures end <= rest[j].start { assert rest[j] in rest; }
    }
  }

  /** The scan leaves no opener outside the comments. */
  lemma {:induction false} CommentsAreMaximal(value: string, cursor: nat, i: nat)
    requires i >= cursor && OccursAt(value, OPEN, i)
    ensures Covered(Comments(value, cursor), i)
    decreases |value| - cursor
  {
    var start := IndexOf(value, OPEN, cursor).value;
    var first := Range(start, CommentEnd(value, start));
    var rest := Comments(value, first.end);
    CoveredCons(first, rest, i);
    if i < first.end {
      assert Within(first, i);
    } else {
      CommentsAreMaximal(value, first.end, i);
    }
  }

  // ---- Comments of the source, as columns of its lines ----

  function Shift(ranges: seq<Range>, offset: nat): seq<Range> {
    if ranges == [] then []
    else [Range(offset + ranges[0].start, offset + ranges[0].end)] + Shift(ranges[1..], offset)
  }

  function SourceComments(nodes: seq<HtmlNode>): seq<Range> {
    if nodes == [] then []
    else SourceComments(nodes[..|nodes| - 1]) + Shift(Comments(nodes[|nodes| - 1].value, 0), nodes[|nodes| - 1].offset)
  }

  lemma {:induction false} ShiftCovers(ranges: seq<Range>, offset: nat, k: int)
    ensures Covered(Shift(ranges, offset), k) <==> Covered(ranges, k - offset)
  {
    if ranges != [] {
      var r := ranges[0];
      ShiftCovers(ranges[1..], offset, k);
      assert ranges == [r] + ranges[1..];
      CoveredCons(r, ranges[1..], k - offset);
      CoveredCons(Range(offset + r.start, offset + r.end), Shift(ranges[1..], offset), k);
    }
  }

  /** The character at an absolute offset is in a comment of one of the nodes. */
  ghost predicate InNode(node: HtmlNode, k: int) {
    Covered(Comments(node.value, 0), k - node.offset)
  }

  lemma CoveredConcat(a: seq<Range>, b: seq<Range>, k: int)
    ensures Covered(a + b, k) <==> Covered(a, k) || Covered(b, k)
  {
    if r :| r in a && Within(r, k) { assert r in a + b; }
    if r :| r in b && Within(r, k) { assert r in a + b; }
  }

  /** An absolute offset is covered exactly when it lies in a comment of some node. */
  lemma {:induction false} SourceCommentsCover(nodes: seq<HtmlNode>, k: int)
    ensures Covered(SourceComments(nodes), k) <==> exists node {:trigger InNode(node, k)} | node in nodes :: InNode(node, k)
  {
    if nodes != [] {
      var init, last := nodes[..|nodes| - 1], nodes[|nodes| - 1];
      SourceCommentsCover(init, k);
      ShiftCovers(Comments(last.value, 0), last.offset, k);
      CoveredConcat(SourceComments(init), Shift(Comments(last.value, 0), last.offset), k);
      assert nodes == init + [last];
      assert InNode(last, k) <==> Covered(Comments(last.value, 0), k - last.offset);
    }
  }

  function LineOffset(lines: seq<string>, i: nat): nat
    requires i <= |lines|
  {
    if i == 0 then 0 else LineOffset(lines, i - 1) + |lines[i - 1]| + 1
  }

  /** A comment meets a line if they share a character, or the line is empty and the comment goes over it. */
  predicate Touches(c: Range, offset: nat, length: nat) {
    var from := if c.start < offset then offset else c.start;
    var to := if c.end < offset + length then c.end else offset + length;
    from < to || (length == 0 && c.start <= offset && c.end > offset)
  }

  /** The columns of a line that a comment meeting it covers. */
  function Columns(c: Range, offset: nat, length: nat): Range
    requires Touches(c, offset, length)
  {
    var from := if c.start < offset then offset else c.start;
    var to := if c.end < offset + length then c.end else offset + length;
    Range(from - offset, to - offset)
  }

  function LineRanges(comments: seq<Range>, offset: nat, length: nat): seq<Range> {
    if comments == [] then []
    else
      var c, init := comments[|comments| - 1], LineRanges(comments[..|comments| - 1], offset, length);
      if Touches(c, offset, length) then init + [Columns(c, offset, length)] else init
  }

  predicate Touched(comments: seq<Range>, offset: nat, length: nat) {
    exists c | c in comments :: Touches(c, offset, length)
  }

  /** Columns and absolute offsets tell the same story. */
  lemma {:induction false} LineRangesCover(comments: seq<Range>, offset: nat, length: nat, k: nat)
    requires k < length
    ensures Covered(LineRanges(comments, offset, length), k) <==> Covered(comments, offset + k)
  {
    if comments != [] {
      var init, c := comments[..|comments| - 1], comments[|comments| - 1];
      LineRangesCover(init, offset, length, k);
      assert comments == init + [c];
      assert Within(c, offset + k) ==> Touches(c, offset, length);
      if Touches(c, offset, length) {
        assert Within(Columns(c, offset, length), k) <==> Within(c, offset + k);
        CoveredAppend(LineRanges(init, offset, length), Columns(c, offset, length), k);
      }
      CoveredAppend(init, c, offset + k);
    }
  }

  lemma CoveredAppend(ranges: seq<Range>, r: Range, k: int)
    ensures Covered(ranges + [r], k) <==> Covered(ranges, k) || Within(r, k)
  {
    assert r in ranges + [r];
    if x :| x in ranges && Within(x, k) { assert x in ranges + [r]; }
  }

  lemma {:induction false} LineRangesFit(comments: seq<Range>, offset: nat, length: nat)
    ensures forall r | r in LineRanges(comments, offset, length) :: r.start <= r.end <= length
    ensures LineRanges(comments, offset, length) != [] <==> Touched(comments, offset, length)
  {
    if comments != [] {
      var init, c := comments[..|comments| - 1], comments[|comments| - 1];
      LineRangesFit(init, offset, length);
      assert comments == init + [c];
    }
  }

  // ---- The text a set of columns leaves visible ----

  ghost predicate Fits(ranges: seq<Range>, length: nat) {
    forall r | r in ranges :: r.start <= r.end <= length
  }

  function ByStart(): (Range, Range) -> bool {
    (a: Range, b: Range) => a.start <= b.start
  }

  /** The characters from a column on that no range covers. */
  function Outside(raw: string, ranges: seq<Range>, k: nat): string
    decreases |raw| - k
  {
    if k >= |raw| then ""
    else (if Covered(ranges, k) then "" else [raw[k]]) + Outside(raw, ranges, k + 1)
  }

  function Max(a: nat, b: nat): nat {
    if a < b then b else a
  }

  /** `slice(from, to)`: empty when the bounds cross. */
  function Slice(raw: string, from: nat, to: nat): string
    requires to <= |raw|
  {
    if from < to then raw[from..to] else ""
  }

  /** The walk over the gaps between sorted ranges. */
  function Visible(raw: string, ranges: seq<Range>, cursor: nat): string
    requires forall r | r in ranges :: r.start <= |raw|
  {
    if ranges == [] then Slice(raw, cursor, |raw|)
    else
      assert ranges[0] in ranges;
      Slice(raw, cursor, ranges[0].start) + Visible(raw, ranges[1..], Max(cursor, ranges[0].end))
  }

  lemma {:induction false} OutsideKeeps(raw: string, ranges: seq<Range>, from: nat, until: nat)
    requires from <= until <= |raw| && forall k | from <= k < until :: !Covered(ranges, k)
    ensures Outside(raw, ranges, from) == raw[from..until] + Outside(raw, ranges, until)
    decreases until - from
  {
    if from < until {
      OutsideKeeps(raw, ranges, from + 1, until);
      var tail, rest := raw[from + 1..until], Outside(raw, ranges, until);
      assert raw[from..until] == [raw[from]] + tail;
      assert [raw[from]] + (tail + rest) == [raw[from]] + tail + rest;
    } else {
      assert raw[from..until] == "";
    }
  }

  lemma {:induction false} OutsideDrops(raw: string, ranges: seq<Range>, from: nat, until: nat)
    requires from <= until && forall k | from <= k < until :: Covered(ranges, k)
    ensures Outside(raw, ranges, from) == Outside(raw, ranges, until)
    decreases until - from
  {
    if from < until { OutsideDrops(raw, ranges, from + 1, until); }
  }

  lemma {:induction false} OutsideAgrees(raw: string, a: seq<Range>, b: seq<Range>, from: nat)
    requires forall k | from <= k < |raw| :: Covered(a, k) == Covered(b, k)
    ensures Outside(raw, a, from) == Outside(raw, b, from)
    decreases |raw| - from
  {
    if from < |raw| { OutsideAgrees(raw, a, b, from + 1); }
  }

  lemma CoveredCons(r: Range, rest: seq<Range>, k: int)
    ensures Covered([r] + rest, k) <==> Within(r, k) || Covered(rest, k)
  {
    var all := [r] + rest;
    assert r in all;
    if x :| x in rest && Within(x, k) { assert x in all; }
  }

  lemma UncoveredBefore(ranges: seq<Range>, k: int)
    requires Sorted(ranges, ByStart()) && ranges != [] && k < ranges[0].start
    ensures !Covered(ranges, k)
  {
    forall r | r in ranges ensures !Within(r, k) {
      var i :| 0 <= i < |ranges| && ranges[i] == r;
      assert i > 0 ==> ByStart()(ranges[0], ranges[i]);
    }
  }

  /** Walking the gaps of sorted ranges, overlapping or not, visits exactly the uncovered columns. */
  lemma {:induction false} VisibleIsOutside(raw: string, ranges: seq<Range>, cursor: nat)
    requires Fits(ranges, |raw|) && Sorted(ranges, ByStart()) && cursor <= |raw|
    ensures Visible(raw, ranges, cursor) == Outside(raw, ranges, cursor)
  {
    if ranges == [] {
      OutsideKeeps(raw, ranges, cursor, |raw|);
    } else {
      var r, rest := ranges[0], ranges[1..];
      assert ranges == [r] + rest && r in ranges;
      var gap := Max(cursor, r.start);
      var next := Max(cursor, r.end);
      forall k | cursor <= k < gap ensures !Covered(ranges, k) { UncoveredBefore(ranges, k); }
      OutsideKeeps(raw, ranges, cursor, gap);
      assert Slice(raw, cursor, r.start) == raw[cursor..gap];
      forall k | gap <= k < next ensures Covered(ranges, k) { assert Within(r, k); }
      OutsideDrops(raw, ranges, gap, next);
      forall k ensures k >= next ==> Covered(ranges, k) == Covered(rest, k) { CoveredCons(r, rest, k); }
      OutsideAgrees(raw, ranges, rest, next);
      VisibleIsOutside(raw, rest, next);
    }
  }
}
