/**
 * Lines as cells: the text between quotes and line terminators. Both rewrites
 * of a name change the content of single cells, which makes their interplay
 * with one another and with shared quotes local.
 */
module RescopeCells {
  import opened Prelude
  import opened Text
  import opened RescopeText

  datatype Line = End(content: string) | Cell(content: string, delimiter: char, rest: Line)

  predicate Plain(content: string) {
    forall i | 0 <= i < |content| :: !IsDelimiter(content[i])
  }

  predicate WellFormed(t: Line) {
    Plain(t.content) && (t.Cell? ==> IsDelimiter(t.delimiter) && WellFormed(t.rest))
  }

  function Parse(s: string): (t: Line)
    ensures WellFormed(t)
    decreases |s|
  {
    var n := SkipWhile(s, NotDelimiter);
    if n == |s| then End(s) else Cell(s[..n], s[n], Parse(s[n + 1..]))
  }

  function Unparse(t: Line): string {
    match t
    case End(content) => content
    case Cell(content, delimiter, rest) => content + [delimiter] + Unparse(rest)
  }

  lemma {:induction false} UnparseParse(s: string)
    ensures Unparse(Parse(s)) == s
    decreases |s|
  {
    var n := SkipWhile(s, NotDelimiter);
    if n < |s| {
      UnparseParse(s[n + 1..]);
      assert s == s[..n] + [s[n]] + s[n + 1..];
    }
  }

  lemma {:induction false} ParseUnparse(t: Line)
    requires WellFormed(t)
    ensures Parse(Unparse(t)) == t
  {
    var s := Unparse(t);
    if t.Cell? {
      SkipWhileIs(s, NotDelimiter, |t.content|);
      assert s[..|t.content|] == t.content && s[|t.content| + 1..] == Unparse(t.rest);
      ParseUnparse(t.rest);
    } else {
      SkipWhileIs(s, NotDelimiter, |s|);
    }
  }

  // ---- The two rewrites on cells ----

  /** A name, or a name with a subpath. */
  predicate IsToken(content: string, name: string) {
    && name <= content
    && (|content| == |name| || (content[|name|] == '/' && forall i | |name| <= i < |content| :: !IsSpace(content[i])))
  }

  function Opens(delimiter: char): Option<char> {
    if IsQuote(delimiter) then Some(delimiter) else None
  }

  /** `open` is the quote before the cell, unless a match has used it up. */
  function TokenCells(t: Line, open: Option<char>, r: Rule): Line {
    match t
    case End(_) => t
    case Cell(content, delimiter, rest) =>
      if open == Some(delimiter) && IsToken(content, r.from) then
        Cell(r.to + content[|r.from|..], delimiter, TokenCells(rest, None, r))
      else
        Cell(content, delimiter, TokenCells(rest, Opens(delimiter), r))
  }

  /** `first` says whether the cell starts a terminator-delimited line. */
  function YamlCells(t: Line, first: bool, r: Rule): Line {
    match t
    case End(content) => End(if first then ReplaceYamlName(content, true, r) else content)
    case Cell(content, delimiter, rest) =>
      Cell(if first then ReplaceYamlName(content, IsTerminator(delimiter), r) else content,
           delimiter, YamlCells(rest, IsTerminator(delimiter), r))
  }

  // ---- The cell rewrites are the text rewrites ----

  lemma {:induction false} QuoteFreePrefix(c: string, u: string, r: Rule)
    requires forall i | 0 <= i < |c| :: !IsQuote(c[i])
    ensures ReplaceTokens(c + u, r) == c + ReplaceTokens(u, r)
  {
    if c == "" {
      assert c + u == u;
    } else {
      assert (c + u)[1..] == c[1..] + u;
      QuoteFreePrefix(c[1..], u, r);
      assert c == [c[0]] + c[1..];
    }
  }

  ghost predicate NoSpaces(s: string) {
    forall i | 0 <= i < |s| :: !IsSpace(s[i])
  }

  /** A subpath runs to the end of its cell, or stops earlier at white space. */
  lemma SubpathStops(sub: string, delimiter: char, u: string)
    requires Plain(sub) && IsDelimiter(delimiter)
    ensures var k := SkipWhile(sub + [delimiter] + u, InSubpath);
            k <= |sub| && (k == |sub| <==> NoSpaces(sub)) && (k < |sub| ==> IsSpace(sub[k]))
  {
    var s := sub + [delimiter] + u;
    assert s[|sub|] == delimiter && !InSubpath(delimiter);
    assert forall i | 0 <= i < |sub| :: s[i] == sub[i];
  }

  lemma NameStops(content: string, delimiter: char, u: string, name: string)
    requires IsDelimiter(delimiter) && IsName(name)
    ensures name <= content + [delimiter] + u <==> name <= content
  {
    var tail := content + [delimiter] + u;
    if |name| > |content| {
      assert tail[|content|] == delimiter && !IsDelimiter(name[|content|]);
    }
  }

  /** What follows a matched name, up to the next delimiter, is empty or a subpath. */
  lemma AfterName(open: char, content: string, delimiter: char, u: string)
    requires IsQuote(open) && Plain(content) && IsDelimiter(delimiter)
    ensures var rest := content + [delimiter] + u;
            var sub := if rest != "" && rest[0] == '/' then 1 + SkipWhile(rest[1..], InSubpath) else 0;
            (sub < |rest| && rest[sub] == open <==> delimiter == open && (content == "" || (content[0] == '/' && NoSpaces(content[1..]))))
            && (sub < |rest| && rest[sub] == open ==> sub == |content|)
  {
    var rest := content + [delimiter] + u;
    if content != "" {
      assert rest[0] == content[0];
      assert rest[1..] == content[1..] + [delimiter] + u;
      SubpathStops(content[1..], delimiter, u);
    } else {
      assert rest[0] == delimiter;
    }
  }

  /** A match at an opening quote is a token cell closed by the same quote. */
  lemma TokenAtQuote(open: char, content: string, delimiter: char, u: string, name: string)
    requires IsQuote(open) && Plain(content) && IsDelimiter(delimiter) && IsName(name)
    ensures TokenLength([open] + content + [delimiter] + u, name)
            == if open == delimiter && IsToken(content, name) then |content| + 2 else 0
  {
    var s := [open] + content + [delimiter] + u;
    assert s[1..] == content + [delimiter] + u;
    NameStops(content, delimiter, u, name);
    if name <= content {
      var after := content[|name|..];
      assert s[1 + |name|..] == after + [delimiter] + u;
      AfterName(open, after, delimiter, u);
      assert after != "" ==> after[0] == content[|name|];
      assert after != "" ==> (NoSpaces(after[1..]) && after[0] == '/' <==> NoSpaces(after) && after[0] == '/') by {
        if after != "" { assert after == [after[0]] + after[1..]; }
      }
      assert NoSpaces(after) <==> forall i | |name| <= i < |content| :: !IsSpace(content[i]);
    }
  }

  lemma TokenAtEnd(open: char, content: string, name: string)
    requires IsQuote(open) && Plain(content) && IsName(name)
    ensures TokenLength([open] + content, name) == 0
  {
    var s := [open] + content;
    if name <= s[1..] {
      var rest := s[1 + |name|..];
      assert forall i | 0 <= i < |rest| :: rest[i] == content[|name| + i];
    }
  }

  lemma Unmatched(s: string, r: Rule)
    requires s != "" && TokenLength(s, r.from) == 0
    ensures ReplaceTokens(s, r) == [s[0]] + ReplaceTokens(s[1..], r)
  {
  }

  lemma Matched(open: char, content: string, delimiter: char, u: string, r: Rule)
    requires TokenLength([open] + content + [delimiter] + u, r.from) == |content| + 2 && |r.from| <= |content|
    ensures ReplaceTokens([open] + content + [delimiter] + u, r)
            == [open] + r.to + (content[|r.from|..] + [delimiter]) + ReplaceTokens(u, r)
  {
    var whole := [open] + content + [delimiter] + u;
    assert whole[|content| + 2..] == u;
    assert whole[1 + |r.from|..|content| + 2] == content[|r.from|..] + [delimiter];
  }

  /** A cell that is not rewritten is copied, and the delimiter decides what follows. */
  lemma PassedOver(content: string, delimiter: char, u: string, v: string, r: Rule)
    requires Plain(content) && ReplaceTokens([delimiter] + u, r) == [delimiter] + v
    ensures ReplaceTokens(content + [delimiter] + u, r) == content + [delimiter] + v
  {
    assert content + [delimiter] + u == content + ([delimiter] + u);
    QuoteFreePrefix(content, [delimiter] + u, r);
    assert content + [delimiter] + v == content + ([delimiter] + v);
  }

  lemma {:induction false} TokensMatch(t: Line, r: Rule)
    requires WellFormed(t) && IsRule(r)
    ensures Unparse(TokenCells(t, None, r)) == ReplaceTokens(Unparse(t), r)
    decreases t, 0
  {
    match t
    case End(content) =>
      QuoteFreePrefix(content, "", r);
      assert content + "" == content;
    case Cell(content, delimiter, rest) =>
      AfterDelimiter(delimiter, rest, r);
      PassedOver(content, delimiter, Unparse(rest), Unparse(TokenCells(rest, Opens(delimiter), r)), r);
  }

  lemma {:induction false} AfterDelimiter(delimiter: char, t: Line, r: Rule)
    requires WellFormed(t) && IsRule(r) && IsDelimiter(delimiter)
    ensures ReplaceTokens([delimiter] + Unparse(t), r) == [delimiter] + Unparse(TokenCells(t, Opens(delimiter), r))
    decreases t, 1
  {
    if IsQuote(delimiter) {
      AfterQuote(delimiter, t, r);
    } else {
      TokensMatch(t, r);
      assert ([delimiter] + Unparse(t))[1..] == Unparse(t);
      Unmatched([delimiter] + Unparse(t), r);
    }
  }

  lemma {:induction false} AfterQuote(open: char, t: Line, r: Rule)
    requires WellFormed(t) && IsRule(r) && IsQuote(open)
    ensures ReplaceTokens([open] + Unparse(t), r) == [open] + Unparse(TokenCells(t, Some(open), r))
    decreases t, 0
  {
    var s := [open] + Unparse(t);
    assert s[1..] == Unparse(t);
    match t
    case End(content) =>
      TokenAtEnd(open, content, r.from);
      Unmatched(s, r);
      QuoteFreePrefix(content, "", r);
      assert content + "" == content;
    case Cell(content, delimiter, rest) =>
      assert s == [open] + content + [delimiter] + Unparse(rest);
      TokenAtQuote(open, content, delimiter, Unparse(rest), r.from);
      if open == delimiter && IsToken(content, r.from) {
        TokensMatch(rest, r);
        Matched(open, content, delimiter, Unparse(rest), r);
        Regroup(open, r.to, content[|r.from|..], delimiter, Unparse(TokenCells(rest, None, r)));
      } else {
        Unmatched(s, r);
        AfterDelimiter(delimiter, rest, r);
        PassedOver(content, delimiter, Unparse(rest), Unparse(TokenCells(rest, Opens(delimiter), r)), r);
      }
  }

  lemma Regroup(open: char, a: string, b: string, delimiter: char, c: string)
    ensures [open] + a + (b + [delimiter]) + c == [open] + ((a + b) + [delimiter] + c)
  {
  }

  // ---- The YAML rule ----

  /** The text after a cell when a quote ends it. */
  ghost predicate StartsWithQuote(t: string) {
    t != "" && IsQuote(t[0])
  }

  lemma DropLeft(c: string, t: string, i: nat)
    requires i <= |c|
    ensures (c + t)[i..] == c[i..] + t && (c + t)[..i] == c[..i]
  {
  }

  lemma SliceRight(h: string, v: string, k: nat)
    requires k <= |v|
    ensures (h + v)[..|h| + k] == h + v[..k] && (h + v)[|h| + k..] == v[k..]
  {
  }

  /** A word without quotes occurs at the front of a text exactly when it does before the quote. */
  lemma PrefixStops(w: string, x: string, t: string)
    requires StartsWithQuote(t) && forall i | 0 <= i < |w| :: !IsQuote(w[i])
    ensures w <= x + t <==> w <= x
  {
    if |w| > |x| {
      assert !IsQuote(w[|x|]) && (x + t)[|x|] == t[0];
    }
  }

  lemma SkipStops(x: string, p: char -> bool, t: string)
    requires t != "" && !p(t[0])
    ensures SkipWhile(x + t, p) == SkipWhile(x, p)
  {
    SkipWhileIs(x + t, p, SkipWhile(x, p));
  }

  lemma KeyStartStops(c: string, t: string)
    requires StartsWithQuote(t)
    ensures KeyStart(c + t) == KeyStart(c)
  {
    SkipStops(c, IsSpace, t);
    var i := SkipWhile(c, IsSpace);
    if i < |c| && c[i] == '-' {
      DropLeft(c, t, i + 1);
      SkipStops(c[i + 1..], IsSpace, t);
    }
  }

  lemma KeyStops(x: string, t: string)
    requires StartsWithQuote(t)
    ensures "name:" <= x + t <==> "name:" <= x
  {
    PrefixStops("name:", x, t);
  }

  lemma BlanksStop(c: string, t: string, k: nat)
    requires StartsWithQuote(t) && k <= |c|
    ensures SkipWhile((c + t)[k..], IsBlank) == SkipWhile(c[k..], IsBlank)
  {
    DropLeft(c, t, k);
    SkipStops(c[k..], IsBlank, t);
  }

  lemma ValueOfStops(c: string, t: string, j: nat)
    requires StartsWithQuote(t) && j <= |c|
    ensures ValueOf(c + t, j) == ValueOf(c, j)
  {
    DropLeft(c, t, j);
    KeyStops(c[j..], t);
    if "name:" <= c[j..] {
      BlanksStop(c, t, j + 5);
    }
  }

  /** A quote after a cell changes nothing about where its value starts. */
  lemma ValueStartStops(c: string, t: string)
    requires StartsWithQuote(t)
    ensures ValueStart(c + t) == ValueStart(c)
  {
    KeyStartStops(c, t);
    ValueOfStops(c, t, KeyStart(c));
  }

  lemma OnlyCommentStops(x: string, t: string, last: bool)
    requires StartsWithQuote(t)
    ensures OnlyComment(x + t, last) == OnlyComment(x, false)
  {
    SkipStops(x, IsBlank, t);
  }

  lemma SubstituteStops(c: string, t: string, p: nat, r: Rule)
    requires p <= |c| && r.from <= c[p..] && r.from <= (c + t)[p..]
    ensures Substitute(c + t, p, r) == Substitute(c, p, r) + t
  {
    DropLeft(c, t, p);
    DropLeft(c, t, p + |r.from|);
    Join(c[..p] + r.to, c[p + |r.from|..], t);
  }

  lemma NameAtStops(c: string, t: string, p: nat, name: string)
    requires StartsWithQuote(t) && IsName(name) && p <= |c|
    ensures name <= (c + t)[p..] <==> name <= c[p..]
  {
    DropLeft(c, t, p);
    PrefixStops(name, c[p..], t);
  }

  lemma CommentAtStops(c: string, t: string, last: bool, k: nat)
    requires StartsWithQuote(t) && k <= |c|
    ensures OnlyComment((c + t)[k..], last) == OnlyComment(c[k..], false)
  {
    DropLeft(c, t, k);
    OnlyCommentStops(c[k..], t, last);
  }

  lemma NamedAtStops(c: string, t: string, p: nat, last: bool, name: string)
    requires StartsWithQuote(t) && IsName(name) && p <= |c|
    ensures NamedAt(c + t, p, last, name) == NamedAt(c, p, false, name)
  {
    NameAtStops(c, t, p, name);
    if name <= c[p..] {
      CommentAtStops(c, t, last, p + |name|);
    }
  }

  lemma IsYamlNameStops(c: string, t: string, last: bool, name: string)
    requires StartsWithQuote(t) && IsName(name)
    ensures IsYamlName(c + t, last, name) == IsYamlName(c, false, name)
    ensures ValueStart(c + t) == ValueStart(c)
  {
    ValueStartStops(c, t);
    if ValueStart(c).Some? {
      NamedAtStops(c, t, ValueStart(c).value, last, name);
    }
  }

  lemma YamlNameStops(c: string, t: string, last: bool, r: Rule)
    requires StartsWithQuote(t) && IsName(r.from)
    ensures ReplaceYamlName(c + t, last, r) == ReplaceYamlName(c, false, r) + t
  {
    IsYamlNameStops(c, t, last, r.from);
    if IsYamlName(c, false, r.from) {
      SubstituteStops(c, t, ValueStart(c).value, r);
    }
  }

  function LinesMapper(inLine: char -> bool, f: string -> string): string -> string {
    (s: string) => MapLines(s, inLine, f)
  }

  /** A line already under way: only what follows its end is rewritten. */
  function MapRest(u: string, inLine: char -> bool, lines: string -> string): string {
    var e := SkipWhile(u, inLine);
    if e == |u| then u else u[..e + 1] + lines(u[e + 1..])
  }

  /** Where the line ends, past a head that does not end it. */
  lemma LineGoesOn(head: string, v: string, inLine: char -> bool)
    requires forall i | 0 <= i < |head| :: inLine(head[i])
    ensures SkipWhile(head + v, inLine) == |head| + SkipWhile(v, inLine)
  {
    SkipWhileIs(head + v, inLine, |head| + SkipWhile(v, inLine));
  }

  lemma RestGoesOn(head: string, v: string, inLine: char -> bool, lines: string -> string)
    requires forall i | 0 <= i < |head| :: inLine(head[i])
    ensures MapRest(head + v, inLine, lines) == head + MapRest(v, inLine, lines)
  {
    LineGoesOn(head, v, inLine);
    var e := SkipWhile(v, inLine);
    if e < |v| {
      var line, rest := v[..e + 1], lines(v[e + 1..]);
      SliceRight(head, v, e + 1);
      assert MapRest(head + v, inLine, lines) == head + line + rest;
      Join(head, line, rest);
    }
  }

  /** If the head decides the rewrite of its line, the line's remainder is copied. */
  lemma LinesGoOn(head: string, changed: string, v: string, inLine: char -> bool, f: string -> string)
    requires forall i | 0 <= i < |head| :: inLine(head[i])
    requires f(head + v[..SkipWhile(v, inLine)]) == changed + v[..SkipWhile(v, inLine)]
    ensures MapLines(head + v, inLine, f) == changed + MapRest(v, inLine, LinesMapper(inLine, f))
  {
    LineGoesOn(head, v, inLine);
    var e := SkipWhile(v, inLine);
    SliceRight(head, v, e);
    if e < |v| {
      SliceRight(head, v, e + 1);
      assert (head + v)[|head| + e] == v[e];
      Reassemble(changed, v, e, MapLines(v[e + 1..], inLine, f));
    } else {
      assert v[..e] == v && (head + v)[..|head| + e] == head + v;
    }
  }

  lemma Reassemble(a: string, v: string, e: nat, names: string)
    requires e < |v|
    ensures a + v[..e] + [v[e]] + names == a + (v[..e + 1] + names)
  {
    assert v[..e + 1] == v[..e] + [v[e]];
  }

  /** A line that ends right after the content. */
  lemma LineEnds(content: string, delimiter: char, v: string, inLine: char -> bool, f: string -> string)
    requires (forall i | 0 <= i < |content| :: inLine(content[i])) && !inLine(delimiter)
    ensures MapLines(content + [delimiter] + v, inLine, f) == f(content) + [delimiter] + MapLines(v, inLine, f)
    ensures MapRest(content + [delimiter] + v, inLine, LinesMapper(inLine, f)) == content + [delimiter] + MapLines(v, inLine, f)
  {
    var u := content + [delimiter] + v;
    SkipWhileIs(u, inLine, |content|);
    assert u[..|content|] == content && u[|content| + 1..] == v && u[..|content| + 1] == content + [delimiter];
  }

  lemma FirstLine(content: string, delimiter: char, m: string, r: Rule)
    requires IsQuote(delimiter) && IsName(r.from)
    ensures YamlLine(r)(content + [delimiter] + m) == ReplaceYamlName(content, false, r) + [delimiter] + m
  {
    Join(content, [delimiter], m);
    YamlNameStops(content, [delimiter] + m, true, r);
    Join(ReplaceYamlName(content, false, r), [delimiter], m);
  }

  lemma {:induction false} YamlRestMatches(t: Line, r: Rule)
    requires WellFormed(t) && IsRule(r)
    ensures Unparse(YamlCells(t, false, r)) == MapRest(Unparse(t), NotTerminator, LinesMapper(NotTerminator, YamlLine(r)))
    decreases t, 0
  {
    match t
    case End(content) =>
      SkipWhileIs(content, NotTerminator, |content|);
    case Cell(content, delimiter, rest) =>
      if IsTerminator(delimiter) {
        YamlMatches(rest, r);
        LineEnds(content, delimiter, Unparse(rest), NotTerminator, YamlLine(r));
      } else {
        YamlRestMatches(rest, r);
        RestGoesOn(content + [delimiter], Unparse(rest), NotTerminator, LinesMapper(NotTerminator, YamlLine(r)));
      }
  }

  lemma {:induction false} YamlMatches(t: Line, r: Rule)
    requires WellFormed(t) && IsRule(r)
    ensures Unparse(YamlCells(t, true, r)) == ReplaceYamlNames(Unparse(t), r)
    decreases t, 0
  {
    match t
    case End(content) =>
      SkipWhileIs(content, NotTerminator, |content|);
    case Cell(content, delimiter, rest) =>
      if IsTerminator(delimiter) {
        YamlMatches(rest, r);
        LineEnds(content, delimiter, Unparse(rest), NotTerminator, YamlLine(r));
      } else {
        YamlRestMatches(rest, r);
        var v, changed := Unparse(rest), ReplaceYamlName(content, false, r) + [delimiter];
        FirstLine(content, delimiter, v[..SkipWhile(v, NotTerminator)], r);
        LinesGoOn(content + [delimiter], changed, v, NotTerminator, YamlLine(r));
      }
  }
}
